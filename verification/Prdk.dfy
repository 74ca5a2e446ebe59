/** The frame handler of the firmware: it answers ARP requests, echo requests and character
    generator requests by rewriting the received frame in its buffer. */
module Prdk {
  import opened Words
  import opened Frames
  import opened Pcg
  import opened PcgOutput
  import opened Chaskey
  import opened SysTick
  import opened Sources = Prng
  import opened Replies

  /** `kIPv4Net`. */
  const IPV4_NET := MkIPv4Net(192, 168, 141, 123)

  /** `memcpy` of bytes from elsewhere, and every store of a field. */
  method Put(frame: array<uint8>, at: nat, bytes: Bytes)
    requires at + |bytes| <= frame.Length
    modifies frame
    ensures forall i :: 0 <= i < frame.Length ==>
              frame[i] == if at <= i < at + |bytes| then bytes[i - at] else old(frame[i])
  {
    forall k | 0 <= k < |bytes| {
      frame[at + k] := bytes[k];
    }
  }

  /** `memcpy` within the frame. */
  method Copy(frame: array<uint8>, to: nat, from: nat, n: nat)
    requires to + n <= frame.Length && from + n <= frame.Length
    modifies frame
    ensures forall i :: 0 <= i < frame.Length ==>
              frame[i] == if to <= i < to + n then old(frame[i - to + from]) else old(frame[i])
  {
    Put(frame, to, frame[from..from + n]);
  }

  /** Store a constant in network byte order. */
  method PutField(frame: array<uint8>, at: nat, v: uint16)
    requires at + 2 <= frame.Length
    modifies frame
    ensures forall i :: 0 <= i < frame.Length ==>
              frame[i] == if i == at then v / 0x100 else if i == at + 1 then v % 0x100 else old(frame[i])
  {
    StoreField(v);
    Put(frame, at, BytesOf(Hton16(v), 2));
  }

  /** `field == hton16(v)`: the comparison of what the CPU loads, and what it means on the wire. */
  method FieldIs(frame: array<uint8>, at: nat, v: uint16) returns (r: bool)
    requires at + 2 <= frame.Length
    ensures r <==> Field16(frame[..], at) == v
  {
    LoadField(frame[..], at, v);
    r := Load16(frame[..], at) == Hton16(v);
  }

  /** `ntoh16(field)`. */
  method GetField(frame: array<uint8>, at: nat) returns (v: uint16)
    requires at + 2 <= frame.Length
    ensures v == Field16(frame[..], at)
  {
    LoadField(frame[..], at, 0);
    v := Hton16(Load16(frame[..], at));
  }

  // ----- Filled data -----

  /** The data up to byte `end` comes from the generator, the rest is as it was. */
  ghost predicate Filled(before: Bytes, now: Bytes, payload: uint8, s: Streams, end: nat)
    requires FullSize(before) && FullSize(now) && Recognised(payload)
  {
    && UDP_DATA <= end <= UDP_END
    && forall i :: 0 <= i < ETHER_MAX_LEN ==>
         now[i] == if UDP_DATA <= i < end then StreamByte(payload, s, i - UDP_DATA) else before[i]
  }

  /** The same with the end given as a number of words, or of half words. */
  ghost predicate FilledWords(before: Bytes, now: Bytes, payload: uint8, s: Streams, n: nat)
    requires FullSize(before) && FullSize(now) && Recognised(payload)
  {
    Filled(before, now, payload, s, UDP_DATA + 4 * n)
  }

  ghost predicate FilledHalves(before: Bytes, now: Bytes, s: Streams, n: nat)
    requires FullSize(before) && FullSize(now)
  {
    Filled(before, now, PCG_HALVES, s, UDP_DATA + 2 * n)
  }

  /** `*dat = word` for the `n`-th word of the data. */
  method StoreWord(frame: array<uint8>, n: nat, word: uint32,
                   ghost before: Bytes, ghost payload: uint8, ghost s: Streams)
    requires frame.Length == ETHER_MAX_LEN && FullSize(before)
    requires n < FILL_WORDS && Recognised(payload) && payload != PCG_HALVES && word == StreamWord(payload, s, n)
    requires FilledWords(before, frame[..], payload, s, n)
    modifies frame
    ensures FilledWords(before, frame[..], payload, s, n + 1)
  {
    ghost var was := frame[..];
    var at := UDP_DATA + 4 * n;
    Put(frame, at, BytesOf(word, 4));
    forall i | 0 <= i < ETHER_MAX_LEN
      ensures frame[i] == if UDP_DATA <= i < at + 4 then StreamByte(payload, s, i - UDP_DATA) else before[i]
    {
      assert i < at || i >= at + 4 ==> frame[i] == was[i];
      if at <= i < at + 4 {
        WordPlace(n, i - at);
      }
    }
  }

  /** `*d16 = half` for the `n`-th half word. */
  method StoreHalf(frame: array<uint8>, n: nat, half: uint16, ghost before: Bytes, ghost s: Streams)
    requires frame.Length == ETHER_MAX_LEN && FullSize(before)
    requires n < FILL_HALVES && half == s.halves(n)
    requires FilledHalves(before, frame[..], s, n)
    modifies frame
    ensures FilledHalves(before, frame[..], s, n + 1)
  {
    ghost var was := frame[..];
    var at := UDP_DATA + 2 * n;
    Put(frame, at, BytesOf(half, 2));
    forall i | 0 <= i < ETHER_MAX_LEN
      ensures frame[i] == if UDP_DATA <= i < at + 2 then StreamByte(PCG_HALVES, s, i - UDP_DATA) else before[i]
    {
      assert i < at || i >= at + 2 ==> frame[i] == was[i];
      if at <= i < at + 2 {
        DivModUnique(2 * n + (i - at), 2, n, i - at);
      }
    }
  }

  class Responder {
    const own: Host
    const prng: Prng

    ghost predicate Valid() {
      own.Valid() && own.Address() == [192, 168, 141, 123] && prng.Valid()
    }

    constructor (mac: Bytes, prng: Prng)
      requires |mac| == ETHER_ADDR_LEN && prng.Valid()
      ensures Valid() && own.mac == mac && this.prng == prng
    {
      AddressInOrder(192, 168, 141, 123);
      own := Host(mac, IPV4_NET);
      this.prng := prng;
    }

    /** The values that the generators are about to deliver. */
    ghost function Ahead(random: seq<uint32>, clocks: seq<Reads>): (s: Streams)
      requires Valid()
      reads prng.key, prng.pcg
      ensures FromPcg(s, prng.pcg.state, prng.pcg.inc) && FromChaskey(s, prng.KeyBlock(), clocks)
      ensures FromTrng(s, random)
    {
      var state, inc, key := prng.pcg.state, prng.pcg.inc, prng.KeyBlock();
      Streams((k: nat) => if k < |random| then random[k] else 0,
              (k: nat) => Random32(StateAfter(k, state, inc)),
              (k: nat) => OutputXshRs(StateAfter(k, state, inc)),
              (k: nat) => if k < |clocks| then BlockAt(key, Cnt64(clocks[k])) else Block(0, 0, 0, 0))
    }

    /** `PacketRxInterrupt`. The frame has a full buffer; `len` is not looked at. The
        hardware generator delivers `random`, the successive clock reads are `clocks`. */
    method PacketRxInterrupt(frame: array<uint8>, len: int, random: seq<uint32>, clocks: seq<Reads>) returns (next: int)
      requires Valid() && frame.Length == ETHER_MAX_LEN && (frame as object) != prng.key
      requires |random| >= FILL_WORDS && |clocks| >= FILL_BLOCKS
      modifies frame, prng.pcg`state
      ensures (frame[..], next) == Answer(old(frame[..]), own, old(Ahead(random, clocks)))
      ensures prng.pcg.state == StateAfter(Draws(old(frame[..]), own), old(prng.pcg.state), prng.pcg.inc)
      ensures var f := old(frame[..]);
              var datagram := f[12..15] == [8, 0, 0x45] && f[30..34] == [192, 168, 141, 123];
              var echo := datagram && f[23] == 1 && f[34] == 8 && f[35] == 0;
              var chargen := datagram && f[23] == 17 && f[36..38] == [0, 19] && f[22] == 255
                             && 0x100 * f[38] as nat + f[39] as nat >= 9;
              var arp := f[12..22] == [8, 6, 0, 1, 8, 0, 6, 4, 0, 1] && f[38..42] == [192, 168, 141, 123];
              && (next >= 0 <==> echo || chargen || arp)
              && next == (if echo then 14 + 0x100 * f[16] as nat + f[17] as nat
                          else if chargen then 1514 else if arp then 42 else -1)
              && (next < 0 ==> frame[..] == f && prng.pcg.state == old(prng.pcg.state))
              && prng.pcg.state == StateAfter(if chargen && f[42] == 0x50 then 368
                                              else if chargen && f[42] == 0x70 then 736 else 0,
                                              old(prng.pcg.state), prng.pcg.inc)
    {
      ghost var f, s := frame[..], Ahead(random, clocks);
      next := PACKET_PROCESSED;
      var isIp := FieldIs(frame, ETYPE, ETHERTYPE_IP);
      var isArp := FieldIs(frame, ETYPE, ETHERTYPE_ARP);
      if isIp {
        Load32IsBytes(frame[..], IP_DST, own.ip);
        if frame[IP_VERSION] / 16 == 4 && frame[IP_VERSION] % 16 == 5 && Load32(frame[..], IP_DST) == own.ip {
          if frame[IP_PROTO] == IPPROTO_ICMP {
            if frame[ICMP_TYPE] == ICMP_ECHO && frame[ICMP_CODE] == 0 {
              next := AnswerEcho(frame);
            }
          } else if frame[IP_PROTO] == IPPROTO_UDP {
            var isChargen := FieldIs(frame, UDP_DPORT, SVC_CHARGEN);
            var length := GetField(frame, UDP_LEN);
            if isChargen && frame[IP_TTL] == MAXTTL && length >= 8 + 1 {
              next := AnswerChargen(frame, random, clocks);
            }
          }
        }
      } else if isArp {
        var isEthernet := FieldIs(frame, ARP_HRD, ARPHRD_ETHER);
        var isIPv4 := FieldIs(frame, ARP_PRO, ETHERTYPE_IP);
        if isEthernet && isIPv4 && frame[ARP_HLN] == ETHER_ADDR_LEN && frame[ARP_PLN] == 4 {
          var isRequest := FieldIs(frame, ARP_OP, ARPOP_REQUEST);
          if isRequest && frame[ARP_TPA..ARP_TPA + 4] == BytesOf(own.ip, 4) {
            next := AnswerArp(frame);
          }
        }
      }
      assert frame[..] == Answer(f, own, s).0;
      AnsweredIff(f, own, s);
    }

    method AnswerEcho(frame: array<uint8>) returns (next: int)
      requires Valid() && frame.Length == ETHER_MAX_LEN
      modifies frame
      ensures forall i :: 0 <= i < ETHER_MAX_LEN ==> frame[i] == EchoByte(old(frame[..]), own, i)
      ensures next == 14 + Field16(old(frame[..]), IP_LEN)
    {
      frame[ICMP_TYPE] := ICMP_ECHOREPLY;
      frame[IP_TTL] := IPDEFTTL;
      Copy(frame, IP_DST, IP_SRC, 4);
      Put(frame, IP_SRC, BytesOf(own.ip, 4));
      Copy(frame, DHOST, SHOST, ETHER_ADDR_LEN);
      Put(frame, SHOST, own.mac);
      var length := GetField(frame, IP_LEN);
      next := 14 + length as int;
    }

    method AnswerArp(frame: array<uint8>) returns (next: int)
      requires Valid() && frame.Length == ETHER_MAX_LEN
      modifies frame
      ensures forall i :: 0 <= i < ETHER_MAX_LEN ==> frame[i] == ArpByte(old(frame[..]), own, i)
      ensures next == 14 + 28
    {
      Copy(frame, DHOST, SHOST, ETHER_ADDR_LEN);
      Put(frame, SHOST, own.mac);
      PutField(frame, ARP_OP, ARPOP_REPLY);
      Copy(frame, ARP_THA, ARP_SHA, ETHER_ADDR_LEN + 4);
      Put(frame, ARP_SHA, own.mac);
      Put(frame, ARP_SPA, BytesOf(own.ip, 4));
      next := 14 + 28;
    }

    method AnswerChargen(frame: array<uint8>, random: seq<uint32>, clocks: seq<Reads>) returns (next: int)
      requires Valid() && frame.Length == ETHER_MAX_LEN && (frame as object) != prng.key
      requires |random| >= FILL_WORDS && |clocks| >= FILL_BLOCKS
      modifies frame, prng.pcg`state
      ensures var f, s := old(frame[..]), old(Ahead(random, clocks));
              forall i :: 0 <= i < ETHER_MAX_LEN ==> frame[i] == ChargenByte(f, own, s, i)
      ensures var f := old(frame[..]);
              prng.pcg.state == StateAfter(if f[UDP_DATA] == PCG_WORDS then FILL_WORDS
                                           else if f[UDP_DATA] == PCG_HALVES then FILL_HALVES else 0,
                                           old(prng.pcg.state), prng.pcg.inc)
      ensures next == 14 + ETHERMTU
    {
      var payload := frame[UDP_DATA];
      ghost var s := Ahead(random, clocks);
      RewriteHeaders(frame);
      if payload == TRNG {
        FillRandom(frame, random, s);
      } else if payload == PCG_WORDS {
        FillWords(frame, s);
      } else if payload == PCG_HALVES {
        FillHalves(frame, s);
      } else if payload == CSPRNG {
        FillBlocks(frame, clocks, s);
      }
      next := 14 + ETHERMTU;
    }

    method RewriteHeaders(frame: array<uint8>)
      requires Valid() && frame.Length == ETHER_MAX_LEN
      modifies frame
      ensures forall i :: 0 <= i < ETHER_MAX_LEN ==> frame[i] == ChargenHeaderByte(old(frame[..]), own, i)
    {
      Copy(frame, DHOST, SHOST, ETHER_ADDR_LEN);
      Put(frame, SHOST, own.mac);
      frame[IP_TTL] := 1;
      PutField(frame, IP_LEN, ETHERMTU);
      Copy(frame, IP_DST, IP_SRC, 4);
      Put(frame, IP_SRC, BytesOf(own.ip, 4));
      Copy(frame, UDP_DPORT, UDP_SPORT, 2);
      PutField(frame, UDP_SPORT, SVC_CHARGEN);
      PutField(frame, UDP_LEN, ETHERMTU - 20);
    }

    // The fill loops.

    method FillRandom(frame: array<uint8>, random: seq<uint32>, ghost s: Streams)
      requires Valid() && frame.Length == ETHER_MAX_LEN
      requires |random| >= FILL_WORDS && FromTrng(s, random)
      modifies frame
      ensures Filled(old(frame[..]), frame[..], TRNG, s, UDP_END)
    {
      ghost var f := frame[..];
      var dat := 0;
      while dat != FILL_WORDS
        invariant dat <= FILL_WORDS && FilledWords(f, frame[..], TRNG, s, dat)
      {
        assert DrawnFromTrng(s, dat, random);
        StoreWord(frame, dat, random[dat], f, TRNG, s);
        dat := dat + 1;
      }
    }

    method FillWords(frame: array<uint8>, ghost s: Streams)
      requires Valid() && frame.Length == ETHER_MAX_LEN && FromPcg(s, prng.pcg.state, prng.pcg.inc)
      modifies frame, prng.pcg`state
      ensures Filled(old(frame[..]), frame[..], PCG_WORDS, s, UDP_END)
      ensures prng.pcg.state == StateAfter(FILL_WORDS, old(prng.pcg.state), prng.pcg.inc)
    {
      ghost var f := frame[..];
      var dat := 0;
      while dat != FILL_WORDS
        invariant dat <= FILL_WORDS && FilledWords(f, frame[..], PCG_WORDS, s, dat)
        invariant prng.pcg.state == StateAfter(dat, old(prng.pcg.state), prng.pcg.inc)
      {
        var word := NextWord(dat, old(prng.pcg.state), s);
        StoreWord(frame, dat, word, f, PCG_WORDS, s);
        dat := dat + 1;
      }
    }

    method FillHalves(frame: array<uint8>, ghost s: Streams)
      requires Valid() && frame.Length == ETHER_MAX_LEN && FromPcg(s, prng.pcg.state, prng.pcg.inc)
      modifies frame, prng.pcg`state
      ensures Filled(old(frame[..]), frame[..], PCG_HALVES, s, UDP_END)
      ensures prng.pcg.state == StateAfter(FILL_HALVES, old(prng.pcg.state), prng.pcg.inc)
    {
      ghost var f := frame[..];
      var d16 := 0;
      while d16 != FILL_HALVES
        invariant d16 <= FILL_HALVES && FilledHalves(f, frame[..], s, d16)
        invariant prng.pcg.state == StateAfter(d16, old(prng.pcg.state), prng.pcg.inc)
      {
        var half := NextHalf(d16, old(prng.pcg.state), s);
        StoreHalf(frame, d16, half, f, s);
        d16 := d16 + 1;
      }
    }

    /** The next draw is the next member of the stream. */
    method NextWord(ghost n: nat, ghost start: uint32, ghost s: Streams) returns (word: uint32)
      requires FromPcg(s, start, prng.pcg.inc) && prng.pcg.state == StateAfter(n, start, prng.pcg.inc)
      modifies prng.pcg`state
      ensures word == s.words(n) && prng.pcg.state == StateAfter(n + 1, start, prng.pcg.inc)
    {
      assert DrawnFromPcg(s, n, start, prng.pcg.inc);
      StateAfterAdd(n, 1, start, prng.pcg.inc);
      word := prng.PcgUInt32();
    }

    method NextHalf(ghost n: nat, ghost start: uint32, ghost s: Streams) returns (half: uint16)
      requires FromPcg(s, start, prng.pcg.inc) && prng.pcg.state == StateAfter(n, start, prng.pcg.inc)
      modifies prng.pcg`state
      ensures half == s.halves(n) && prng.pcg.state == StateAfter(n + 1, start, prng.pcg.inc)
    {
      assert DrawnFromPcg(s, n, start, prng.pcg.inc);
      StateAfterAdd(n, 1, start, prng.pcg.inc);
      half := prng.PcgUInt16();
    }

    method FillBlocks(frame: array<uint8>, clocks: seq<Reads>, ghost s: Streams)
      requires Valid() && frame.Length == ETHER_MAX_LEN && (frame as object) != prng.key
      requires |clocks| >= FILL_BLOCKS && FromChaskey(s, prng.KeyBlock(), clocks)
      modifies frame
      ensures Filled(old(frame[..]), frame[..], CSPRNG, s, UDP_END)
    {
      ghost var f := frame[..];
      var k := 0;
      while k != FILL_BLOCKS
        invariant k <= FILL_BLOCKS && FilledWords(f, frame[..], CSPRNG, s, 4 * k)
      {
        FillBlock(frame, k, clocks, f, s);
        k := k + 1;
      }
    }

    /** One round of the 'C' loop: the generator stores two words of its block, the caller
        the other two, low half first. */
    method FillBlock(frame: array<uint8>, k: nat, clocks: seq<Reads>, ghost f: Bytes, ghost s: Streams)
      requires Valid() && frame.Length == ETHER_MAX_LEN && (frame as object) != prng.key
      requires k < FILL_BLOCKS <= |clocks| && FromChaskey(s, prng.KeyBlock(), clocks)
      requires FullSize(f) && FilledWords(f, frame[..], CSPRNG, s, 4 * k)
      modifies frame
      ensures FilledWords(f, frame[..], CSPRNG, s, 4 * (k + 1))
    {
      var dst, r := DrawBlock(k, clocks, s);
      BlockWords(s, k);
      var dat := 4 * k;
      StoreWord(frame, dat, dst.0, f, CSPRNG, s);
      StoreWord(frame, dat + 1, dst.1, f, CSPRNG, s);
      StoreWord(frame, dat + 2, LowWord(r), f, CSPRNG, s);
      StoreWord(frame, dat + 3, HighWord(r), f, CSPRNG, s);
    }

    lemma BlockWords(s: Streams, k: nat)
      ensures StreamWord(CSPRNG, s, 4 * k) == s.blocks(k).v2 && StreamWord(CSPRNG, s, 4 * k + 1) == s.blocks(k).v3
      ensures StreamWord(CSPRNG, s, 4 * k + 2) == s.blocks(k).v1 && StreamWord(CSPRNG, s, 4 * k + 3) == s.blocks(k).v0
    {
      WordPlace(k, 0);
      WordPlace(k, 1);
      WordPlace(k, 2);
      WordPlace(k, 3);
    }

    method DrawBlock(k: nat, clocks: seq<Reads>, ghost s: Streams) returns (dst: (uint32, uint32), r: uint64)
      requires Valid() && k < |clocks| && FromChaskey(s, prng.KeyBlock(), clocks)
      ensures dst.0 == s.blocks(k).v2 && dst.1 == s.blocks(k).v3
      ensures LowWord(r) == s.blocks(k).v1 && HighWord(r) == s.blocks(k).v0
    {
      assert DrawnFromChaskey(s, k, prng.KeyBlock(), clocks);
      var pair := new uint32[2];
      r := prng.UInt64x2(pair, clocks[k]);
      dst := (pair[0], pair[1]);
    }
  }
}
