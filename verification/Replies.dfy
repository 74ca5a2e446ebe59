/** Which frames the responder answers and what the answer is, byte by byte, with the
    properties the protocols ask for.

    The bytes of an answer are given as a function of the request alone, so nothing here
    depends on the order in which the interrupt code rewrites the buffer. */
module Replies {
  import opened Words
  import opened Frames
  import opened Pcg
  import opened PcgOutput
  import opened Chaskey
  import opened SysTick
  import opened Sources = Prng

  const PACKET_PROCESSED := -1

  const ETHERTYPE_IP := 0x0800
  const ETHERTYPE_ARP := 0x0806
  const IPPROTO_ICMP := 1
  const IPPROTO_UDP := 17
  const ICMP_ECHO := 8
  const ICMP_ECHOREPLY := 0
  const IPDEFTTL := 64
  const MAXTTL := 255
  const SVC_CHARGEN := 19
  const ARPHRD_ETHER := 1
  const ARPOP_REQUEST := 1
  const ARPOP_REPLY := 2

  /** The payload bytes that select a generator: the characters T, P, p and C. */
  const TRNG: uint8 := 0x54
  const PCG_WORDS: uint8 := 0x50
  const PCG_HALVES: uint8 := 0x70
  const CSPRNG: uint8 := 0x43

  const FILL := UDP_END - UDP_DATA
  const FILL_HALVES := 736
  const FILL_WORDS := 368
  const FILL_BLOCKS := 92

  /** The responder's addresses. */
  datatype Host = Host(mac: Bytes, ip: uint32) {
    predicate Valid() {
      |mac| == ETHER_ADDR_LEN
    }

    function Address(): (b: Bytes)
      ensures |b| == 4
    {
      BytesOf(ip, 4)
    }
  }

  // ----- Requests -----

  datatype Kind = EchoRequest | ChargenRequest | ArpRequest | Other

  /** An IPv4 datagram without options for the host. */
  predicate Datagram(f: Bytes, own: Host)
    requires FullSize(f)
  {
    && Field16(f, ETYPE) == ETHERTYPE_IP && f[IP_VERSION] / 16 == 4 && f[IP_VERSION] % 16 == 5
    && f[IP_DST..IP_DST + 4] == own.Address()
  }

  predicate Echo(f: Bytes)
    requires FullSize(f)
  {
    f[IP_PROTO] == IPPROTO_ICMP && f[ICMP_TYPE] == ICMP_ECHO && f[ICMP_CODE] == 0
  }

  /** A character generator request; only one that has crossed no router is answered. */
  predicate Chargen(f: Bytes)
    requires FullSize(f)
  {
    && f[IP_PROTO] == IPPROTO_UDP && Field16(f, UDP_DPORT) == SVC_CHARGEN
    && f[IP_TTL] == MAXTTL && Field16(f, UDP_LEN) >= 9
  }

  /** An Ethernet/IPv4 ARP packet. */
  predicate Arp(f: Bytes)
    requires FullSize(f)
  {
    && Field16(f, ETYPE) == ETHERTYPE_ARP && Field16(f, ARP_HRD) == ARPHRD_ETHER && Field16(f, ARP_PRO) == ETHERTYPE_IP
    && f[ARP_HLN] == ETHER_ADDR_LEN && f[ARP_PLN] == 4
  }

  function KindOf(f: Bytes, own: Host): Kind
    requires FullSize(f)
  {
    if Datagram(f, own) && Echo(f) then EchoRequest
    else if Datagram(f, own) && Chargen(f) then ChargenRequest
    else if Arp(f) && Field16(f, ARP_OP) == ARPOP_REQUEST && f[ARP_TPA..ARP_TPA + 4] == own.Address() then ArpRequest
    else Other
  }

  // ----- Generated payloads -----

  /** What the generators deliver, from the `k`-th draw on: hardware words, the two output
      widths of the PCG, and the blocks of the Chaskey generator. */
  datatype Streams = Streams(random: nat -> uint32, words: nat -> uint32, halves: nat -> uint16, blocks: nat -> Block)

  predicate Recognised(payload: uint8) {
    payload == TRNG || payload == PCG_WORDS || payload == PCG_HALVES || payload == CSPRNG
  }

  /** The words of a block in the order in which they are stored. */
  function Stored(b: Block, i: nat): uint32 {
    match i
    case 0 => b.v2
    case 1 => b.v3
    case 2 => b.v1
    case _ => b.v0
  }

  function BlockWord(s: Streams, k: nat): uint32 {
    Stored(s.blocks(k / 4), k % 4)
  }

  /** Draw `n` of a generator that fills word by word. */
  function StreamWord(payload: uint8, s: Streams, n: nat): uint32 {
    if payload == TRNG then s.random(n) else if payload == PCG_WORDS then s.words(n) else BlockWord(s, n)
  }

  /** Byte `k` of the payload. */
  function StreamByte(payload: uint8, s: Streams, k: nat): uint8
    requires Recognised(payload)
  {
    if payload == PCG_HALVES then BytesOf(s.halves(k / 2), 2)[k % 2]
    else BytesOf(StreamWord(payload, s, k / 4), 4)[k % 4]
  }

  // ----- Answers, byte by byte -----

  function EchoByte(f: Bytes, own: Host, i: nat): uint8
    requires FullSize(f) && own.Valid() && i < ETHER_MAX_LEN
  {
    if i < SHOST then f[i + 6]
    else if i < ETYPE then own.mac[i - SHOST]
    else if i == IP_TTL then IPDEFTTL
    else if IP_SRC <= i < IP_DST then own.Address()[i - IP_SRC]
    else if IP_DST <= i < ICMP_TYPE then f[i - 4]
    else if i == ICMP_TYPE then ICMP_ECHOREPLY
    else f[i]
  }

  function ChargenHeaderByte(f: Bytes, own: Host, i: nat): uint8
    requires FullSize(f) && own.Valid() && i < ETHER_MAX_LEN
  {
    if i < SHOST then f[i + 6]
    else if i < ETYPE then own.mac[i - SHOST]
    else if IP_LEN <= i < IP_LEN + 2 then [0x05, 0xdc][i - IP_LEN]
    else if i == IP_TTL then 1
    else if IP_SRC <= i < IP_DST then own.Address()[i - IP_SRC]
    else if IP_DST <= i < UDP_SPORT then f[i - 4]
    else if UDP_SPORT <= i < UDP_DPORT then [0, SVC_CHARGEN][i - UDP_SPORT]
    else if UDP_DPORT <= i < UDP_LEN then f[i - 2]
    else if UDP_LEN <= i < UDP_LEN + 2 then [0x05, 0xc8][i - UDP_LEN]
    else f[i]
  }

  function ChargenByte(f: Bytes, own: Host, s: Streams, i: nat): uint8
    requires FullSize(f) && own.Valid() && i < ETHER_MAX_LEN
  {
    if UDP_DATA <= i < UDP_END && Recognised(f[UDP_DATA]) then StreamByte(f[UDP_DATA], s, i - UDP_DATA)
    else ChargenHeaderByte(f, own, i)
  }

  function ArpByte(f: Bytes, own: Host, i: nat): uint8
    requires FullSize(f) && own.Valid() && i < ETHER_MAX_LEN
  {
    if i < SHOST then f[i + 6]
    else if i < ETYPE then own.mac[i - SHOST]
    else if ARP_OP <= i < ARP_SHA then [0, ARPOP_REPLY][i - ARP_OP]
    else if ARP_SHA <= i < ARP_SPA then own.mac[i - ARP_SHA]
    else if ARP_SPA <= i < ARP_THA then own.Address()[i - ARP_SPA]
    else if ARP_THA <= i < ARP_TPA + 4 then f[i - 10]
    else f[i]
  }

  /** The frame left in the buffer, and the result of the call. */
  function Answer(f: Bytes, own: Host, s: Streams): (r: (Bytes, int))
    requires FullSize(f) && own.Valid()
    ensures FullSize(r.0) && r.1 >= PACKET_PROCESSED
  {
    match KindOf(f, own)
    case EchoRequest =>
      (seq(ETHER_MAX_LEN, i requires 0 <= i < ETHER_MAX_LEN => EchoByte(f, own, i)), 14 + Field16(f, IP_LEN))
    case ChargenRequest =>
      (seq(ETHER_MAX_LEN, i requires 0 <= i < ETHER_MAX_LEN => ChargenByte(f, own, s, i)), 14 + ETHERMTU)
    case ArpRequest =>
      (seq(ETHER_MAX_LEN, i requires 0 <= i < ETHER_MAX_LEN => ArpByte(f, own, i)), 14 + 28)
    case Other => (f, PACKET_PROCESSED)
  }

  /** The draws that an answer makes from the PCG. */
  function Draws(f: Bytes, own: Host): nat
    requires FullSize(f)
  {
    if KindOf(f, own) != ChargenRequest then 0
    else if f[UDP_DATA] == PCG_WORDS then FILL_WORDS
    else if f[UDP_DATA] == PCG_HALVES then FILL_HALVES
    else 0
  }

  // ----- Which frames are answered -----

  lemma SliceIs(f: Bytes, at: nat, b: Bytes)
    requires at + |b| <= |f|
    ensures f[at..at + |b|] == b <==> forall i :: 0 <= i < |b| ==> f[at + i] == b[i]
  {
    if forall i :: 0 <= i < |b| ==> f[at + i] == b[i] {
      assert f[at..at + |b|] == b;
    } else {
      var i :| 0 <= i < |b| && f[at + i] != b[i];
      assert f[at..at + |b|][i] != b[i];
    }
  }

  lemma DatagramIff(f: Bytes, own: Host)
    requires FullSize(f)
    ensures Datagram(f, own) <==> f[12..15] == [8, 0, 0x45] && f[30..34] == own.Address()
  {
    SliceIs(f, 12, [8, 0, 0x45]);
    DivModUnique(f[14], 16, f[14] / 16, f[14] % 16);
  }

  lemma ChargenIff(f: Bytes)
    requires FullSize(f)
    ensures Chargen(f) <==> f[23] == 17 && f[36..38] == [0, 19] && f[22] == 255 && 0x100 * f[38] as nat + f[39] as nat >= 9
  {
    SliceIs(f, 36, [0, 19]);
  }

  lemma ArpIff(f: Bytes)
    requires FullSize(f)
    ensures Arp(f) && Field16(f, ARP_OP) == ARPOP_REQUEST <==> f[12..22] == [8, 6, 0, 1, 8, 0, 6, 4, 0, 1]
  {
    SliceIs(f, 12, [8, 6, 0, 1, 8, 0, 6, 4, 0, 1]);
  }

  /** The kinds of requests by their bytes: an echo request to the host, a character generator
      request to it that has crossed no router and has at least one byte of data, and an ARP
      request for its address. */
  lemma KindIff(f: Bytes, own: Host)
    requires FullSize(f)
    ensures KindOf(f, own).EchoRequest? <==>
              f[12..15] == [8, 0, 0x45] && f[30..34] == own.Address() && f[23] == 1 && f[34] == 8 && f[35] == 0
    ensures KindOf(f, own).ChargenRequest? <==>
              && f[12..15] == [8, 0, 0x45] && f[30..34] == own.Address() && f[23] == 17
              && f[36..38] == [0, 19] && f[22] == 255 && 0x100 * f[38] as nat + f[39] as nat >= 9
    ensures KindOf(f, own).ArpRequest? <==>
              f[12..22] == [8, 6, 0, 1, 8, 0, 6, 4, 0, 1] && f[38..42] == own.Address()
  {
    DatagramIff(f, own);
    ChargenIff(f);
    ArpIff(f);
    if f[12..15] == [8, 0, 0x45] {
      assert f[13] == f[12..15][1];
    }
  }

  /** The result of the call, by the bytes of the frame: the length of the answer for the three
      kinds of requests; every other frame is left as it is and draws nothing. */
  lemma AnsweredIff(f: Bytes, own: Host, s: Streams)
    requires FullSize(f) && own.Valid()
    ensures var (g, n) := Answer(f, own, s);
            var datagram := f[12..15] == [8, 0, 0x45] && f[30..34] == own.Address();
            var echo := datagram && f[23] == 1 && f[34] == 8 && f[35] == 0;
            var chargen := datagram && f[23] == 17 && f[36..38] == [0, 19] && f[22] == 255
                           && 0x100 * f[38] as nat + f[39] as nat >= 9;
            var arp := f[12..22] == [8, 6, 0, 1, 8, 0, 6, 4, 0, 1] && f[38..42] == own.Address();
            && (n >= 0 <==> echo || chargen || arp)
            && n == (if echo then 14 + 0x100 * f[16] as nat + f[17] as nat
                     else if chargen then 1514 else if arp then 42 else -1)
            && (n < 0 ==> g == f)
            && Draws(f, own) == (if chargen && f[42] == 0x50 then 368 else if chargen && f[42] == 0x70 then 736 else 0)
  {
    KindIff(f, own);
  }

  // ----- Reply loops -----

  /** The buffer `g` has received the first `k` bytes of the frame `r`; what it holds after them
      is left over from earlier frames. */
  ghost predicate Carries(g: Bytes, r: Bytes, k: nat)
    requires FullSize(r)
  {
    FullSize(g) && forall i :: 0 <= i < k && i < ETHER_MAX_LEN ==> g[i] == r[i]
  }

  /** A MAC that pads short frames with zeros to the Ethernet minimum. This is an assumption on
      the hardware of the sender; the code does not pad. */
  ghost predicate Padded(g: Bytes, k: nat)
    requires FullSize(g)
  {
    forall i :: k <= i < 60 ==> g[i] == 0
  }

  /** An answer of which at least 35 bytes are sent, or whose rest is padded with zeros, is not
      answered by any host that runs this code, whatever its addresses are. */
  lemma NoReplyToReply(f: Bytes, own: Host, s: Streams, g: Bytes, k: nat, other: Host, s': Streams)
    requires FullSize(f) && own.Valid() && other.Valid() && Answer(f, own, s).1 >= 0
    requires Carries(g, Answer(f, own, s).0, k) && (k >= 35 || Padded(g, k))
    ensures KindOf(g, other).Other? && Answer(g, other, s') == (g, PACKET_PROCESSED)
  {
    var r := Answer(f, own, s).0;
    assert forall i :: 0 <= i < 35 ==> g[i] == r[i] || (k <= i && g[i] == 0);
    match KindOf(f, own)
    case EchoRequest => assert Field16(r, ETYPE) == ETHERTYPE_IP && r[IP_PROTO] == IPPROTO_ICMP && r[ICMP_TYPE] == 0;
    case ChargenRequest => assert Field16(r, ETYPE) == ETHERTYPE_IP && r[IP_PROTO] == IPPROTO_UDP && r[IP_TTL] == 1;
    case ArpRequest => assert Field16(r, ETYPE) == ETHERTYPE_ARP && Field16(r, ARP_OP) == ARPOP_REPLY;
  }

  /** A shorter answer is an echo reply that ends before its type byte: a receiver whose buffer
      still holds an echo request there takes it for a request, and answers. */
  lemma ShortReplyAnswered(f: Bytes, own: Host, s: Streams) returns (g: Bytes, other: Host)
    requires FullSize(f) && own.Valid() && 0 <= Answer(f, own, s).1 < 35
    ensures other.Valid() && Carries(g, Answer(f, own, s).0, Answer(f, own, s).1)
    ensures KindOf(g, other).EchoRequest?
  {
    var r := Answer(f, own, s).0;
    g := r[ICMP_TYPE := ICMP_ECHO][ICMP_CODE := 0];
    other := Host(own.mac, Load32(g, IP_DST));
    Load32IsBytes(g, IP_DST, other.ip);
    assert g[IP_VERSION] == f[IP_VERSION] && g[IP_PROTO] == IPPROTO_ICMP;
  }

  /** No receiver of what is sent answers it, if and only if at least 35 bytes are sent: that
      is, unless it answers an echo request whose IP length is at most 20. */
  lemma UnansweredIff(f: Bytes, own: Host, s: Streams)
    requires FullSize(f) && own.Valid() && Answer(f, own, s).1 >= 0
    ensures var (r, n) := Answer(f, own, s);
            (forall g, other: Host :: other.Valid() && Carries(g, r, n) ==> KindOf(g, other).Other?) <==> n >= 35
    ensures Answer(f, own, s).1 >= 35 <==> !(KindOf(f, own).EchoRequest? && Field16(f, IP_LEN) <= 20)
  {
    var (r, n) := Answer(f, own, s);
    if n >= 35 {
      forall g, other: Host | other.Valid() && Carries(g, r, n) ensures KindOf(g, other).Other? {
        NoReplyToReply(f, own, s, g, n, other, s);
      }
    } else {
      var g, other := ShortReplyAnswered(f, own, s);
    }
  }

  /** Such a request: a bare IP header, with the echo type and code in the bytes behind it. */
  lemma ShortEcho(own: Host, s: Streams) returns (f: Bytes, g: Bytes, other: Host)
    requires own.Valid()
    ensures FullSize(f) && KindOf(f, own).EchoRequest? && Field16(f, IP_LEN) == 20 && Answer(f, own, s).1 == 34
    ensures other.Valid() && Carries(g, Answer(f, own, s).0, 34) && KindOf(g, other).EchoRequest?
  {
    var a := own.Address();
    f := BLANK[ETYPE := 0x08][IP_VERSION := 0x45][IP_LEN + 1 := 20][IP_PROTO := IPPROTO_ICMP][ICMP_TYPE := ICMP_ECHO];
    f := f[IP_DST := a[0]][IP_DST + 1 := a[1]][IP_DST + 2 := a[2]][IP_DST + 3 := a[3]];
    assert f[IP_DST..IP_DST + 4] == a;
    g, other := ShortReplyAnswered(f, own, s);
  }

  /** A result stays inside the buffer unless it answers an echo request with a longer IP length. */
  lemma LengthFitsIff(f: Bytes, own: Host, s: Streams)
    requires FullSize(f) && own.Valid()
    ensures Answer(f, own, s).1 <= ETHER_MAX_LEN <==>
              !(KindOf(f, own).EchoRequest? && Field16(f, IP_LEN) > ETHER_MAX_LEN - 14)
  {
  }

  // ----- Address swaps -----

  /** The source and destination of the link layer are exchanged, the new source being the
      host's own address even if the request was broadcast. */
  lemma AnswersGoBack(f: Bytes, own: Host, s: Streams)
    requires FullSize(f) && own.Valid()
    requires Answer(f, own, s).1 >= 0
    ensures var g := Answer(f, own, s).0;
            g[DHOST..DHOST + 6] == f[SHOST..SHOST + 6] && g[SHOST..SHOST + 6] == own.mac
  {
  }

  /** RFC 792, "Echo or Echo Reply Message": source and destination addresses reversed, the
      type code changed to 0, the identifier, sequence number and data returned. The time to live
      starts again at 64, and nothing else changes. */
  lemma EchoReplyForm(f: Bytes, own: Host, s: Streams)
    requires FullSize(f) && own.Valid() && KindOf(f, own).EchoRequest?
    ensures var (g, n) := Answer(f, own, s);
            && g[IP_SRC..IP_SRC + 4] == f[IP_DST..IP_DST + 4] && g[IP_DST..IP_DST + 4] == f[IP_SRC..IP_SRC + 4]
            && n == 14 + Field16(g, IP_LEN)
            && g[..6] == f[6..12] && g[6..12] == own.mac && g[12..22] == f[12..22] && g[22] == 64 && g[23..26] == f[23..26]
            && g[26..30] == own.Address() && g[30..34] == f[26..30] && g[34] == 0 && g[35..] == f[35..]
  {
  }

  /** RFC 826, "Packet Reception": the hardware and protocol fields are swapped, with the local
      hardware address in the sender field, and the opcode becomes a reply. */
  lemma ArpReplyForm(f: Bytes, own: Host, s: Streams)
    requires FullSize(f) && own.Valid() && KindOf(f, own).ArpRequest?
    ensures var (g, n) := Answer(f, own, s);
            && g[ARP_THA..ARP_TPA] == f[ARP_SHA..ARP_SPA] && g[ARP_TPA..ARP_TPA + 4] == f[ARP_SPA..ARP_THA]
            && g[ARP_SPA..ARP_THA] == f[ARP_TPA..ARP_TPA + 4] && Arp(g) && n == ARP_TPA + 4
            && g[..6] == f[6..12] && g[6..12] == own.mac && g[12..20] == f[12..20] && g[20..22] == [0, 2]
            && g[22..28] == own.mac && g[28..32] == own.Address() && g[32..42] == f[22..32] && g[42..] == f[42..]
  {
  }

  // ----- Generated datagrams -----

  /** The lengths agree: the IP length, the UDP length and the result all put the end of the
      datagram at byte 1514, and the fill covers exactly the data up to there. With an
      unrecognised payload byte the data stays as it is. */
  lemma ChargenReplyForm(f: Bytes, own: Host, s: Streams)
    requires FullSize(f) && own.Valid() && KindOf(f, own).ChargenRequest?
    ensures var (g, n) := Answer(f, own, s);
            && n == IP_VERSION + Field16(g, IP_LEN) == UDP_SPORT + Field16(g, UDP_LEN) == UDP_END
            && g[IP_SRC..IP_SRC + 4] == f[IP_DST..IP_DST + 4]
            && Field16(g, UDP_SPORT) == Field16(f, UDP_DPORT) && Field16(g, UDP_DPORT) == Field16(f, UDP_SPORT)
            && (forall k :: 0 <= k < FILL ==>
                  g[UDP_DATA + k] == if Recognised(f[UDP_DATA]) then StreamByte(f[UDP_DATA], s, k) else f[UDP_DATA + k])
            && (f[42] !in {0x54, 0x50, 0x70, 0x43} ==> g[42..1514] == f[42..1514])
  {
  }

  /** The headers of the datagram: it comes from port 19 with a time to live of 1, and goes to the
      port that asked. */
  lemma ChargenHeaders(f: Bytes, own: Host, s: Streams)
    requires FullSize(f) && own.Valid() && KindOf(f, own).ChargenRequest?
    ensures var g := Answer(f, own, s).0;
            && g[..6] == f[6..12] && g[6..12] == own.mac && g[12..16] == f[12..16] && g[16..18] == [0x05, 0xdc]
            && g[18..22] == f[18..22] && g[22] == 1 && g[23..26] == f[23..26] && g[26..30] == own.Address()
            && g[30..34] == f[26..30] && g[34..36] == [0, 19] && g[36..38] == f[34..36]
            && g[38..40] == [0x05, 0xc8] && g[40..42] == f[40..42] && g[1514..] == f[1514..]
  {
  }

  /** The `k`-th 32-bit word of the data. */
  function DataWord(g: Bytes, k: nat): uint32
    requires FullSize(g) && k < FILL_WORDS
  {
    Load32(g, UDP_DATA + 4 * k)
  }

  lemma WordPlace(k: nat, j: nat)
    requires j < 4
    ensures (4 * k + j) / 4 == k && (4 * k + j) % 4 == j
  {
    DivModUnique(4 * k + j, 4, k, j);
  }

  lemma WordFromBytes(g: Bytes, k: nat, w: uint32)
    requires FullSize(g) && k < FILL_WORDS
    requires forall j :: 0 <= j < 4 ==> g[UDP_DATA + 4 * k + j] == BytesOf(w, 4)[j]
    ensures DataWord(g, k) == w
  {
    var at := UDP_DATA + 4 * k;
    assert g[at..at + 4] == BytesOf(w, 4);
    Load32IsBytes(g, at, w);
  }

  /** The word generators fill the data word by word, in the order of their draws. */
  lemma WordsDrawn(f: Bytes, own: Host, s: Streams, k: nat)
    requires FullSize(f) && own.Valid() && KindOf(f, own).ChargenRequest? && k < FILL_WORDS
    requires f[UDP_DATA] in {TRNG, PCG_WORDS, CSPRNG}
    ensures DataWord(Answer(f, own, s).0, k) == StreamWord(f[UDP_DATA], s, k)
  {
    var g, w := Answer(f, own, s).0, StreamWord(f[UDP_DATA], s, k);
    forall j | 0 <= j < 4 ensures g[UDP_DATA + 4 * k + j] == BytesOf(w, 4)[j] {
      WordPlace(k, j);
      assert g[UDP_DATA + 4 * k + j] == StreamByte(f[UDP_DATA], s, 4 * k + j);
    }
    WordFromBytes(g, k, w);
  }

  /** After a 'T' the data is hardware words, after a 'P' the wide draws of the PCG, after a 'C'
      the four words of each block of the Chaskey generator, each at its place. */
  lemma DataWords(f: Bytes, own: Host, s: Streams, k: nat)
    requires FullSize(f) && own.Valid() && KindOf(f, own).ChargenRequest? && k < 368
    ensures var w := Load32(Answer(f, own, s).0, 42 + 4 * k);
            var b := s.blocks(k / 4);
            && (f[42] == 0x54 ==> w == s.random(k))
            && (f[42] == 0x50 ==> w == s.words(k))
            && (f[42] == 0x43 ==> w == [b.v2, b.v3, b.v1, b.v0][k % 4])
  {
    if f[42] == 0x54 || f[42] == 0x50 || f[42] == 0x43 {
      WordsDrawn(f, own, s, k);
    }
  }

  lemma HalfFromBytes(g: Bytes, at: nat, h: uint16)
    requires at + 2 <= |g| && g[at] == BytesOf(h, 2)[0] && g[at + 1] == BytesOf(h, 2)[1]
    ensures g[at] as nat + 0x100 * g[at + 1] as nat == h
  {
    assert g[at..at + 2] == BytesOf(h, 2);
    Pow2Widths();
    LoadStored(h, 2);
    Load16IsPair(g, at);
  }

  lemma HalfPlace(payload: uint8, s: Streams, k: nat)
    requires payload == PCG_HALVES
    ensures StreamByte(payload, s, 2 * k) == BytesOf(s.halves(k), 2)[0]
    ensures StreamByte(payload, s, 2 * k + 1) == BytesOf(s.halves(k), 2)[1]
  {
    DivModUnique(2 * k, 2, k, 0);
    DivModUnique(2 * k + 1, 2, k, 1);
  }

  /** After a 'p' it is the narrow draws of the PCG, low byte first. */
  lemma DataHalves(f: Bytes, own: Host, s: Streams, k: nat)
    requires FullSize(f) && own.Valid() && KindOf(f, own).ChargenRequest? && f[42] == 0x70 && k < 736
    ensures var g := Answer(f, own, s).0; g[42 + 2 * k] as nat + 0x100 * g[43 + 2 * k] as nat == s.halves(k)
  {
    var g := Answer(f, own, s).0;
    HalfPlace(f[42], s, k);
    HalfFromBytes(g, 42 + 2 * k, s.halves(k));
  }

  /** The `k`-th 128-bit block of the data, its words in the order of the cipher's. */
  function DataBlock(g: Bytes, k: nat): Block
    requires FullSize(g) && k < FILL_BLOCKS
  {
    Block(DataWord(g, 4 * k + 3), DataWord(g, 4 * k + 2), DataWord(g, 4 * k), DataWord(g, 4 * k + 1))
  }

  lemma DataBlocks(f: Bytes, own: Host, s: Streams, k: nat)
    requires FullSize(f) && own.Valid() && KindOf(f, own).ChargenRequest?
    requires f[UDP_DATA] == CSPRNG && k < FILL_BLOCKS
    ensures DataBlock(Answer(f, own, s).0, k) == s.blocks(k)
  {
    DataBlockWord(f, own, s, k, 0);
    DataBlockWord(f, own, s, k, 1);
    DataBlockWord(f, own, s, k, 2);
    DataBlockWord(f, own, s, k, 3);
    BlockFromWords(Answer(f, own, s).0, k, s.blocks(k));
  }

  lemma BlockFromWords(g: Bytes, k: nat, b: Block)
    requires FullSize(g) && k < FILL_BLOCKS
    requires DataWord(g, 4 * k) == b.v2 && DataWord(g, 4 * k + 1) == b.v3
    requires DataWord(g, 4 * k + 2) == b.v1 && DataWord(g, 4 * k + 3) == b.v0
    ensures DataBlock(g, k) == b
  {
  }

  lemma DataBlockWord(f: Bytes, own: Host, s: Streams, k: nat, i: nat)
    requires FullSize(f) && own.Valid() && KindOf(f, own).ChargenRequest?
    requires f[UDP_DATA] == CSPRNG && k < FILL_BLOCKS && i < 4
    ensures DataWord(Answer(f, own, s).0, 4 * k + i) == Stored(s.blocks(k), i)
  {
    WordsDrawn(f, own, s, 4 * k + i);
    WordPlace(k, i);
  }

  // ----- The payloads have no repetitions -----

  /** The `k`-th draws, if the PCG is at a state of a stream. */
  ghost predicate DrawnFromPcg(s: Streams, k: nat, state: uint32, inc: uint32) {
    && s.words(k) == Random32(StateAfter(k, state, inc))
    && s.halves(k) == OutputXshRs(StateAfter(k, state, inc))
  }

  ghost predicate FromPcg(s: Streams, state: uint32, inc: uint32) {
    forall k: nat :: DrawnFromPcg(s, k, state, inc)
  }

  /** The words of a 'P' reply are pairwise different. */
  lemma PcgWordsDiffer(f: Bytes, own: Host, s: Streams, state: uint32, inc: uint32, j: nat, k: nat)
    requires FullSize(f) && own.Valid() && KindOf(f, own).ChargenRequest? && f[UDP_DATA] == PCG_WORDS
    requires FromPcg(s, state, inc) && inc % 2 == 1 && j < k < FILL_WORDS
    ensures DataWord(Answer(f, own, s).0, j) != DataWord(Answer(f, own, s).0, k)
  {
    WordsDrawn(f, own, s, j);
    WordsDrawn(f, own, s, k);
    assert DrawnFromPcg(s, j, state, inc) && DrawnFromPcg(s, k, state, inc);
    WordsDiffer(j, k, state, inc);
  }

  /** The `k`-th block of the Chaskey generator under a key. */
  ghost predicate DrawnFromChaskey(s: Streams, k: nat, key: Block, clocks: seq<Reads>)
    requires k < |clocks|
  {
    s.blocks(k) == BlockAt(key, Cnt64(clocks[k]))
  }

  ghost predicate FromChaskey(s: Streams, key: Block, clocks: seq<Reads>) {
    forall k: nat :: k < |clocks| ==> DrawnFromChaskey(s, k, key, clocks)
  }

  /** Words of the hardware generator. */
  ghost predicate DrawnFromTrng(s: Streams, k: nat, random: seq<uint32>)
    requires k < |random|
  {
    s.random(k) == random[k]
  }

  ghost predicate FromTrng(s: Streams, random: seq<uint32>) {
    forall k: nat :: k < |random| ==> DrawnFromTrng(s, k, random)
  }

  /** The three clock reads of every call happen within 2^31 ticks of each other, before the
      counter wraps, and the clock advances from call to call. */
  ghost predicate Ticking(clocks: seq<Reads>, before: seq<nat>, at: seq<nat>, after: seq<nat>) {
    && |clocks| == |before| == |at| == |after|
    && (forall k :: 0 <= k < |at| ==>
          && clocks[k] == ReadsAt(before[k], at[k], after[k])
          && before[k] <= at[k] <= after[k] < TWO_64
          && at[k] - before[k] <= 0x8000_0000 && after[k] - at[k] <= 0x8000_0000)
    && (forall k, l :: 0 <= k < l < |at| ==> at[k] < at[l])
  }

  /** The 16-byte blocks of a 'C' reply are pairwise different. */
  lemma CipherBlocksDiffer(f: Bytes, own: Host, s: Streams, key: Block, clocks: seq<Reads>,
                           before: seq<nat>, at: seq<nat>, after: seq<nat>, j: nat, k: nat)
    requires FullSize(f) && own.Valid() && KindOf(f, own).ChargenRequest? && f[UDP_DATA] == CSPRNG
    requires FromChaskey(s, key, clocks) && Ticking(clocks, before, at, after)
    requires j < k < FILL_BLOCKS <= |clocks|
    ensures DataBlock(Answer(f, own, s).0, j) != DataBlock(Answer(f, own, s).0, k)
  {
    DataBlocks(f, own, s, j);
    DataBlocks(f, own, s, k);
    assert DrawnFromChaskey(s, j, key, clocks) && DrawnFromChaskey(s, k, key, clocks);
    NoRepeatedBlock(key, before, at, after, j, k);
  }
}
