/** Bytes of an Ethernet frame: where the header fields lie, and how the little-endian CPU
    reads and writes words whose wire format is big-endian. */
module Frames {
  import opened Words

  const ETHER_ADDR_LEN := 6
  const ETHERMTU := 1500
  const ETHER_MAX_LEN := 1518

  // Offsets from the start of the frame.
  const DHOST := 0
  const SHOST := 6
  const ETYPE := 12
  const IP_VERSION := 14
  const IP_LEN := 16
  const IP_TTL := 22
  const IP_PROTO := 23
  const IP_SRC := 26
  const IP_DST := 30
  const ICMP_TYPE := 34
  const ICMP_CODE := 35
  const UDP_SPORT := 34
  const UDP_DPORT := 36
  const UDP_LEN := 38
  const UDP_DATA := 42
  const UDP_END := 1514
  const ARP_HRD := 14
  const ARP_PRO := 16
  const ARP_HLN := 18
  const ARP_PLN := 19
  const ARP_OP := 20
  const ARP_SHA := 22
  const ARP_SPA := 28
  const ARP_THA := 32
  const ARP_TPA := 38

  type Bytes = seq<uint8>

  predicate FullSize(f: Bytes) {
    |f| == ETHER_MAX_LEN
  }

  const BLANK: Bytes := seq(ETHER_MAX_LEN, _ => 0)

  // ----- Words in memory -----

  /** The value of little-endian bytes. */
  function Value(b: Bytes): nat {
    if b == [] then 0 else b[0] as nat + 0x100 * Value(b[1..])
  }

  /** The `n` bytes of a word in memory. */
  function BytesOf(v: nat, n: nat): (b: Bytes)
    ensures |b| == n
    decreases n, v
  {
    if n == 0 then [] else [v % 0x100] + BytesOf(v / 0x100, n - 1)
  }

  lemma PairParts(lo: uint8, hi: nat)
    ensures (lo + 0x100 * hi) % 0x100 == lo && (lo + 0x100 * hi) / 0x100 == hi
  {
    DivModUnique(lo + 0x100 * hi, 0x100, hi, lo);
  }

  lemma {:induction false} ValueBound(b: Bytes)
    ensures Value(b) < Pow2(8 * |b|)
  {
    if b != [] {
      ValueBound(b[1..]);
      Pow2Add(8, 8 * |b[1..]|);
      Pow2Widths();
    }
  }

  /** Storing and loading are inverse to each other. */
  lemma {:induction false} LoadStored(v: nat, n: nat)
    requires v < Pow2(8 * n)
    ensures Value(BytesOf(v, n)) == v
    decreases n
  {
    if n > 0 {
      Pow2Add(8, 8 * (n - 1));
      Pow2Widths();
      assert Pow2(8 * n) == 0x100 * Pow2(8 * (n - 1));
      LoadStored(v / 0x100, n - 1);
      assert BytesOf(v, n)[1..] == BytesOf(v / 0x100, n - 1);
    }
  }

  lemma {:induction false} StoreLoaded(b: Bytes)
    ensures BytesOf(Value(b), |b|) == b
  {
    if b != [] {
      StoreLoaded(b[1..]);
      PairParts(b[0], Value(b[1..]));
    }
  }

  function Load16(f: Bytes, at: nat): uint16
    requires at + 2 <= |f|
  {
    ValueBound(f[at..at + 2]);
    Pow2Widths();
    Value(f[at..at + 2])
  }

  function Load32(f: Bytes, at: nat): uint32
    requires at + 4 <= |f|
  {
    ValueBound(f[at..at + 4]);
    Pow2Widths();
    Value(f[at..at + 4])
  }

  lemma Load16IsPair(f: Bytes, at: nat)
    requires at + 2 <= |f|
    ensures Load16(f, at) == f[at] as nat + 0x100 * f[at + 1] as nat
  {
    var w := f[at..at + 2];
    assert Value(w[1..]) == f[at + 1] as nat + 0x100 * Value(w[1..][1..]);
  }

  lemma Load32IsBytes(f: Bytes, at: nat, v: uint32)
    requires at + 4 <= |f|
    ensures Load32(f, at) == v <==> f[at..at + 4] == BytesOf(v, 4)
  {
    StoreLoaded(f[at..at + 4]);
    Pow2Widths();
    LoadStored(v, 4);
  }

  // ----- Byte order -----

  /** `hton16`, and `ntoh16` too. */
  function Hton16(x: uint16): uint16 {
    LowIsMod(Or(Shr(x, 8), Scale(x, 8)), 16);
    Pow2Widths();
    Low(Or(Shr(x, 8), Scale(x, 8)), 16)
  }

  lemma HtonValue(x: uint16)
    ensures Hton16(x) == (x * 0x100 + x / 0x100) % 0x1_0000
  {
    Pow2Widths();
    ShrBound(x, 8, 8);
    ShrIsDiv(x, 8);
    OrDisjoint(x, Shr(x, 8), 8);
    ScaleIsMul(x, 8);
    LowIsMod(x * 0x100 + x / 0x100, 16);
  }

  lemma Hton16Swaps(lo: uint8, hi: uint8)
    ensures Hton16(lo + 0x100 * hi) == hi + 0x100 * lo
  {
    HtonValue(lo + 0x100 * hi);
    PairParts(lo, hi);
    DivModUnique((lo + 0x100 * hi) * 0x100 + hi, 0x1_0000, hi, hi + 0x100 * lo);
  }

  /** Swapping the bytes twice changes nothing, so the same function converts both ways. */
  lemma Hton16Involution(x: uint16)
    ensures Hton16(Hton16(x)) == x
  {
    var lo, hi := TwoBytes(x);
    var y: uint16 := hi as nat + 0x100 * lo as nat;
    assert Hton16(x) == y by {
      Hton16Swaps(lo, hi);
    }
    assert Hton16(y) == x by {
      Hton16Swaps(hi, lo);
    }
  }

  lemma TwoBytes(x: uint16) returns (lo: uint8, hi: uint8)
    ensures x == lo as nat + 0x100 * hi as nat
  {
    lo, hi := x % 0x100, x / 0x100;
  }

  /** The value of a two-byte field on the wire, where the first byte is the high one. */
  function Field16(f: Bytes, at: nat): (v: nat)
    requires at + 2 <= |f|
    ensures v < 0x1_0000
  {
    0x100 * f[at] as nat + f[at + 1] as nat
  }

  lemma NetValue(f: Bytes, at: nat)
    requires at + 2 <= |f|
    ensures Hton16(Load16(f, at)) == Field16(f, at)
  {
    Load16IsPair(f, at);
    Hton16Swaps(f[at], f[at + 1]);
  }

  /** Converting what the CPU loads gives the wire value; comparing it with a converted
      constant compares the wire value with the constant. */
  lemma LoadField(f: Bytes, at: nat, v: uint16)
    requires at + 2 <= |f|
    ensures Hton16(Load16(f, at)) == Field16(f, at)
    ensures Load16(f, at) == Hton16(v) <==> Field16(f, at) == v
  {
    NetValue(f, at);
    Hton16Involution(v);
    Hton16Involution(Load16(f, at));
  }

  lemma TwoBytesOf(b: uint8, c: uint8, n: nat)
    requires n == 0
    ensures BytesOf(b as nat + 0x100 * c as nat, n + 2) == [b, c]
  {
    BytesOfCons(c, 0, n);
    BytesOfCons(b, c, n + 1);
  }

  /** Storing a converted value puts its high byte first. */
  lemma StoreField(v: uint16)
    ensures BytesOf(Hton16(v), 2) == [v / 0x100, v % 0x100]
  {
    var lo, hi := TwoBytes(v);
    Hton16Swaps(lo, hi);
    PairParts(lo, hi);
    TwoBytesOf(hi, lo, 0);
  }

  // ----- Addresses -----

  function Place(b: uint8, k: nat): uint32
    requires k <= 24
  {
    PlaceIsScale(b, k);
    Shl(b, k, 32)
  }

  lemma PlaceIsScale(b: uint8, k: nat)
    requires k <= 24
    ensures Shl(b, k, 32) == Scale(b, k) < TWO_32
  {
    Pow2Widths();
    ScaleBound(b, 0, 8, k);
    Pow2Monotone(8 + k, 32);
    LowOfSmall(Scale(b, k), 32);
  }

  lemma OrBytes(hi: uint8, lo: nat, k: nat)
    requires k <= 24 && lo < Pow2(k)
    ensures Or(lo, Place(hi, k)) == hi * Pow2(k) + lo < Pow2(k + 8)
  {
    PlaceIsScale(hi, k);
    OrDisjoint(hi, lo, k);
    ScaleIsMul(hi, k);
    Pow2Widths();
    ScaleBound(hi, lo, 8, k);
  }

  /** `MkIPv4Net`. */
  function MkIPv4Net(a: uint8, b: uint8, c: uint8, d: uint8): (r: uint32)
    ensures r == a as nat + 0x100 * b as nat + 0x1_0000 * c as nat + 0x100_0000 * d as nat
  {
    MkIPv4NetValue(a, b, c, d);
    Or(Or(Or(a, Place(b, 8)), Place(c, 16)), Place(d, 24))
  }

  lemma OrTwo(a: uint8, b: uint8)
    ensures Or(a, Place(b, 8)) == a as nat + 0x100 * b as nat
  {
    Pow2Widths();
    OrBytes(b, a, 8);
  }

  lemma OrThree(v: uint16, c: uint8)
    ensures Or(v, Place(c, 16)) == v as nat + 0x1_0000 * c as nat
  {
    Pow2Widths();
    OrBytes(c, v, 16);
  }

  lemma OrFour(v: nat, d: uint8)
    requires v < 0x100_0000
    ensures Or(v, Place(d, 24)) == v + 0x100_0000 * d as nat
  {
    Pow2Widths();
    Pow2Add(16, 8);
    OrBytes(d, v, 24);
  }

  lemma MkIPv4NetValue(a: uint8, b: uint8, c: uint8, d: uint8)
    ensures Or(Or(Or(a, Place(b, 8)), Place(c, 16)), Place(d, 24))
         == a as nat + 0x100 * b as nat + 0x1_0000 * c as nat + 0x100_0000 * d as nat
  {
    var two: uint16 := a as nat + 0x100 * b as nat;
    var three: nat := two as nat + 0x1_0000 * c as nat;
    OrTwo(a, b);
    OrThree(two, c);
    OrFour(three, d);
    OrChain(a, Place(b, 8), two, Place(c, 16), three, Place(d, 24));
  }

  lemma OrChain(a: nat, b: nat, two: nat, c: nat, three: nat, d: nat)
    requires Or(a, b) == two && Or(two, c) == three
    ensures Or(Or(Or(a, b), c), d) == Or(three, d)
  {
  }

  lemma BytesOfCons(b: uint8, v: nat, n: nat)
    ensures BytesOf(b as nat + 0x100 * v, n + 1) == [b] + BytesOf(v, n)
  {
    PairParts(b, v);
  }

  lemma FourBytes(a: uint8, b: uint8, c: uint8, d: uint8, n: nat)
    requires n == 0
    ensures BytesOf(a as nat + 0x100 * b as nat + 0x1_0000 * c as nat + 0x100_0000 * d as nat, n + 4) == [a, b, c, d]
  {
    var v: nat := c as nat + 0x100 * d as nat;
    BytesOfCons(d, 0, n);
    BytesOfCons(c, d, n + 1);
    BytesOfCons(b, v, n + 2);
    BytesOfCons(a, b as nat + 0x100 * v, n + 3);
  }

  /** In memory an IPv4 address reads in the order in which it is written. */
  lemma AddressInOrder(a: uint8, b: uint8, c: uint8, d: uint8)
    ensures BytesOf(MkIPv4Net(a, b, c, d), 4) == [a, b, c, d]
  {
    FourBytes(a, b, c, d, 0);
  }
}
