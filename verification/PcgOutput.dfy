/** The output functions of the PCG family that turn a raw state into a random word. */
module PcgOutput {
  import opened Words
  import opened Bits
  import opened Counting

  // ----- The self-inverse building block: (x >> k) ^ x -----

  function XorShift(x: nat, k: nat): nat {
    Xor(Shr(x, k), x)
  }

  function UnXorShift(y: nat, k: nat): nat
    requires k > 0
    decreases y
  {
    if y == 0 then 0 else
      assert Shr(y, k) < y by { ShrShrinks(y, k); }
      Xor(UnXorShift(Shr(y, k), k), y)
  }

  lemma ShrShrinks(y: nat, k: nat)
    requires y > 0 && k > 0
    ensures Shr(y, k) < y
  {
    assert Shr(y / 2, k - 1) <= y / 2;
  }

  lemma {:induction false} UnXorShiftBound(y: nat, k: nat, w: nat)
    requires k > 0 && y < Pow2(w)
    ensures UnXorShift(y, k) < Pow2(w)
    decreases y
  {
    if y > 0 {
      ShrShrinks(y, k);
      UnXorShiftBound(Shr(y, k), k, w);
      XorBound(UnXorShift(Shr(y, k), k), y, w);
    }
  }

  lemma {:induction false} UnXorShiftShr(y: nat, k: nat)
    requires k > 0
    ensures Shr(UnXorShift(y, k), k) == UnXorShift(Shr(y, k), k)
    decreases y
  {
    if y == 0 {
      ShrZero(k);
    } else {
      var z := Shr(y, k);
      ShrShrinks(y, k);
      UnXorShiftShr(z, k);
      XorShr(UnXorShift(z, k), y, k);
      if z == 0 {
        XorZero(0);
      }
    }
  }

  lemma {:induction false} XorShiftInverse(x: nat, k: nat)
    requires k > 0
    ensures UnXorShift(XorShift(x, k), k) == x
    ensures XorShift(UnXorShift(x, k), k) == x
    decreases x
  {
    if x == 0 {
      ShrZero(k);
    } else {
      var z := Shr(x, k);
      ShrShrinks(x, k);
      XorShiftInverse(z, k);
      // XorShift(x) >> k == XorShift(x >> k), so undoing it recursively yields x >> k
      XorShr(z, x, k);
      XorCancel(x, z);
      XorComm(z, x);
      if XorShift(x, k) == 0 {
        XorZero(z);
      }
      UnXorShiftShr(x, k);
      XorCancel(x, UnXorShift(z, k));
      XorComm(x, UnXorShift(z, k));
    }
  }

  lemma XorShiftBound(x: nat, k: nat, w: nat)
    requires x < Pow2(w)
    ensures XorShift(x, k) < Pow2(w)
  {
    XorBound(Shr(x, k), x, w);
  }

  /** The low `w` bits of `y` are those of `x`, each flipped if the bit `k` places above it
      is set. */
  ghost predicate FlippedFromAbove(y: nat, x: nat, k: nat, w: nat) {
    forall i: nat :: i < w ==> (Bit(y, i) <==> (Bit(x, i) != Bit(x, i + k)))
  }

  lemma XorShiftBit(x: nat, k: nat, i: nat)
    ensures Bit(XorShift(x, k), i) <==> (Bit(x, i) != Bit(x, i + k))
  {
    XorBits(Shr(x, k), x, i);
    BitOfShr(x, k, i);
  }

  lemma XorShiftBits(x: nat, k: nat, w: nat)
    ensures FlippedFromAbove(XorShift(x, k), x, k, w)
  {
    forall i: nat | i < w ensures Bit(XorShift(x, k), i) <==> (Bit(x, i) != Bit(x, i + k)) {
      XorShiftBit(x, k, i);
    }
  }

  /** Nothing else in the word has those bits. */
  lemma XorShiftIff(y: nat, x: nat, k: nat, w: nat)
    requires x < Pow2(w) && y < Pow2(w)
    ensures XorShift(x, k) < Pow2(w)
    ensures FlippedFromAbove(y, x, k, w) <==> y == XorShift(x, k)
  {
    XorShiftBound(x, k, w);
    XorShiftBits(x, k, w);
    if FlippedFromAbove(y, x, k, w) {
      forall i: nat | i < w ensures Bit(y, i) <==> Bit(XorShift(x, k), i) {
        assert Bit(XorShift(x, k), i) <==> (Bit(x, i) != Bit(x, i + k));
      }
      SameBits(y, XorShift(x, k), w);
    }
  }

  // ----- RXS M XS: random xorshift, multiply, xorshift -----

  /** One width of the RXS-M-XS family: word width, number of opcode bits at the top of the
      word, the odd multiplier and its inverse, and the shift of the final xorshift. */
  datatype RxsMXs = RxsMXs(width: nat, opcodeBits: nat, multiplier: nat, inverse: nat, finalShift: nat) {
    predicate Shaped() {
      0 < opcodeBits <= width && 0 < finalShift
    }

    predicate Valid() {
      Shaped() && multiplier * inverse % Pow2(width) == 1
    }
  }

  const RXS_M_XS_8 := RxsMXs(8, 2, 217, 105, 6)
  const RXS_M_XS_16 := RxsMXs(16, 3, 62169, 28009, 11)
  const RXS_M_XS_32 := RxsMXs(32, 4, 277803737, 2897767785, 22)
  const RXS_M_XS_64 := RxsMXs(64, 5, 12605985483714917081, 15009553638781119849, 43)

  /** The multipliers of the C code are invertible at their width. */
  lemma RxsMXsInstances()
    ensures RXS_M_XS_8.Valid() && RXS_M_XS_16.Valid() && RXS_M_XS_32.Valid() && RXS_M_XS_64.Valid()
  {
    Pow2Widths();
  }

  /** The first xorshift takes its own distance from the opcode bits. */
  function RandomXorShift(s: nat, p: RxsMXs): nat
    requires p.Shaped()
  {
    XorShift(s, Shr(s, p.width - p.opcodeBits) + p.opcodeBits)
  }

  function UnRandomXorShift(s: nat, p: RxsMXs): nat
    requires p.Shaped()
  {
    UnXorShift(s, Shr(s, p.width - p.opcodeBits) + p.opcodeBits)
  }

  function OutputRxsMXs(s: nat, p: RxsMXs): nat
    requires p.Shaped()
  {
    XorShift(RandomXorShift(s, p) * p.multiplier % Pow2(p.width), p.finalShift)
  }

  function InvertRxsMXs(o: nat, p: RxsMXs): nat
    requires p.Shaped()
  {
    UnRandomXorShift(UnXorShift(o, p.finalShift) * p.inverse % Pow2(p.width), p)
  }

  /** A shift of at least the opcode width cannot disturb the opcode. */
  lemma OpcodeKept(s: nat, k: nat, p: RxsMXs)
    requires p.Shaped() && s < Pow2(p.width) && k >= p.opcodeBits
    ensures Shr(XorShift(s, k), p.width - p.opcodeBits) == Shr(s, p.width - p.opcodeBits)
  {
    var m := p.width - p.opcodeBits;
    XorShr(Shr(s, k), s, m);
    ShrAdd(s, k, m);
    FitsShr(s, p.width, k + m);
    XorZero(Shr(s, m));
  }

  lemma RandomXorShiftInverse(s: nat, p: RxsMXs)
    requires p.Shaped() && s < Pow2(p.width)
    ensures RandomXorShift(s, p) < Pow2(p.width)
    ensures UnRandomXorShift(RandomXorShift(s, p), p) == s
  {
    var k := Shr(s, p.width - p.opcodeBits) + p.opcodeBits;
    XorShiftBound(s, k, p.width);
    XorShiftInverse(s, k);
    OpcodeKept(s, k, p);
    assert UnRandomXorShift(XorShift(s, k), p) == UnXorShift(XorShift(s, k), k);
  }

  lemma OpcodeOfPreimage(s: nat, k: nat, p: RxsMXs)
    requires p.Shaped() && s < Pow2(p.width) && k >= p.opcodeBits
    ensures UnXorShift(s, k) < Pow2(p.width) && XorShift(UnXorShift(s, k), k) == s
    ensures Shr(UnXorShift(s, k), p.width - p.opcodeBits) == Shr(s, p.width - p.opcodeBits)
  {
    UnXorShiftBound(s, k, p.width);
    XorShiftInverse(s, k);
    OpcodeKept(UnXorShift(s, k), k, p);
  }

  lemma UnRandomXorShiftInverse(s: nat, p: RxsMXs)
    requires p.Shaped() && s < Pow2(p.width)
    ensures UnRandomXorShift(s, p) < Pow2(p.width)
    ensures RandomXorShift(UnRandomXorShift(s, p), p) == s
  {
    OpcodeOfPreimage(s, Shr(s, p.width - p.opcodeBits) + p.opcodeBits, p);
  }

  lemma MultiplyInverse(x: nat, m: nat, n: nat, q: nat)
    requires x < q && m * n % q == 1
    ensures x * m % q < q && x * m % q * n % q == x
  {
    MulMod(x * m, n, q);
    assert (x * m) * n == (m * n) * x by {
      MulAssociates(x, m, n);
    }
    MulMod(m * n, x, q);
    SmallMod(x, q);
  }

  lemma OutputThenInvert(s: nat, p: RxsMXs)
    requires p.Valid() && s < Pow2(p.width)
    ensures OutputRxsMXs(s, p) < Pow2(p.width)
    ensures InvertRxsMXs(OutputRxsMXs(s, p), p) == s
  {
    RandomXorShiftInverse(s, p);
    var word := RandomXorShift(s, p);
    MultiplyInverse(word, p.multiplier, p.inverse, Pow2(p.width));
    var product := word * p.multiplier % Pow2(p.width);
    XorShiftBound(product, p.finalShift, p.width);
    XorShiftInverse(product, p.finalShift);
  }

  lemma InvertThenOutput(o: nat, p: RxsMXs)
    requires p.Valid() && o < Pow2(p.width)
    ensures InvertRxsMXs(o, p) < Pow2(p.width)
    ensures OutputRxsMXs(InvertRxsMXs(o, p), p) == o
  {
    UnXorShiftBound(o, p.finalShift, p.width);
    XorShiftInverse(o, p.finalShift);
    var product := UnXorShift(o, p.finalShift);
    assert p.inverse * p.multiplier == p.multiplier * p.inverse;
    MultiplyInverse(product, p.inverse, p.multiplier, Pow2(p.width));
    UnRandomXorShiftInverse(product * p.inverse % Pow2(p.width), p);
  }

  /** RXS-M-XS is a permutation of the states at each width: it has an inverse on both sides. */
  lemma RxsMXsPermutation(s: nat, p: RxsMXs)
    requires p.Valid() && s < Pow2(p.width)
    ensures OutputRxsMXs(s, p) < Pow2(p.width) && InvertRxsMXs(s, p) < Pow2(p.width)
    ensures InvertRxsMXs(OutputRxsMXs(s, p), p) == s
    ensures OutputRxsMXs(InvertRxsMXs(s, p), p) == s
  {
    OutputThenInvert(s, p);
    InvertThenOutput(s, p);
  }

  function OutputRxsMXs8(s: uint8): uint8 {
    RxsMXsInstances();
    Pow2Widths();
    RxsMXsPermutation(s, RXS_M_XS_8);
    OutputRxsMXs(s, RXS_M_XS_8)
  }

  function OutputRxsMXs16(s: uint16): uint16 {
    RxsMXsInstances();
    Pow2Widths();
    RxsMXsPermutation(s, RXS_M_XS_16);
    OutputRxsMXs(s, RXS_M_XS_16)
  }

  function OutputRxsMXs32(s: uint32): uint32 {
    RxsMXsInstances();
    Pow2Widths();
    RxsMXsPermutation(s, RXS_M_XS_32);
    OutputRxsMXs(s, RXS_M_XS_32)
  }

  function OutputRxsMXs64(s: uint64): uint64 {
    RxsMXsInstances();
    Pow2Widths();
    RxsMXsPermutation(s, RXS_M_XS_64);
    OutputRxsMXs(s, RXS_M_XS_64)
  }

  lemma RxsMXsBits(s: nat, r: nat, p: RxsMXs, k: nat, q: nat)
    requires p.Shaped() && q == Pow2(p.width) && s < q && r < q && k == Shr(s, p.width - p.opcodeBits) + p.opcodeBits
    ensures r == OutputRxsMXs(s, p) <==>
              exists u: nat :: u < q && FlippedFromAbove(u, s, k, p.width)
                               && FlippedFromAbove(r, u * p.multiplier % q, p.finalShift, p.width)
  {
    var word := RandomXorShift(s, p);
    RandomXorShiftInverse(s, p);
    XorShiftIff(word, s, k, p.width);
    XorShiftIff(r, word * p.multiplier % q, p.finalShift, p.width);
    forall u: nat | u < q && FlippedFromAbove(u, s, k, p.width) ensures u == word {
      XorShiftIff(u, s, k, p.width);
    }
  }

  /** What the 8-bit output is, bit by bit: `u` is the state xorshifted by two more than its top
      two bits say, and the output is its product with the multiplier, xorshifted by six. */
  lemma RxsMXs8Bits(s: uint8, r: uint8)
    ensures r == OutputRxsMXs8(s) <==>
              exists u: nat :: u < 0x100 && FlippedFromAbove(u, s, 2 + s / 0x40, 8)
                               && FlippedFromAbove(r, u * 217 % 0x100, 6, 8)
  {
    PowersOfTwo();
    ShrIsDiv(s, 6);
    RxsMXsBits(s, r, RXS_M_XS_8, 2 + s / 0x40, 0x100);
  }

  lemma RxsMXs16Bits(s: uint16, r: uint16)
    ensures r == OutputRxsMXs16(s) <==>
              exists u: nat :: u < 0x1_0000 && FlippedFromAbove(u, s, 3 + s / 0x2000, 16)
                               && FlippedFromAbove(r, u * 62169 % 0x1_0000, 11, 16)
  {
    PowersOfTwo();
    ShrIsDiv(s, 13);
    RxsMXsBits(s, r, RXS_M_XS_16, 3 + s / 0x2000, 0x1_0000);
  }

  lemma RxsMXs32Bits(s: uint32, r: uint32)
    ensures r == OutputRxsMXs32(s) <==>
              exists u: nat :: u < 0x1_0000_0000 && FlippedFromAbove(u, s, 4 + s / 0x1000_0000, 32)
                               && FlippedFromAbove(r, u * 277803737 % 0x1_0000_0000, 22, 32)
  {
    PowersOfTwo();
    ShrIsDiv(s, 28);
    RxsMXsBits(s, r, RXS_M_XS_32, 4 + s / 0x1000_0000, 0x1_0000_0000);
  }

  lemma RxsMXs64Bits(s: uint64, r: uint64)
    ensures r == OutputRxsMXs64(s) <==>
              exists u: nat :: u < 0x1_0000_0000_0000_0000 && FlippedFromAbove(u, s, 5 + s / 0x800_0000_0000_0000, 64)
                               && FlippedFromAbove(r, u * 12605985483714917081 % 0x1_0000_0000_0000_0000, 43, 64)
  {
    PowersOfTwo();
    ShrIsDiv(s, 59);
    RxsMXsBits(s, r, RXS_M_XS_64, 5 + s / 0x800_0000_0000_0000, 0x1_0000_0000_0000_0000);
  }

  lemma PowersOfTwo()
    ensures Pow2(6) == 0x40 && Pow2(8) == 0x100 && Pow2(13) == 0x2000 && Pow2(16) == 0x1_0000
    ensures Pow2(28) == 0x1000_0000 && Pow2(32) == 0x1_0000_0000
    ensures Pow2(30) == 0x4000_0000
    ensures Pow2(59) == 0x800_0000_0000_0000 && Pow2(64) == 0x1_0000_0000_0000_0000
  {
    Pow2Widths();
    assert Pow2(2) == 4 && Pow2(5) == 32;
    Pow2Add(6, 2);
    Pow2Add(8, 5);
    Pow2Add(16, 12);
    Pow2Add(8, 4);
    Pow2Add(30, 2);
    Pow2Add(59, 5);
  }

  // ----- XSL RR RR 64: xorshift low, two data-dependent rotations -----

  function LowWord(x: nat): uint32 {
    Pow2Widths();
    LowIsMod(x, 32);
    Low(x, 32)
  }

  function HighWord(x: uint64): uint32 {
    Pow2Widths();
    ShrBound(x, 32, 32);
    Shr(x, 32)
  }

  /** `((uint64_t)high << 32) | low`. */
  function Join(high: uint32, low: uint32): (r: uint64)
    ensures HighWord(r) == high && LowWord(r) == low
  {
    Pow2Widths();
    OrDisjoint(high, low, 32);
    ScaleBound(high, low, 32, 32);
    ShrParts(high, low, 32);
    LowOfScaled(high, low, 32);
    Or(Scale(high, 32), low)
  }

  lemma JoinValue(high: uint32, low: uint32)
    ensures Join(high, low) == high * TWO_32 + low
    ensures Join(high, low) / TWO_32 == high && Join(high, low) % TWO_32 == low
  {
    Pow2Widths();
    OrDisjoint(high, low, 32);
    ScaleIsMul(high, 32);
    DivModUnique(Join(high, low), TWO_32, high, low);
  }

  lemma HalvesValue(x: uint64)
    ensures HighWord(x) == x / TWO_32 && LowWord(x) == x % TWO_32
  {
    Pow2Widths();
    ShrIsDiv(x, 32);
    LowIsMod(x, 32);
  }

  lemma JoinHalves(x: uint64)
    ensures Join(HighWord(x), LowWord(x)) == x
  {
    Pow2Widths();
    SplitLow(x, 32);
    OrDisjoint(Shr(x, 32), Low(x, 32), 32);
  }

  function OutputXslRrRr(s: uint64): uint64 {
    var high, low := HighWord(s), LowWord(s);
    var newLow := RotateRight32(Xor32(high, low), Shr(s, 59));
    var newHigh := RotateRight32(high, newLow % 32);
    Join(newHigh, newLow)
  }

  function InvertXslRrRr(o: uint64): uint64 {
    var newHigh, newLow := HighWord(o), LowWord(o);
    var high := RotateLeft32(newHigh, newLow % 32);
    var xored := RotateLeft32(newLow, Shr(high, 27));
    Join(high, Xor32(xored, high))
  }

  /** XSL-RR-RR is a permutation of the 64-bit states, with an inverse on both sides. */
  lemma XslRrRrPermutation(s: uint64)
    ensures InvertXslRrRr(OutputXslRrRr(s)) == s
    ensures OutputXslRrRr(InvertXslRrRr(s)) == s
  {
    var high, low := HighWord(s), LowWord(s);
    ShrAdd(s, 32, 27);
    Rotate32Inverse(Xor32(high, low), Shr(s, 59));
    Rotate32Inverse(high, RotateRight32(Xor32(high, low), Shr(s, 59)) % 32);
    XorComm(high, low);
    XorCancel(low, high);
    JoinHalves(s);

    var original := InvertXslRrRr(s);
    var high' := RotateLeft32(high, low % 32);
    var xored' := RotateLeft32(low, Shr(high', 27));
    ShrAdd(original, 32, 27);
    XorComm(xored', high');
    XorCancel(xored', high');
    Rotate32Inverse(low, Shr(high', 27));
    Rotate32Inverse(high, low % 32);
  }

  lemma JoinBits(high: uint32, low: uint32, i: nat)
    requires i < 32
    ensures Bit(Join(high, low), i) <==> Bit(low, i)
    ensures Bit(Join(high, low), 32 + i) <==> Bit(high, i)
  {
    Pow2Widths();
    OrDisjoint(high, low, 32);
    BitOfParts(high, low, 32, i);
    BitOfParts(high, low, 32, 32 + i);
  }

  lemma HalvesBits(s: uint64, i: nat)
    requires i < 32
    ensures Bit(LowWord(s), i) <==> Bit(s, i)
    ensures Bit(HighWord(s), i) <==> Bit(s, 32 + i)
  {
    BitOfLow(s, 32, i);
    BitOfShr(s, 32, i);
  }

  lemma XslLowBits(s: uint64, low: uint32, t: nat, i: nat)
    requires i < 32 && low == RotateRight32(Xor32(HighWord(s), LowWord(s)), t)
    ensures Bit(low, i) <==> (Bit(s, 32 + (i + t) % 32) != Bit(s, (i + t) % 32))
  {
    RotateRight32Bits(Xor32(HighWord(s), LowWord(s)), t, i);
    XorBits(HighWord(s), LowWord(s), (i + t) % 32);
    HalvesBits(s, (i + t) % 32);
  }

  lemma XslHighBits(s: uint64, high: uint32, t: nat, i: nat)
    requires i < 32 && high == RotateRight32(HighWord(s), t)
    ensures Bit(high, i) <==> Bit(s, 32 + (i + t) % 32)
  {
    RotateRight32Bits(HighWord(s), t, i);
    HalvesBits(s, (i + t) % 32);
  }

  /** What XSL-RR-RR is, bit by bit: the low half is the exclusive or of both halves, turned to
      the right as the top five bits say; the high half is turned as the low half then says. */
  lemma XslRrRrBits(s: uint64, o: uint64, high: nat, low: nat, i: nat)
    requires i < 32 && o == OutputXslRrRr(s) && high == o % 32 && low == s / 0x800_0000_0000_0000
    ensures Bit(o, i) <==> (Bit(s, 32 + (i + low) % 32) != Bit(s, (i + low) % 32))
    ensures Bit(o, 32 + i) <==> Bit(s, 32 + (i + high) % 32)
  {
    TopFive(s);
    var newLow := RotateRight32(Xor32(HighWord(s), LowWord(s)), low);
    var newHigh := RotateRight32(HighWord(s), newLow % 32);
    JoinFive(newHigh, newLow);
    JoinBits(newHigh, newLow, i);
    XslLowBits(s, newLow, low, i);
    XslHighBits(s, newHigh, high, i);
  }

  lemma TopFive(s: nat)
    ensures Shr(s, 59) == s / 0x800_0000_0000_0000
  {
    PowersOfTwo();
    ShrIsDiv(s, 59);
  }

  lemma JoinFive(high: uint32, low: uint32)
    ensures Join(high, low) % 32 == low % 32
  {
    JoinValue(high, low);
    LowFive(high, low);
  }

  lemma LowFive(h: nat, l: nat)
    ensures (h * TWO_32 + l) % 32 == l % 32
  {
    MulAssociates(h, 0x800_0000, 32);
    ModAddMultiple(l, h * 0x800_0000, 32);
  }

  // ----- XSH RS 32 -> 16: xorshift high, random shift -----

  function OutputXshRs(s: uint32): uint16 {
    Pow2Widths();
    LowIsMod(Shr(XorShift(s, 11), Shr(s, 30) + 11), 16);
    Low(Shr(XorShift(s, 11), Shr(s, 30) + 11), 16)
  }

  lemma XshRsBitsAt(s: uint32, k: nat, i: nat)
    requires i < 16 && k == Shr(s, 30) + 11
    ensures Bit(OutputXshRs(s), i) <==> (Bit(s, i + k) != Bit(s, i + k + 11))
  {
    BitOfLow(Shr(XorShift(s, 11), k), 16, i);
    BitOfShr(XorShift(s, 11), k, i);
    XorShiftBit(s, 11, i + k);
  }

  /** What the half word is, bit by bit: 16 neighbouring bits of the state xorshifted by 11, from
      eleven more places up than its top two bits say. */
  lemma XshRsBits(s: uint32, i: nat)
    requires i < 16
    ensures var j := i + 11 + s / 0x4000_0000;
            Bit(OutputXshRs(s), i) <==> (Bit(s, j) != Bit(s, j + 11))
  {
    TopTwo(s);
    XshRsBitsAt(s, Shr(s, 30) + 11, i);
  }

  lemma TopTwo(s: nat)
    ensures Shr(s, 30) == s / 0x4000_0000
  {
    PowersOfTwo();
    ShrIsDiv(s, 30);
  }

  /** Cut `n` bits out of `y`, starting `k` places up. */
  function Squeeze(y: nat, k: nat, n: nat): nat {
    if k == 0 then Shr(y, n) else 2 * Squeeze(y / 2, k - 1, n) + y % 2
  }

  /** Put the `n`-bit value `v` back, starting `k` places up. */
  function Insert(j: nat, v: nat, k: nat, n: nat): nat {
    if k == 0 then Scale(j, n) + v else 2 * Insert(j / 2, v, k - 1, n) + j % 2
  }

  lemma {:induction false} SqueezeInsert(j: nat, v: nat, k: nat, n: nat)
    requires v < Pow2(n)
    ensures Squeeze(Insert(j, v, k, n), k, n) == j
    ensures Low(Shr(Insert(j, v, k, n), k), n) == v
  {
    if k == 0 {
      ShrParts(j, v, n);
      LowOfScaled(j, v, n);
    } else {
      SqueezeInsert(j / 2, v, k - 1, n);
    }
  }

  lemma {:induction false} InsertSqueeze(y: nat, k: nat, n: nat)
    ensures Insert(Squeeze(y, k, n), Low(Shr(y, k), n), k, n) == y
  {
    if k == 0 {
      SplitLow(y, n);
    } else {
      InsertSqueeze(y / 2, k - 1, n);
    }
  }

  lemma {:induction false} SqueezeKeepsTop(y: nat, k: nat, m: nat, n: nat)
    requires k <= m
    ensures Shr(Squeeze(y, k, n), m) == Shr(y, m + n)
  {
    if k == 0 {
      ShrAdd(y, n, m);
    } else {
      SqueezeKeepsTop(y / 2, k - 1, m - 1, n);
    }
  }

  /** In a word of `m + n` bits below its selector, the `n`-bit window that the selector
      chooses. */
  function WindowOf(y: nat, m: nat, n: nat): nat {
    Low(Shr(y, Shr(y, m + n) + 11), n)
  }

  /** The rest of the word once the window is cut out. */
  function RemainderOf(y: nat, m: nat, n: nat): nat {
    Squeeze(y, Shr(y, m + n) + 11, n)
  }

  function RebuildOf(j: nat, v: nat, m: nat, n: nat): nat {
    Insert(j, v, Shr(j, m) + 11, n)
  }

  lemma CutAndPaste(y: nat, m: nat, n: nat)
    requires Shr(y, m + n) + 11 <= m
    ensures RebuildOf(RemainderOf(y, m, n), WindowOf(y, m, n), m, n) == y
  {
    SqueezeKeepsTop(y, Shr(y, m + n) + 11, m, n);
    InsertSqueeze(y, Shr(y, m + n) + 11, n);
  }

  lemma PasteAndCut(j: nat, v: nat, m: nat, n: nat)
    requires Shr(j, m) + 11 <= m && v < Pow2(n)
    ensures WindowOf(RebuildOf(j, v, m, n), m, n) == v && RemainderOf(RebuildOf(j, v, m, n), m, n) == j
    ensures Shr(RebuildOf(j, v, m, n), m + n) == Shr(j, m)
  {
    var k := Shr(j, m) + 11;
    SqueezeInsert(j, v, k, n);
    SqueezeKeepsTop(Insert(j, v, k, n), k, m, n);
  }

  lemma SizesAgree(y: nat, m: nat, n: nat, t: nat)
    requires Shr(y, m + n) + 11 <= m <= t
    ensures RemainderOf(y, m, n) < Pow2(t) <==> y < Pow2(t + n)
  {
    SqueezeKeepsTop(y, Shr(y, m + n) + 11, t, n);
    FitsIffShrZero(y, t + n);
    FitsIffShrZero(RemainderOf(y, m, n), t);
  }

  /** The window that the second shift selects, read off the word after the first one. */
  function Window(y: nat): nat {
    WindowOf(y, 14, 16)
  }

  function Remainder(y: nat): nat {
    RemainderOf(y, 14, 16)
  }

  function Rebuild(j: nat, v: nat): nat {
    RebuildOf(j, v, 14, 16)
  }

  lemma SelectorBound(y: nat)
    requires y < Pow2(32)
    ensures Shr(y, 30) <= 3
  {
    ShrBound(y, 2, 30);
    assert Pow2(2) == 4;
  }

  lemma TopKept(y: uint32)
    ensures Shr(XorShift(y, 11), 30) == Shr(y, 30)
  {
    Pow2Widths();
    XorShr(Shr(y, 11), y, 30);
    ShrAdd(y, 11, 30);
    FitsShr(y, 32, 41);
    XorZero(Shr(y, 30));
  }

  lemma RemainderFits(y: nat)
    requires y < Pow2(32)
    ensures Remainder(y) < Pow2(16)
    ensures Rebuild(Remainder(y), Window(y)) == y
  {
    SelectorBound(y);
    CutAndPaste(y, 14, 16);
    SizesAgree(y, 14, 16, 16);
  }

  lemma RebuildFits(j: nat, v: nat)
    requires j < Pow2(16) && v < Pow2(16)
    ensures Rebuild(j, v) < Pow2(32)
    ensures Window(Rebuild(j, v)) == v && Remainder(Rebuild(j, v)) == j
  {
    ShrBound(j, 2, 14);
    assert Pow2(2) == 4;
    PasteAndCut(j, v, 14, 16);
    SizesAgree(Rebuild(j, v), 14, 16, 16);
  }

  /** The words that show the window `v`. */
  ghost function Showing(v: nat): set<nat> {
    Where(Pow2(32), (y: nat) => Window(y) == v)
  }

  lemma RemainderMaps(v: nat, y: nat)
    requires y in Showing(v)
    ensures Remainder(y) in Below(Pow2(16)) && Rebuild(Remainder(y), v) == y
  {
    RemainderFits(y);
  }

  lemma RebuildMaps(v: nat, j: nat)
    requires v < Pow2(16) && j in Below(Pow2(16))
    ensures Rebuild(j, v) in Showing(v) && Remainder(Rebuild(j, v)) == j
  {
    RebuildFits(j, v);
  }

  /** Each 16-bit window value occurs in exactly 2^16 words. */
  lemma WindowCount(v: nat)
    requires v < Pow2(16)
    ensures |Showing(v)| == Pow2(16)
  {
    var f: nat -> nat, g: nat -> nat := Remainder, (j: nat) => Rebuild(j, v);
    forall y | y in Showing(v) ensures f(y) in Below(Pow2(16)) && g(f(y)) == y {
      RemainderMaps(v, y);
    }
    forall j | j in Below(Pow2(16)) ensures g(j) in Showing(v) && f(g(j)) == j {
      RebuildMaps(v, j);
    }
    InverseMapsSize(f, g, Showing(v), Below(Pow2(16)));
    BelowSize(Pow2(16));
  }

  lemma ShiftedPermutation()
    ensures InjectiveBelow((s: nat) => XorShift(s, 11), TWO_32)
    ensures forall s: nat :: s < TWO_32 ==> XorShift(s, 11) < TWO_32
  {
    forall i: nat, j: nat | i < j < TWO_32 ensures XorShift(i, 11) != XorShift(j, 11) {
      XorShiftInverse(i, 11);
      XorShiftInverse(j, 11);
    }
    forall s: nat | s < TWO_32 ensures XorShift(s, 11) < TWO_32 {
      Pow2Widths();
      XorShiftBound(s, 11, 32);
    }
  }

  /** Each 16-bit value is the output of exactly 2^16 of the 2^32 states: the shift that
      the two top bits select never reaches those bits. */
  lemma XshRsBalanced(v: uint16)
    ensures |Where(TWO_32, (s: nat) => s < TWO_32 && OutputXshRs(s) == v)| == 0x1_0000
  {
    var f: nat -> nat := (s: nat) => XorShift(s, 11);
    var p := (y: nat) => Window(y) == v;
    ShiftedPermutation();
    PermutedCount(f, TWO_32, p);
    assert |Where(TWO_32, p)| == 0x1_0000 by {
      Pow2Widths();
      WindowCount(v);
      assert Showing(v) == Where(TWO_32, p);
    }
    forall s: nat | s < TWO_32 ensures OutputXshRs(s) == Window(f(s)) {
      TopKept(s);
    }
    assert Where(TWO_32, (s: nat) => s < TWO_32 && OutputXshRs(s) == v)
        == Where(TWO_32, (s: nat) => p(f(s)));
  }
}
