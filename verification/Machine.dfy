/** The 32-bit words of the machine: their operators compute what the natural-number versions
    in `Words` compute. */
module Machine {
  import opened Words
  import opened Bits
  import opened Digits

  function Digit(a: bv32): (d: nat)
    ensures d <= 1
  {
    if a & 1 == 1 then 1 else 0
  }

  function Half(a: bv32): bv32 {
    a >> 1
  }

  const BITS: View<bv32> := View(Digit, Half)

  /** The value of a machine word. */
  function ValueOf(a: bv32): uint32 {
    NumBound(BITS, a, 32);
    Pow2Widths();
    Num(BITS, a, 32)
  }

  // ----- Exclusive or -----

  function Xored(a: bv32, b: bv32): bv32 {
    a ^ b
  }

  lemma HalfOfXor(a: bv32, b: bv32)
    ensures Half(Xored(a, b)) == Xored(Half(a), Half(b))
  {
  }

  lemma DigitOfXor(a: bv32, b: bv32)
    ensures Digit(Xored(a, b)) == if Digit(a) == Digit(b) then 0 else 1
  {
  }

  lemma XorDigits(a: bv32, b: bv32)
    ensures XorsDigits(BITS, Xored, a, b)
  {
    HalfOfXor(a, b);
    DigitOfXor(a, b);
    DigitsXor(BITS, Xored, a, b, Half(a), Half(b), Xored(a, b), Xored(Half(a), Half(b)));
  }

  lemma DigitsXor<W>(v: View<W>, xor: (W, W) -> W, a: W, b: W, x: W, y: W, r: W, t: W)
    requires x == v.rest(a) && y == v.rest(b) && r == xor(a, b) && t == xor(x, y) && v.rest(r) == t
    requires v.digit(r) == if v.digit(a) == v.digit(b) then 0 else 1
    ensures XorsDigits(v, xor, a, b)
  {
  }

  lemma ValueOfXor(a: bv32, b: bv32)
    ensures ValueOf(a ^ b) == Xor32(ValueOf(a), ValueOf(b))
  {
    forall c, d ensures XorsDigits(BITS, Xored, c, d) {
      XorDigits(c, d);
    }
    NumXor(BITS, Xored, a, b, 32);
  }

  // ----- Equal low digits -----

  function Masked(a: bv32, mask: bv32): bv32 {
    a & mask
  }

  lemma MaskBits(a: bv32, mask: bv32)
    ensures Half(Masked(a, mask)) == Masked(Half(a), Half(mask))
    ensures mask & 1 == 1 ==> Masked(a, mask) & 1 == a & 1
  {
  }

  lemma MaskDigits(a: bv32, mask: bv32)
    ensures LetsThrough(BITS, Masked, a, mask)
  {
    MaskBits(a, mask);
  }

  lemma FourMoreOnes(mask: bv32, n: nat)
    requires mask & 0xf == 0xf && LowOnes(BITS, mask >> 4, n)
    ensures LowOnes(BITS, mask, n + 4)
  {
    assert mask & 1 == 1 && (mask >> 1) & 1 == 1 && (mask >> 2) & 1 == 1 && (mask >> 3) & 1 == 1;
    assert (mask >> 1) >> 1 == mask >> 2 && (mask >> 2) >> 1 == mask >> 3 && (mask >> 3) >> 1 == mask >> 4;
    assert LowOnes(BITS, mask >> 3, n + 1);
    assert LowOnes(BITS, mask >> 2, n + 2);
    assert LowOnes(BITS, mask >> 1, n + 3);
  }

  lemma ThirtyOneOnes(n: nat)
    requires n == 0
    ensures LowOnes(BITS, 0x7fff_ffff, n + 31)
  {
    assert LowOnes(BITS, 0, n);
    assert LowOnes(BITS, 1, n + 1);
    assert LowOnes(BITS, 3, n + 2);
    assert LowOnes(BITS, 7, n + 3);
    FourMoreOnes(0x7f, n + 3);
    FourMoreOnes(0x7ff, n + 7);
    FourMoreOnes(0x7fff, n + 11);
    FourMoreOnes(0x7_ffff, n + 15);
    FourMoreOnes(0x7f_ffff, n + 19);
    FourMoreOnes(0x7ff_ffff, n + 23);
    FourMoreOnes(0x7fff_ffff, n + 27);
  }

  /** Without its top digit a word agrees with itself below. */
  lemma TailAgrees(a: bv32, b: bv32)
    requires b == a & 0x7fff_ffff
    ensures Agree(BITS, b, a, 31)
  {
    ThirtyOneOnes(0);
    forall c, m ensures LetsThrough(BITS, Masked, c, m) {
      MaskDigits(c, m);
    }
    MaskedAgrees(BITS, Masked, a, 0x7fff_ffff, 31);
  }

  lemma HalfOfAppended(t: bv32, s: bv32, r: bv32)
    requires s <= 1 && r == (t << 1) | s
    ensures Digit(r) == Digit(s) && Half(r) == t & 0x7fff_ffff
  {
  }

  /** A digit put behind a word. */
  lemma AppendedAgrees(t: bv32, s: bv32, r: bv32)
    requires s <= 1 && r == (t << 1) | s
    ensures Digit(r) == Digit(s) && Agree(BITS, Half(r), t, 31)
  {
    HalfOfAppended(t, s, r);
    TailAgrees(t, Half(r));
  }

  // ----- Addition -----

  lemma Halved(a: bv32, x: bv32, i: bv32)
    requires x == a >> 1 && i == a & 1
    ensures a == x + x + i && i <= 1
  {
  }

  lemma AppendIsAdd(t: bv32, s: bv32)
    requires s <= 1
    ensures t + t + s == (t << 1) | s
  {
  }

  lemma SumOfHalves(a: bv32, b: bv32, c: bv32, x: bv32, y: bv32, i: bv32, j: bv32, q: bv32, s: bv32)
    requires a == x + x + i && b == y + y + j && i + j + c == q + q + s
    ensures a + b + c == (x + y + q) + (x + y + q) + s
  {
    calc {
      a + b + c;
      (x + x + i) + b + c;
      (x + x + i) + (y + y + j) + c;
      (x + y) + (x + y) + (i + j + c);
      (x + y) + (x + y) + (q + q + s);
      (x + y + q) + (x + y + q) + s;
    }
  }

  lemma SumAppends(a: bv32, b: bv32, c: bv32, x: bv32, y: bv32, i: bv32, j: bv32, d: bv32, q: bv32, s: bv32, t: bv32)
    requires a == x + x + i && b == y + y + j && d == i + j + c && d == q + q + s && s <= 1 && t == x + y + q
    ensures a + b + c == (t << 1) | s
  {
    calc {
      a + b + c;
      { SumOfHalves(a, b, c, x, y, i, j, q, s); }
      (x + y + q) + (x + y + q) + s;
      t + t + s;
      { AppendIsAdd(t, s); }
      (t << 1) | s;
    }
  }

  /** The sum of two words and a carry is the digit `s` behind the sum `t` of their halves with
      the carry `q`. */
  lemma SumSplits(a: bv32, b: bv32, c: bv32, x: bv32, y: bv32, i: bv32, j: bv32, d: bv32, q: bv32, s: bv32, t: bv32)
    requires x == a >> 1 && y == b >> 1 && i == a & 1 && j == b & 1
    requires d == i + j + c && q == d >> 1 && s == d & 1 && t == x + y + q
    ensures a + b + c == (t << 1) | s
  {
    Halved(a, x, i);
    Halved(b, y, j);
    Halved(d, q, s);
    SumAppends(a, b, c, x, y, i, j, d, q, s, t);
  }

  function Bit32(c: nat): bv32 {
    if c == 0 then 0 else 1
  }

  function Summed(a: bv32, b: bv32, c: nat): bv32 {
    if c == 0 then a + b else a + b + 1
  }

  lemma DigitSums(a: bv32, b: bv32, c: bv32, i: bv32, j: bv32, d: bv32, q: bv32, s: bv32)
    requires c <= 1 && i == a & 1 && j == b & 1 && d == i + j + c && q == d >> 1 && s == d & 1
    ensures s <= 1 && Digit(a) + Digit(b) + Digit(c) == Digit(s) + 2 * Digit(q)
    ensures q == Bit32(Digit(q))
  {
  }

  lemma CarryIsBit(c: nat)
    requires c <= 1
    ensures Bit32(c) <= 1 && Digit(Bit32(c)) == c
  {
  }

  lemma SumAgrees(a: bv32, b: bv32, c: bv32, x: bv32, y: bv32, i: bv32, j: bv32, d: bv32, q: bv32, s: bv32,
                  t: bv32, r: bv32)
    requires c <= 1 && x == a >> 1 && y == b >> 1 && i == a & 1 && j == b & 1
    requires d == i + j + c && q == d >> 1 && s == d & 1 && t == x + y + q && r == a + b + c
    ensures Digit(a) + Digit(b) + Digit(c) == Digit(r) + 2 * Digit(q) && q == Bit32(Digit(q))
    ensures Agree(BITS, Half(r), t, 31)
  {
    DigitSums(a, b, c, i, j, d, q, s);
    SumSplits(a, b, c, x, y, i, j, d, q, s, t);
    AppendedAgrees(t, s, r);
  }

  lemma SumParts(a: bv32, b: bv32, c: bv32) returns (x: bv32, y: bv32, q: bv32, t: bv32, r: bv32)
    requires c <= 1
    ensures x == a >> 1 && y == b >> 1 && t == x + y + q && r == a + b + c
    ensures Digit(a) + Digit(b) + Digit(c) == Digit(r) + 2 * Digit(q) && q == Bit32(Digit(q))
    ensures Agree(BITS, Half(r), t, 31)
  {
    var i, j := a & 1, b & 1;
    var d := i + j + c;
    x, y, q := a >> 1, b >> 1, d >> 1;
    t, r := x + y + q, a + b + c;
    SumAgrees(a, b, c, x, y, i, j, d, q, d & 1, t, r);
  }

  /** `sum` adds with a carry given as a number. */
  predicate IsSum(sum: (bv32, bv32, nat) -> bv32, a: bv32, b: bv32, c: nat, c': bv32, r: bv32) {
    c' == Bit32(c) && r == a + b + c' ==> r == sum(a, b, c)
  }

  lemma SumIs(a: bv32, b: bv32, c: nat, c': bv32, r: bv32)
    requires c' == Bit32(c) && r == a + b + c'
    ensures r == Summed(a, b, c)
  {
    if c == 0 {
      calc {
        r;
        a + b + c';
        a + b + 0;
        a + b;
      }
    } else {
      calc {
        r;
        a + b + c';
        a + b + 1;
      }
    }
  }

  lemma UseSum(sum: (bv32, bv32, nat) -> bv32, a: bv32, b: bv32, c: nat, c': bv32, r: bv32)
    requires forall a', b', c'', d, r' :: IsSum(sum, a', b', c'', d, r')
    requires c' == Bit32(c) && r == a + b + c'
    ensures r == sum(a, b, c)
  {
    assert IsSum(sum, a, b, c, c', r);
  }

  lemma SumAddsDigits(sum: (bv32, bv32, nat) -> bv32, a: bv32, b: bv32, c: nat)
    requires forall a', b', c', d, r :: IsSum(sum, a', b', c', d, r)
    ensures AddsDigits(BITS, sum, a, b, c, 31)
  {
    if c <= 1 {
      CarryIsBit(c);
      var c' := Bit32(c);
      var x, y, q, t, r := SumParts(a, b, c');
      UseSum(sum, a, b, c, c', r);
      UseSum(sum, x, y, Digit(q), q, t);
      DigitsAdd(BITS, sum, a, b, c, x, y, Digit(q), t, r, 31);
    }
  }

  lemma DigitsAdd<W>(v: View<W>, sum: (W, W, nat) -> W, a: W, b: W, c: nat, x: W, y: W, q: nat, t: W, r: W, m: nat)
    requires x == v.rest(a) && y == v.rest(b) && r == sum(a, b, c) && t == sum(x, y, q)
    requires v.digit(a) <= 1 && v.digit(b) <= 1 && v.digit(r) <= 1 && q <= 1
    requires v.digit(a) + v.digit(b) + c == v.digit(r) + 2 * q && Agree(v, v.rest(r), t, m)
    ensures AddsDigits(v, sum, a, b, c, m)
  {
  }

  lemma WrappedSum(x: uint32, y: uint32, z: uint32, out: nat)
    requires z + out == x + y && (out == 0 || out == TWO_32)
    ensures z == Add32(x, y)
  {
  }

  /** Addition of machine words is addition with wrap-around. */
  lemma ValueOfSum(a: bv32, b: bv32)
    ensures ValueOf(a + b) == Add32(ValueOf(a), ValueOf(b))
  {
    var sum: (bv32, bv32, nat) -> bv32 := Summed;
    forall a', b', c', d, r ensures IsSum(sum, a', b', c', d, r) {
      if d == Bit32(c') && r == a' + b' + d {
        SumIs(a', b', c', d, r);
      }
    }
    forall a', b', c' ensures AddsDigits(BITS, sum, a', b', c', 31) {
      SumAddsDigits(sum, a', b', c');
    }
    var out := NumSum(BITS, sum, a, b, 0, 31, 32);
    NoCarry(a, b);
    Pow2Widths();
    WrappedSum(ValueOf(a), ValueOf(b), ValueOf(Summed(a, b, 0)), out);
  }

  lemma NoCarry(a: bv32, b: bv32)
    ensures Summed(a, b, 0) == a + b
  {
  }

  // ----- Rotation -----

  /** One digit less in each step. */
  predicate StepsBack(f: nat -> bv32, n: nat) {
    f(n + 1) == f(n) >> 1
  }

  lemma BackOne(f: nat -> bv32, n: nat)
    requires forall k :: StepsBack(f, k)
    ensures f(n + 1) == f(n) >> 1
  {
    assert StepsBack(f, n);
  }

  lemma BackTwo(f: nat -> bv32, n: nat)
    requires forall k :: StepsBack(f, k)
    ensures f(n + 2) == f(n) >> 2
  {
    BackOne(f, n);
    BackOne(f, n + 1);
  }

  lemma BackFour(f: nat -> bv32, n: nat)
    requires forall k :: StepsBack(f, k)
    ensures f(n + 4) == f(n) >> 4
  {
    BackTwo(f, n);
    BackTwo(f, n + 2);
  }

  lemma BackEight(f: nat -> bv32, n: nat)
    requires forall k :: StepsBack(f, k)
    ensures f(n + 8) == f(n) >> 8
  {
    BackFour(f, n);
    BackFour(f, n + 4);
  }

  lemma BackSixteen(f: nat -> bv32, n: nat)
    requires forall k :: StepsBack(f, k)
    ensures f(n + 16) == f(n) >> 16
  {
    BackEight(f, n);
    BackEight(f, n + 8);
  }

  lemma BackThirtyOne(f: nat -> bv32, a: bv32)
    requires f(0) == a && forall n :: StepsBack(f, n)
    ensures f(31) == a >> 31
  {
    BackSixteen(f, 0);
    BackEight(f, 16);
    BackFour(f, 24);
    BackTwo(f, 28);
    BackOne(f, 30);
    assert (a >> 16) >> 8 == a >> 24 && (a >> 24) >> 4 == a >> 28 && (a >> 28) >> 2 == a >> 30;
  }

  lemma RestNext<W>(v: View<W>, w: W, n: nat)
    ensures Rest(v, w, n + 1) == v.rest(Rest(v, w, n))
  {
    RestAdd(v, w, n, 1);
    assert Rest(v, v.rest(Rest(v, w, n)), 0) == v.rest(Rest(v, w, n));
  }

  lemma TopRest(a: bv32)
    ensures Rest(BITS, a, 31) == a >> 31
  {
    var f: nat -> bv32 := (n: nat) => Rest(BITS, a, n);
    forall n ensures StepsBack(f, n) {
      RestNext(BITS, a, n);
    }
    BackThirtyOne(f, a);
  }

  function RotateOne(a: bv32): bv32 {
    (a << 1) | (a >> 31)
  }

  lemma TopDigit(a: bv32)
    ensures a >> 31 <= 1
  {
  }

  lemma RotatedIsTurned(a: bv32, r: bv32, m: nat)
    requires r == RotateOne(a) && m == 31
    ensures TurnedOnce(BITS, a, r, m)
  {
    TopDigit(a);
    TopRest(a);
    AppendedAgrees(a, a >> 31, r);
  }

  lemma ValueTurned(a: bv32, r: bv32, x: uint32, y: uint32, m: nat)
    requires m == 31 && TurnedOnce(BITS, a, r, m) && x == Num(BITS, a, m + 1) && y == Num(BITS, r, m + 1)
    ensures y == RotateLeft32(x, 1)
  {
    NumTurned(BITS, a, r, m);
    OneTurn(x, y, m + 1);
  }

  lemma ValueOfRotatedOnce(a: bv32, r: bv32)
    requires r == RotateOne(a)
    ensures ValueOf(r) == RotateLeft32(ValueOf(a), 1)
  {
    var m := 31;
    RotatedIsTurned(a, r, m);
    ValueTurned(a, r, ValueOf(a), ValueOf(r), m);
  }

  lemma OneTurn(x: uint32, y: uint32, w: nat)
    requires w == 32 && x < Pow2(w) && y == RotateLeft(x, 1, w)
    ensures y == RotateLeft32(x, 1)
  {
  }

  lemma PlaceTwice(i: nat, r: nat, q: nat, w: nat)
    requires w > 0
    ensures ((i - q) % w - r) % w == (i - (r + q)) % w
  {
    AddMod(i - q, 0 - r, w);
  }

  lemma BitTurnedTwice(x: uint32, y: uint32, z: uint32, u: uint32, r: nat, q: nat, i: nat)
    requires i < 32 && y == RotateLeft32(x, r) && z == RotateLeft32(y, q) && u == RotateLeft32(x, r + q)
    ensures Bit(z, i) <==> Bit(u, i)
  {
    PlaceTwice(i, r, q, 32);
    Rotate32Bits(y, q, i);
    Rotate32Bits(x, r, (i - q) % 32);
    Rotate32Bits(x, r + q, i);
  }

  lemma RotateTwice(x: uint32, r: nat, q: nat)
    ensures RotateLeft32(RotateLeft32(x, r), q) == RotateLeft32(x, r + q)
  {
    var y := RotateLeft32(x, r);
    var z, u := RotateLeft32(y, q), RotateLeft32(x, r + q);
    forall i: nat | i < 32 ensures Bit(z, i) <==> Bit(u, i) {
      BitTurnedTwice(x, y, z, u, r, q, i);
    }
    Pow2Widths();
    SameBits(z, u, 32);
  }

  /** `rot` turns machine words by `r` places. */
  predicate Turns(val: bv32 -> uint32, rot: bv32 -> bv32, r: nat, a: bv32) {
    val(rot(a)) == RotateLeft32(val(a), r)
  }

  /** `rot` is `second` after `first`. */
  predicate Composes(first: bv32 -> bv32, second: bv32 -> bv32, rot: bv32 -> bv32, a: bv32) {
    second(first(a)) == rot(a)
  }

  lemma TurnsBoth(val: bv32 -> uint32, first: bv32 -> bv32, second: bv32 -> bv32, rot: bv32 -> bv32,
                  r: nat, q: nat, a: bv32)
    requires Turns(val, first, r, a) && Turns(val, second, q, first(a)) && Composes(first, second, rot, a)
    ensures Turns(val, rot, r + q, a)
  {
    RotateTwice(val(a), r, q);
  }

  // The rotations of the cipher, spelled with shifts, and those they are composed of.

  function RotateTwo(a: bv32): bv32 {
    (a << 2) | (a >> 30)
  }

  function RotateThree(a: bv32): bv32 {
    (a << 3) | (a >> 29)
  }

  function RotateFive(a: bv32): bv32 {
    (a << 5) | (a >> 27)
  }

  function RotateSeven(a: bv32): bv32 {
    (a << 7) | (a >> 25)
  }

  function RotateEight(a: bv32): bv32 {
    (a << 8) | (a >> 24)
  }

  function RotateThirteen(a: bv32): bv32 {
    (a << 13) | (a >> 19)
  }

  function RotateSixteen(a: bv32): bv32 {
    (a << 16) | (a >> 16)
  }

  lemma TwoComposed(a: bv32)
    ensures RotateOne(RotateOne(a)) == RotateTwo(a)
  {
  }

  lemma ThreeComposed(a: bv32)
    ensures RotateOne(RotateTwo(a)) == RotateThree(a)
  {
  }

  lemma FiveComposed(a: bv32)
    ensures RotateTwo(RotateThree(a)) == RotateFive(a)
  {
  }

  lemma SevenComposed(a: bv32)
    ensures RotateTwo(RotateFive(a)) == RotateSeven(a)
  {
  }

  lemma EightComposed(a: bv32)
    ensures RotateOne(RotateSeven(a)) == RotateEight(a)
  {
  }

  lemma ThirteenComposed(a: bv32)
    ensures RotateFive(RotateEight(a)) == RotateThirteen(a)
  {
  }

  lemma SixteenComposed(a: bv32)
    ensures RotateEight(RotateEight(a)) == RotateSixteen(a)
  {
  }

  /** A rotation that is composed of two turns by the sum of their distances. */
  lemma AddTurns(val: bv32 -> uint32, first: bv32 -> bv32, second: bv32 -> bv32, rot: bv32 -> bv32,
                 r: nat, q: nat, n: nat)
    requires n == r + q
    requires forall a :: Turns(val, first, r, a)
    requires forall a :: Turns(val, second, q, a)
    requires forall a :: Composes(first, second, rot, a)
    ensures forall a :: Turns(val, rot, n, a)
  {
    forall a ensures Turns(val, rot, n, a) {
      assert Turns(val, first, r, a) && Turns(val, second, q, first(a)) && Composes(first, second, rot, a);
      TurnsBoth(val, first, second, rot, r, q, a);
    }
  }

  lemma RotationsTurn(val: bv32 -> uint32)
    requires forall a :: Turns(val, RotateOne, 1, a)
    ensures forall a :: Turns(val, RotateFive, 5, a)
    ensures forall a :: Turns(val, RotateSeven, 7, a)
    ensures forall a :: Turns(val, RotateEight, 8, a)
    ensures forall a :: Turns(val, RotateThirteen, 13, a)
    ensures forall a :: Turns(val, RotateSixteen, 16, a)
  {
    forall a ensures Composes(RotateOne, RotateOne, RotateTwo, a) {
      TwoComposed(a);
    }
    forall a ensures Composes(RotateTwo, RotateOne, RotateThree, a) {
      ThreeComposed(a);
    }
    forall a ensures Composes(RotateThree, RotateTwo, RotateFive, a) {
      FiveComposed(a);
    }
    forall a ensures Composes(RotateFive, RotateTwo, RotateSeven, a) {
      SevenComposed(a);
    }
    forall a ensures Composes(RotateSeven, RotateOne, RotateEight, a) {
      EightComposed(a);
    }
    forall a ensures Composes(RotateEight, RotateFive, RotateThirteen, a) {
      ThirteenComposed(a);
    }
    forall a ensures Composes(RotateEight, RotateEight, RotateSixteen, a) {
      SixteenComposed(a);
    }
    AddTurns(val, RotateOne, RotateOne, RotateTwo, 1, 1, 2);
    AddTurns(val, RotateTwo, RotateOne, RotateThree, 2, 1, 3);
    AddTurns(val, RotateThree, RotateTwo, RotateFive, 3, 2, 5);
    AddTurns(val, RotateFive, RotateTwo, RotateSeven, 5, 2, 7);
    AddTurns(val, RotateSeven, RotateOne, RotateEight, 7, 1, 8);
    AddTurns(val, RotateEight, RotateFive, RotateThirteen, 8, 5, 13);
    AddTurns(val, RotateEight, RotateEight, RotateSixteen, 8, 8, 16);
  }

  /** A rotated machine word has the rotated value. */
  lemma ValueOfRotated(val: bv32 -> uint32)
    requires forall a :: val(a) == ValueOf(a)
    ensures forall a :: Turns(val, RotateFive, 5, a)
    ensures forall a :: Turns(val, RotateSeven, 7, a)
    ensures forall a :: Turns(val, RotateEight, 8, a)
    ensures forall a :: Turns(val, RotateThirteen, 13, a)
    ensures forall a :: Turns(val, RotateSixteen, 16, a)
  {
    forall b ensures Turns(val, RotateOne, 1, b) {
      ValueOfRotatedOnce(b, RotateOne(b));
    }
    RotationsTurn(val);
  }

  // ----- Every number has a machine word -----

  function Appended(t: bv32, d: nat): bv32 {
    (t << 1) | Bit32(d)
  }

  lemma AppendDigits(t: bv32, d: nat)
    ensures Appends(BITS, Appended, t, d, 31)
  {
    if d <= 1 {
      CarryIsBit(d);
      AppendedAgrees(t, Bit32(d), Appended(t, d));
    }
  }

  /** The machine word with a given value. */
  function WordOf(x: uint32): (a: bv32)
    ensures ValueOf(a) == x
  {
    WordMade(x);
    Make(Appended, 0, x, 32)
  }

  lemma WordMade(x: uint32)
    ensures Num(BITS, Make(Appended, 0, x, 32), 32) == x
  {
    forall t, d ensures Appends(BITS, Appended, t, d, 31) {
      AppendDigits(t, d);
    }
    NumMade(BITS, Appended, 0, x, 31, 32);
    Pow2Widths();
    LowOfSmall(x, 32);
  }

  // ----- Reading a machine word off -----

  function Nibble(a: bv32): nat {
    (if a & 1 == 1 then 1 else 0) + (if a & 2 == 2 then 2 else 0)
    + (if a & 4 == 4 then 4 else 0) + (if a & 8 == 8 then 8 else 0)
  }

  predicate StepsByNibble(f: (bv32, nat) -> nat, a: bv32, n: nat) {
    f(a, n + 4) == Nibble(a) + 16 * f(a >> 4, n)
  }

  lemma NibbleDigits(a: bv32)
    ensures Nibble(a) == Digit(a) + 2 * Digit(a >> 1) + 4 * Digit(a >> 2) + 8 * Digit(a >> 3)
    ensures (a >> 1) >> 1 == a >> 2 && (a >> 2) >> 1 == a >> 3 && (a >> 3) >> 1 == a >> 4
  {
  }

  lemma FourDigits<W>(v: View<W>, a: W, b: W, c: W, d: W, e: W, n: nat)
    requires b == v.rest(a) && c == v.rest(b) && d == v.rest(c) && e == v.rest(d)
    ensures Num(v, a, n + 4) == v.digit(a) + 2 * v.digit(b) + 4 * v.digit(c) + 8 * v.digit(d) + 16 * Num(v, e, n)
  {
    assert Num(v, c, n + 2) == v.digit(c) + 2 * Num(v, d, n + 1);
  }

  function NumOf(a: bv32, n: nat): nat {
    Num(BITS, a, n)
  }

  lemma NumByNibble(a: bv32, n: nat)
    ensures StepsByNibble(NumOf, a, n)
  {
    NibbleDigits(a);
    FourDigits(BITS, a, a >> 1, a >> 2, a >> 3, a >> 4, n);
  }

  lemma NibbleShifts(a: bv32)
    ensures a >> 8 == (a >> 4) >> 4 && a >> 12 == (a >> 8) >> 4 && a >> 16 == (a >> 12) >> 4
    ensures a >> 20 == (a >> 16) >> 4 && a >> 24 == (a >> 20) >> 4 && a >> 28 == (a >> 24) >> 4
  {
  }

  lemma EightNibbles(f: (bv32, nat) -> nat, a: bv32)
    requires forall b, n :: StepsByNibble(f, b, n)
    ensures f(a, 32) == Nibble(a) + 0x10 * Nibble(a >> 4) + 0x100 * Nibble(a >> 8) + 0x1000 * Nibble(a >> 12)
                        + 0x1_0000 * Nibble(a >> 16) + 0x10_0000 * Nibble(a >> 20)
                        + 0x100_0000 * Nibble(a >> 24) + 0x1000_0000 * Nibble(a >> 28)
                        + 0x1_0000_0000 * f((a >> 28) >> 4, 0)
  {
    NibbleShifts(a);
    assert StepsByNibble(f, a, 28) && StepsByNibble(f, a >> 4, 24) && StepsByNibble(f, a >> 8, 20);
    assert StepsByNibble(f, a >> 12, 16) && StepsByNibble(f, a >> 16, 12) && StepsByNibble(f, a >> 20, 8);
    assert StepsByNibble(f, a >> 24, 4) && StepsByNibble(f, a >> 28, 0);
  }

  /** The value of a machine word from its hexadecimal digits. */
  lemma ValueInNibbles(a: bv32)
    ensures ValueOf(a) == Nibble(a) + 0x10 * Nibble(a >> 4) + 0x100 * Nibble(a >> 8) + 0x1000 * Nibble(a >> 12)
                          + 0x1_0000 * Nibble(a >> 16) + 0x10_0000 * Nibble(a >> 20)
                          + 0x100_0000 * Nibble(a >> 24) + 0x1000_0000 * Nibble(a >> 28)
  {
    var f: (bv32, nat) -> nat := NumOf;
    forall b, n ensures StepsByNibble(f, b, n) {
      NumByNibble(b, n);
    }
    EightNibbles(f, a);
  }
}
