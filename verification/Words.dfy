/** Machine words as natural numbers: powers of two, the bitwise operators the firmware
    uses, and the algebra of those operators that every other module relies on.

    Wrap-around is always written out as a remainder. */
module Words {

  const TWO_32 := 0x1_0000_0000
  const TWO_64 := 0x1_0000_0000_0000_0000

  type uint8 = x: nat | x < 0x100
  type uint16 = x: nat | x < 0x1_0000
  type uint32 = x: nat | x < TWO_32
  type uint64 = x: nat | x < TWO_64

  function Pow2(n: nat): (p: nat)
    ensures 1 <= p
  {
    if n == 0 then 1 else 2 * Pow2(n - 1)
  }

  lemma {:induction false} Pow2Add(m: nat, n: nat)
    ensures Pow2(m + n) == Pow2(m) * Pow2(n)
  {
    if m > 0 {
      Pow2Add(m - 1, n);
      assert 2 * (Pow2(m - 1) * Pow2(n)) == (2 * Pow2(m - 1)) * Pow2(n);
    }
  }

  lemma {:induction false} Pow2Monotone(m: nat, n: nat)
    requires m <= n
    ensures Pow2(m) <= Pow2(n)
    ensures m < n ==> 2 * Pow2(m) <= Pow2(n)
  {
    if m < n {
      Pow2Monotone(m, n - 1);
    }
  }

  /** The values of `Pow2` at the widths the C code uses. */
  lemma Pow2Widths()
    ensures Pow2(8) == 0x100 && Pow2(16) == 0x1_0000
    ensures Pow2(32) == TWO_32 && Pow2(64) == TWO_64
  {
    assert Pow2(4) == 16;
    Pow2Add(4, 4);
    Pow2Add(8, 8);
    Pow2Add(16, 16);
    Pow2Add(32, 32);
  }

  // ----- Division and remainder -----

  lemma MulDistributes(a: int, x: int, y: int)
    ensures a * (x + y) == a * x + a * y
    ensures (x + y) * a == x * a + y * a
  {
  }

  lemma MulAssociates(a: int, x: int, y: int)
    ensures a * (x * y) == (a * x) * y
  {
  }

  lemma MulAtLeast(k: int, m: int)
    requires m >= 0
    ensures k >= 1 ==> k * m >= m
    ensures k <= -1 ==> k * m <= -m
  {
    if k >= 1 {
      assert (k - 1) * m >= 0;
    } else if k <= -1 {
      assert (-1 - k) * m >= 0;
    }
  }

  lemma SmallMultiple(k: int, m: int, d: int)
    requires k * m == d && -m < d < m
    ensures k == 0
  {
    MulAtLeast(k, m);
  }

  /** Quotient and remainder are determined by the division equation. */
  lemma DivModUnique(x: int, m: int, q: int, r: int)
    requires x == q * m + r && 0 <= r < m
    ensures x / m == q && x % m == r
  {
    var a, b := x / m, x % m;
    assert x == a * m + b;
    assert (a - q) * m == a * m - q * m;
    SmallMultiple(a - q, m, r - b);
  }

  lemma ModAddMultiple(x: int, k: int, m: int)
    requires m > 0
    ensures (x + k * m) % m == x % m
    ensures (x + k * m) / m == x / m + k
  {
    assert (x / m + k) * m == (x / m) * m + k * m;
    DivModUnique(x + k * m, m, x / m + k, x % m);
  }

  /** Congruence is the same as differing by a multiple of the modulus. */
  lemma CongruentIff(x: int, y: int, m: int)
    requires m > 0
    ensures x % m == y % m <==> (x - y) % m == 0
  {
    var k, d := x / m - y / m, x % m - y % m;
    assert x - y == d + k * m by {
      assert k * m == (x / m) * m - (y / m) * m;
    }
    ModAddMultiple(d, k, m);
    MultipleInRange(d, m);
  }

  lemma MultipleInRange(d: int, m: int)
    requires -m < d < m
    ensures d % m == 0 <==> d == 0
  {
    if d % m == 0 {
      SmallMultiple(d / m, m, d);
    }
  }

  lemma SmallMod(x: nat, m: nat)
    requires x < m
    ensures x % m == x
  {
    DivModUnique(x, m, 0, x);
  }

  lemma MulMod(x: int, y: int, m: int)
    requires m > 0
    ensures ((x % m) * y) % m == (x * y) % m
  {
    assert x * y == (x % m) * y + ((x / m) * y) * m by {
      assert x == (x / m) * m + x % m;
      assert ((x / m) * m + x % m) * y == ((x / m) * m) * y + (x % m) * y;
      assert ((x / m) * m) * y == ((x / m) * y) * m;
    }
    ModAddMultiple((x % m) * y, (x / m) * y, m);
  }

  lemma AddMod(x: int, y: int, m: int)
    requires m > 0
    ensures (x % m + y) % m == (x + y) % m
    ensures (y + x % m) % m == (y + x) % m
  {
    ModAddMultiple(x % m + y, x / m, m);
  }

  lemma HalfDiv(x: nat, b: nat)
    requires b > 0
    ensures x / 2 / b == x / (2 * b)
  {
    var q, s := x / 2 / b, x / 2 % b;
    assert q * (2 * b) == 2 * (q * b);
    DivModUnique(x, 2 * b, q, 2 * s + x % 2);
  }

  // ----- Shifts -----

  /** `x >> k`. */
  function Shr(x: nat, k: nat): (r: nat)
    ensures r <= x
    decreases k, x
  {
    if k == 0 then x else Shr(x / 2, k - 1)
  }

  /** `x << k` before truncation to the word. */
  function Scale(x: nat, k: nat): nat {
    if k == 0 then x else 2 * Scale(x, k - 1)
  }

  /** The low `w` bits of `x`: what is left of it in a `w`-bit word. */
  function Low(x: nat, w: nat): (r: nat)
    ensures r <= x
  {
    if w == 0 then 0 else 2 * Low(x / 2, w - 1) + x % 2
  }

  /** `x << k` in a `w`-bit word. */
  function Shl(x: nat, k: nat, w: nat): nat {
    Low(Scale(x, k), w)
  }

  /** A right shift is division by a power of two. */
  lemma {:induction false} ShrIsDiv(x: nat, k: nat)
    ensures Shr(x, k) == x / Pow2(k)
    decreases k
  {
    if k > 0 {
      ShrIsDiv(x / 2, k - 1);
      HalfDiv(x, Pow2(k - 1));
    }
  }

  lemma {:induction false} ShrAdd(x: nat, m: nat, n: nat)
    ensures Shr(Shr(x, m), n) == Shr(x, m + n)
    decreases m
  {
    if m > 0 {
      ShrAdd(x / 2, m - 1, n);
    }
  }

  lemma {:induction false} ShrBound(x: nat, m: nat, n: nat)
    requires x < Pow2(m + n)
    ensures Shr(x, n) < Pow2(m)
    decreases n
  {
    if n > 0 {
      ShrBound(x / 2, m, n - 1);
    }
  }

  lemma {:induction false} ShrZero(k: nat)
    ensures Shr(0, k) == 0
  {
    if k > 0 {
      ShrZero(k - 1);
    }
  }

  /** A left shift is multiplication by a power of two. */
  lemma {:induction false} ScaleIsMul(x: nat, k: nat)
    ensures Scale(x, k) == x * Pow2(k)
  {
    if k > 0 {
      ScaleIsMul(x, k - 1);
      var p := Pow2(k - 1);
      assert x * (2 * p) == 2 * (x * p);
    }
  }

  lemma DoubledDivision(x: nat, p: nat)
    requires p > 0
    ensures 2 * (x / 2 % p) + x % 2 == x % (2 * p)
  {
    var q, r := x / 2 / p, x / 2 % p;
    MulAssociates(q, 2, p);
    MulAssociates(2, q, p);
    assert x / 2 == q * p + r;
    DivModUnique(x, 2 * p, q, 2 * r + x % 2);
  }

  /** Remainder and quotient by a factor of the modulus survive reduction. */
  lemma ModFactor(x: int, m: int, n: int)
    requires m > 0 && n > 0
    ensures m * n > 0
    ensures (x % (m * n)) % m == x % m
    ensures (x % (m * n)) / m == x / m % n
  {
    var u, q := x / m, x % m;
    var v, r := u / n, u % n;
    ProductPositive(m, n);
    RemainderFitsFactor(m, n, r, q);
    MulDistributes(m, n * v, r);
    MulAssociates(m, n, v);
    assert x == v * (m * n) + (m * r + q);
    DivModUnique(x, m * n, v, m * r + q);
    DivModUnique(m * r + q, m, r, q);
  }

  lemma ProductPositive(m: int, n: int)
    requires m > 0 && n > 0
    ensures m * n > 0
  {
  }

  lemma RemainderFitsFactor(m: int, n: int, r: int, q: int)
    requires 0 <= r < n && 0 <= q < m
    ensures 0 <= m * r + q < m * n
  {
    MulDistributes(m, r, n - r);
    MulAtLeast(n - r, m);
    MulAtLeast(r, m);
  }

  /** Truncation to a word is remainder by a power of two. */
  lemma {:induction false} LowIsMod(x: nat, w: nat)
    ensures Low(x, w) == x % Pow2(w) < Pow2(w)
  {
    if w > 0 {
      LowIsMod(x / 2, w - 1);
      DoubledDivision(x, Pow2(w - 1));
    }
  }

  lemma LowParity(x: nat, w: nat)
    requires w > 0
    ensures Low(x, w) % 2 == x % 2
  {
  }

  lemma ShlOne(x: nat, w: nat)
    requires w > 0
    ensures Shl(x, 1, w) == 2 * Low(x, w - 1)
  {
    assert Scale(x, 0) == x && Scale(x, 1) == 2 * x;
  }

  lemma {:induction false} ScaleSum(x: nat, y: nat, k: nat)
    ensures Scale(x + y, k) == Scale(x, k) + Scale(y, k)
  {
    if k > 0 {
      ScaleSum(x, y, k - 1);
    }
  }

  lemma {:induction false} ScaleScale(x: nat, m: nat, n: nat)
    ensures Scale(Scale(x, m), n) == Scale(x, m + n)
  {
    if n > 0 {
      ScaleScale(x, m, n - 1);
    }
  }

  lemma {:induction false} ScaleBound(hi: nat, lo: nat, m: nat, n: nat)
    requires hi < Pow2(m) && lo < Pow2(n)
    ensures Scale(hi, n) + lo < Pow2(m + n)
  {
    if n > 0 {
      ScaleBound(hi, lo / 2, m, n - 1);
    }
  }

  lemma HalfOfSum(a: int, b: int)
    ensures (2 * a + b) / 2 == a + b / 2 && (2 * a + b) % 2 == b % 2
  {
  }

  lemma {:induction false} LowOfScaled(hi: nat, lo: nat, w: nat)
    requires lo < Pow2(w)
    ensures Low(Scale(hi, w) + lo, w) == lo
  {
    if w > 0 {
      LowOfScaled(hi, lo / 2, w - 1);
      HalfOfSum(Scale(hi, w - 1), lo);
    }
  }

  /** The low `n` bits and the bits above them make up the word. */
  lemma {:induction false} SplitLow(x: nat, n: nat)
    ensures x == Scale(Shr(x, n), n) + Low(x, n) && Low(x, n) < Pow2(n)
  {
    if n > 0 {
      SplitLow(x / 2, n - 1);
    }
  }

  lemma {:induction false} FitsIffShrZero(x: nat, n: nat)
    ensures x < Pow2(n) <==> Shr(x, n) == 0
  {
    if n > 0 {
      FitsIffShrZero(x / 2, n - 1);
    }
  }

  lemma FitsShr(x: nat, n: nat, k: nat)
    requires x < Pow2(n) && n <= k
    ensures Shr(x, k) == 0
  {
    FitsIffShrZero(x, n);
    ShrAdd(x, n, k - n);
    ShrZero(k - n);
  }

  lemma {:induction false} LowOfSmall(x: nat, n: nat)
    requires x < Pow2(n)
    ensures Low(x, n) == x
  {
    if n > 0 {
      LowOfSmall(x / 2, n - 1);
    }
  }

  // ----- Exclusive or -----

  function Xor(x: nat, y: nat): nat
    decreases x + y
  {
    if x == 0 && y == 0 then 0
    else 2 * Xor(x / 2, y / 2) + (if x % 2 == y % 2 then 0 else 1)
  }

  predicate Bit(x: nat, i: nat) {
    Shr(x, i) % 2 == 1
  }

  /** What exclusive or means: it compares the operands bit by bit. */
  lemma {:induction false} XorBits(x: nat, y: nat, i: nat)
    ensures Bit(Xor(x, y), i) <==> (Bit(x, i) != Bit(y, i))
  {
    if i > 0 {
      XorBits(x / 2, y / 2, i - 1);
      assert Xor(x, y) / 2 == Xor(x / 2, y / 2);
    }
  }

  lemma {:induction false} XorComm(x: nat, y: nat)
    ensures Xor(x, y) == Xor(y, x)
    decreases x + y
  {
    if x != 0 || y != 0 {
      XorComm(x / 2, y / 2);
    }
  }

  lemma {:induction false} XorAssoc(x: nat, y: nat, z: nat)
    ensures Xor(Xor(x, y), z) == Xor(x, Xor(y, z))
    decreases x + y + z
  {
    if x != 0 || y != 0 || z != 0 {
      XorAssoc(x / 2, y / 2, z / 2);
      assert Xor(x, y) / 2 == Xor(x / 2, y / 2);
      assert Xor(y, z) / 2 == Xor(y / 2, z / 2);
    }
  }

  lemma {:induction false} XorZero(x: nat)
    ensures Xor(x, 0) == x && Xor(0, x) == x
  {
    if x != 0 {
      XorZero(x / 2);
    }
  }

  lemma {:induction false} XorSelf(x: nat)
    ensures Xor(x, x) == 0
  {
    if x != 0 {
      XorSelf(x / 2);
    }
  }

  /** Exclusive or with the same word twice changes nothing. */
  lemma XorCancel(x: nat, y: nat)
    ensures Xor(Xor(x, y), y) == x
    ensures Xor(y, Xor(y, x)) == x
  {
    XorAssoc(x, y, y);
    XorAssoc(y, y, x);
    XorSelf(y);
    XorZero(x);
  }

  lemma {:induction false} XorBound(x: nat, y: nat, w: nat)
    requires x < Pow2(w) && y < Pow2(w)
    ensures Xor(x, y) < Pow2(w)
  {
    if w > 0 {
      XorBound(x / 2, y / 2, w - 1);
    }
  }

  /** A right shift distributes over exclusive or. */
  lemma {:induction false} XorShr(x: nat, y: nat, k: nat)
    ensures Shr(Xor(x, y), k) == Xor(Shr(x, k), Shr(y, k))
    decreases k
  {
    if k > 0 {
      XorShr(x / 2, y / 2, k - 1);
      assert Xor(x, y) / 2 == Xor(x / 2, y / 2);
    }
  }

  function Xor32(x: uint32, y: uint32): (r: uint32)
    ensures r == Xor(x, y)
  {
    Pow2Widths();
    XorBound(x, y, 32);
    Xor(x, y)
  }

  // ----- Inclusive or and rotation -----

  function Or(x: nat, y: nat): nat
    decreases x + y
  {
    if x == 0 && y == 0 then 0
    else 2 * Or(x / 2, y / 2) + (if x % 2 == 0 && y % 2 == 0 then 0 else 1)
  }

  lemma {:induction false} OrZero(x: nat)
    ensures Or(x, 0) == x && Or(0, x) == x && Or(x, x) == x
  {
    if x != 0 {
      OrZero(x / 2);
    }
  }

  lemma OrStep(x: nat, y: nat)
    ensures Or(2 * x, y) == 2 * Or(x, y / 2) + y % 2
    ensures Or(y, 2 * x) == 2 * Or(y / 2, x) + y % 2
  {
  }

  /** Or-ing fields that do not overlap is adding them. */
  lemma {:induction false} OrDisjoint(hi: nat, lo: nat, k: nat)
    requires lo < Pow2(k)
    ensures Or(Scale(hi, k), lo) == Scale(hi, k) + lo
    ensures Or(lo, Scale(hi, k)) == Scale(hi, k) + lo
  {
    if k == 0 {
      OrZero(hi);
    } else {
      OrDisjoint(hi, lo / 2, k - 1);
      OrStep(Scale(hi, k - 1), lo);
    }
  }

  lemma OrOne(x: nat)
    ensures Or(x, 1) == (if x % 2 == 0 then x + 1 else x)
  {
    OrZero(x / 2);
  }

  /** `-r` modulo the word width, the companion shift of a rotation by `r`. */
  function Opposite(r: nat, w: nat): nat
    requires r < w
  {
    if r == 0 then 0 else w - r
  }

  /** Rotation to the left by `r` places in a `w`-bit word, as the C code spells it. */
  function RotateLeft(x: nat, r: nat, w: nat): nat
    requires r < w && x < Pow2(w)
  {
    Or(Shl(x, r, w), Shr(x, Opposite(r, w)))
  }

  /** Rotation to the right by `r` places in a `w`-bit word, as the C code spells it. */
  function RotateRight(x: nat, r: nat, w: nat): nat
    requires r < w && x < Pow2(w)
  {
    Or(Shr(x, r), Shl(x, Opposite(r, w), w))
  }

  /** `x` has the `m` high bits `hi` and the `n` low bits `lo`. */
  ghost predicate Parts(x: nat, hi: nat, lo: nat, m: nat, n: nat) {
    hi < Pow2(m) && lo < Pow2(n) && x == Scale(hi, n) + lo
  }

  lemma {:induction false} ShrParts(hi: nat, lo: nat, k: nat)
    requires lo < Pow2(k)
    ensures Shr(Scale(hi, k) + lo, k) == hi
  {
    if k > 0 {
      ShrParts(hi, lo / 2, k - 1);
    }
  }

  lemma ScaleConcat(hi: nat, lo: nat, m: nat, r: nat)
    ensures Scale(Scale(hi, m) + lo, r) == Scale(hi, m + r) + Scale(lo, r)
  {
    ScaleSum(Scale(hi, m), lo, r);
    ScaleScale(hi, m, r);
  }

  lemma ScaleFits(lo: nat, m: nat, r: nat)
    requires lo < Pow2(m)
    ensures Scale(lo, r) < Pow2(m + r)
  {
    ScaleBound(lo, 0, m, r);
  }

  lemma ShlParts(hi: nat, lo: nat, m: nat, r: nat)
    requires lo < Pow2(m)
    ensures Shl(Scale(hi, m) + lo, r, m + r) == Scale(lo, r)
  {
    ScaleConcat(hi, lo, m, r);
    ScaleFits(lo, m, r);
    LowOfScaled(hi, Scale(lo, r), m + r);
  }

  lemma {:induction false} SplitWord(x: nat, m: nat, n: nat) returns (hi: nat, lo: nat)
    requires x < Pow2(m + n)
    ensures Parts(x, hi, lo, m, n)
  {
    if n == 0 {
      hi, lo := x, 0;
    } else {
      var l;
      hi, l := SplitWord(x / 2, m, n - 1);
      lo := 2 * l + x % 2;
    }
  }

  /** A rotation to the left by `r` exchanges the top `r` bits with the rest. */
  lemma RotateLeftParts(x: nat, y: nat, hi: nat, lo: nat, r: nat, w: nat)
    requires 0 < r < w && Parts(x, hi, lo, r, w - r) && Parts(y, lo, hi, w - r, r)
    ensures x < Pow2(w) && RotateLeft(x, r, w) == y
  {
    ScaleBound(hi, lo, r, w - r);
    ShlParts(hi, lo, w - r, r);
    ShrParts(hi, lo, w - r);
    OrDisjoint(lo, hi, r);
  }

  /** A rotation to the right by `r` exchanges the bottom `r` bits with the rest. */
  lemma RotateRightParts(x: nat, y: nat, hi: nat, lo: nat, r: nat, w: nat)
    requires 0 < r < w && Parts(x, hi, lo, r, w - r) && Parts(y, lo, hi, w - r, r)
    ensures y < Pow2(w) && RotateRight(y, r, w) == x
  {
    ScaleBound(lo, hi, w - r, r);
    ShlParts(lo, hi, r, w - r);
    ShrParts(lo, hi, r);
    OrDisjoint(hi, lo, w - r);
  }

  lemma RotateByZero(x: nat, w: nat)
    requires 0 < w && x < Pow2(w)
    ensures RotateLeft(x, 0, w) == x && RotateRight(x, 0, w) == x
  {
    OrZero(x);
    assert Scale(0, w) == 0 by {
      ScaleIsMul(0, w);
    }
    LowOfScaled(0, x, w);
  }

  lemma LeftThenRight(x: nat, r: nat, w: nat)
    requires 0 < r < w && x < Pow2(w)
    ensures RotateLeft(x, r, w) < Pow2(w) && RotateRight(RotateLeft(x, r, w), r, w) == x
  {
    var hi, lo := SplitWord(x, r, w - r);
    var y := Scale(lo, r) + hi;
    RotateLeftParts(x, y, hi, lo, r, w);
    RotateRightParts(x, y, hi, lo, r, w);
  }

  lemma RightThenLeft(x: nat, r: nat, w: nat)
    requires 0 < r < w && x < Pow2(w)
    ensures RotateRight(x, r, w) < Pow2(w) && RotateLeft(RotateRight(x, r, w), r, w) == x
  {
    var lo, hi := SplitWord(x, w - r, r);
    var y := Scale(hi, w - r) + lo;
    RotateRightParts(y, x, hi, lo, r, w);
    RotateLeftParts(y, x, hi, lo, r, w);
  }

  /** Rotations stay in the word and undo each other. */
  lemma RotateInverse(x: nat, r: nat, w: nat)
    requires r < w && x < Pow2(w)
    ensures RotateLeft(x, r, w) < Pow2(w) && RotateRight(x, r, w) < Pow2(w)
    ensures RotateRight(RotateLeft(x, r, w), r, w) == x
    ensures RotateLeft(RotateRight(x, r, w), r, w) == x
  {
    if r == 0 {
      RotateByZero(x, w);
    } else {
      LeftThenRight(x, r, w);
      RightThenLeft(x, r, w);
    }
  }

  /** `rotlu32`: the rotation count is taken modulo 32. */
  function RotateLeft32(x: uint32, bits: nat): uint32
  {
    Pow2Widths();
    RotateInverse(x, bits % 32, 32);
    RotateLeft(x, bits % 32, 32)
  }

  function RotateRight32(x: uint32, bits: nat): uint32
  {
    Pow2Widths();
    RotateInverse(x, bits % 32, 32);
    RotateRight(x, bits % 32, 32)
  }

  lemma Rotate32Inverse(x: uint32, bits: nat)
    ensures RotateRight32(RotateLeft32(x, bits), bits) == x
    ensures RotateLeft32(RotateRight32(x, bits), bits) == x
  {
    Pow2Widths();
    RotateInverse(x, bits % 32, 32);
  }

  // ----- Addition and multiplication in a word -----

  function Add32(x: uint32, y: uint32): uint32 {
    (x + y) % TWO_32
  }

  function Sub32(x: uint32, y: uint32): uint32 {
    (x - y) % TWO_32
  }

  /** An odd factor cannot hide a power of two. */
  lemma {:induction false} OddFactor(k: nat, s: int, odd: int)
    requires odd % 2 == 1
    ensures s * odd % Pow2(k) == 0 <==> s % Pow2(k) == 0
  {
    if k > 0 {
      ParityOfProduct(s, odd);
      if s % 2 == 0 {
        OddFactor(k - 1, s / 2, odd);
        EvenMultiple(s / 2, k);
        assert s * odd == 2 * (s / 2 * odd);
        EvenMultiple(s / 2 * odd, k);
      } else {
        OddIsNoMultiple(s, k);
        OddIsNoMultiple(s * odd, k);
      }
    }
  }

  lemma ParityOfProduct(x: int, y: int)
    ensures x * y % 2 == (x % 2) * (y % 2)
  {
    MulMod(x, y, 2);
    MulMod(y, x % 2, 2);
  }

  lemma EvenMultiple(h: int, k: nat)
    requires k > 0
    ensures 2 * h % Pow2(k) == 0 <==> h % Pow2(k - 1) == 0
  {
    var m := Pow2(k - 1);
    var q, r := h / m, h % m;
    assert 2 * h == q * (2 * m) + 2 * r;
    DivModUnique(2 * h, 2 * m, q, 2 * r);
  }

  lemma OddIsNoMultiple(s: int, k: nat)
    requires k > 0 && s % 2 == 1
    ensures s % Pow2(k) != 0
  {
    var n, m, q := Pow2(k), Pow2(k - 1), s / Pow2(k);
    assert s == q * n + s % n;
    assert q * n == 2 * (q * m) by {
      assert n == 2 * m;
    }
  }
}
