/** Binary numbers read digit by digit off any kind of word: what an operation does to the
    digits decides what it does to the number. */
module Digits {
  import opened Words
  import opened Bits

  /** The lowest digit of a word, and the word without it. */
  datatype View<!W> = View(digit: W -> nat, rest: W -> W)

  ghost predicate Binary<W(!new)>(v: View<W>) {
    forall w :: v.digit(w) <= 1
  }

  /** The number made of the low `n` digits. */
  function Num<W>(v: View<W>, w: W, n: nat): nat
    decreases n
  {
    if n == 0 then 0 else v.digit(w) + 2 * Num(v, v.rest(w), n - 1)
  }

  lemma {:induction false} NumBound<W(!new)>(v: View<W>, w: W, n: nat)
    requires Binary(v)
    ensures Num(v, w, n) < Pow2(n)
    decreases n
  {
    if n > 0 {
      NumBound(v, v.rest(w), n - 1);
    }
  }

  lemma {:induction false} NumLow<W(!new)>(v: View<W>, w: W, m: nat, n: nat)
    requires Binary(v) && m <= n
    ensures Num(v, w, m) == Low(Num(v, w, n), m)
    decreases n
  {
    if m > 0 {
      NumLow(v, v.rest(w), m - 1, n - 1);
      HalfOfSum(Num(v, v.rest(w), n - 1), v.digit(w));
    }
  }

  /** The word without its lowest `k` digits. */
  function Rest<W>(v: View<W>, w: W, k: nat): W
    decreases k
  {
    if k == 0 then w else Rest(v, v.rest(w), k - 1)
  }

  lemma {:induction false} RestAdd<W>(v: View<W>, w: W, j: nat, k: nat)
    ensures Rest(v, Rest(v, w, j), k) == Rest(v, w, j + k)
    decreases j
  {
    if j > 0 {
      RestAdd(v, v.rest(w), j - 1, k);
    }
  }

  lemma {:induction false} NumRest<W(!new)>(v: View<W>, w: W, k: nat, n: nat)
    requires Binary(v)
    ensures Num(v, Rest(v, w, k), n) == Shr(Num(v, w, n + k), k)
    decreases k
  {
    if k > 0 {
      NumRest(v, v.rest(w), k - 1, n);
      HalfOfSum(Num(v, v.rest(w), n + k - 1), v.digit(w));
    }
  }

  // ----- Words with equal low digits -----

  predicate Agree<W>(v: View<W>, a: W, b: W, n: nat)
    decreases n
  {
    n == 0 || (v.digit(a) == v.digit(b) && Agree(v, v.rest(a), v.rest(b), n - 1))
  }

  lemma {:induction false} NumAgree<W>(v: View<W>, a: W, b: W, m: nat, n: nat)
    requires Agree(v, a, b, n) && m <= n
    ensures Num(v, a, m) == Num(v, b, m)
    decreases n
  {
    if m > 0 {
      NumAgree(v, v.rest(a), v.rest(b), m - 1, n - 1);
    }
  }

  /** The mask lets its digits that are ones through. */
  predicate LetsThrough<W(==)>(v: View<W>, and: (W, W) -> W, a: W, mask: W) {
    && v.rest(and(a, mask)) == and(v.rest(a), v.rest(mask))
    && (v.digit(mask) == 1 ==> v.digit(and(a, mask)) == v.digit(a))
  }

  predicate LowOnes<W>(v: View<W>, mask: W, n: nat)
    decreases n
  {
    n == 0 || (v.digit(mask) == 1 && LowOnes(v, v.rest(mask), n - 1))
  }

  lemma {:induction false} MaskedAgrees<W(!new)>(v: View<W>, and: (W, W) -> W, a: W, mask: W, n: nat)
    requires forall b, m :: LetsThrough(v, and, b, m)
    requires LowOnes(v, mask, n)
    ensures Agree(v, and(a, mask), a, n)
    decreases n
  {
    if n > 0 {
      assert LetsThrough(v, and, a, mask);
      MaskedAgrees(v, and, v.rest(a), v.rest(mask), n - 1);
    }
  }

  // ----- Operators -----

  predicate XorsDigits<W(==)>(v: View<W>, xor: (W, W) -> W, a: W, b: W) {
    && v.rest(xor(a, b)) == xor(v.rest(a), v.rest(b))
    && v.digit(xor(a, b)) == (if v.digit(a) == v.digit(b) then 0 else 1)
  }

  lemma XorOfDigits(p: nat, q: nat, x: nat, y: nat, i: nat, j: nat)
    requires i <= 1 && j <= 1 && p == i + 2 * x && q == j + 2 * y
    ensures Xor(p, q) == (if i == j then 0 else 1) + 2 * Xor(x, y)
  {
  }

  lemma {:induction false} NumXor<W(!new)>(v: View<W>, xor: (W, W) -> W, a: W, b: W, n: nat)
    requires Binary(v) && forall c, d :: XorsDigits(v, xor, c, d)
    ensures Num(v, xor(a, b), n) == Xor(Num(v, a, n), Num(v, b, n))
    decreases n
  {
    if n > 0 {
      var x, y := Num(v, v.rest(a), n - 1), Num(v, v.rest(b), n - 1);
      assert XorsDigits(v, xor, a, b);
      NumXor(v, xor, v.rest(a), v.rest(b), n - 1);
      XorOfDigits(Num(v, a, n), Num(v, b, n), x, y, v.digit(a), v.digit(b));
    }
  }

  /** Adding the lowest digits and a carry `c` leaves a digit and a carry for the rest, which
      has `m` digits. */
  predicate AddsDigits<W>(v: View<W>, sum: (W, W, nat) -> W, a: W, b: W, c: nat, m: nat) {
    var d := v.digit(a) + v.digit(b) + c;
    var q := if d >= 2 then 1 else 0;
    c <= 1 ==> v.digit(sum(a, b, c)) == d - 2 * q && Agree(v, v.rest(sum(a, b, c)), sum(v.rest(a), v.rest(b), q), m)
  }

  lemma SumStep(x: nat, y: nat, d: nat, q: nat, l: nat, rest: nat, n: nat) returns (out: nat)
    requires l + rest == x + y + q && (rest == 0 || rest == Pow2(n))
    ensures (d - 2 * q) + 2 * l + out == 2 * x + 2 * y + d
    ensures out == 0 || out == Pow2(n + 1)
  {
    out := 2 * rest;
  }

  /** The sum of the low digits, and the carry out of them. */
  lemma {:induction false} NumSum<W(!new)>(v: View<W>, sum: (W, W, nat) -> W, a: W, b: W, c: nat, m: nat, n: nat)
      returns (out: nat)
    requires Binary(v) && c <= 1 && n <= m + 1
    requires forall a', b', c' :: AddsDigits(v, sum, a', b', c', m)
    ensures out == 0 || out == Pow2(n)
    ensures Num(v, sum(a, b, c), n) + out == Num(v, a, n) + Num(v, b, n) + c
    decreases n
  {
    if n == 0 {
      out := c;
    } else {
      var q := if v.digit(a) + v.digit(b) + c >= 2 then 1 else 0;
      var t := sum(v.rest(a), v.rest(b), q);
      assert AddsDigits(v, sum, a, b, c, m);
      var rest := NumSum(v, sum, v.rest(a), v.rest(b), q, m, n - 1);
      NumAgree(v, v.rest(sum(a, b, c)), t, n - 1, m);
      out := SumStep(Num(v, v.rest(a), n - 1), Num(v, v.rest(b), n - 1), v.digit(a) + v.digit(b) + c, q, Num(v, t, n - 1),
                     rest, n - 1);
    }
  }

  /** `r` is `a` turned by one place: its top digit, which lies `m` places up, comes to the end. */
  predicate TurnedOnce<W>(v: View<W>, a: W, r: W, m: nat) {
    v.digit(r) == v.digit(Rest(v, a, m)) && Agree(v, v.rest(r), a, m)
  }

  lemma NumTurned<W(!new)>(v: View<W>, a: W, r: W, m: nat)
    requires Binary(v) && 0 < m && TurnedOnce(v, a, r, m)
    ensures Num(v, a, m + 1) < Pow2(m + 1)
    ensures Num(v, r, m + 1) == RotateLeft(Num(v, a, m + 1), 1, m + 1)
  {
    var x := Num(v, a, m + 1);
    NumBound(v, a, m + 1);
    NumAgree(v, v.rest(r), a, m, m);
    NumLow(v, a, m, m + 1);
    NumRest(v, a, m, 1);
    OneDigit(v, Rest(v, a, m), 1);
    RotateByOne(x, Num(v, a, m), v.digit(r), Num(v, r, m + 1), m, m + 1);
  }

  lemma OneDigit<W>(v: View<W>, w: W, n: nat)
    requires n == 1
    ensures Num(v, w, n) == v.digit(w)
  {
  }

  lemma RotateByOne(x: nat, l: nat, t: nat, y: nat, m: nat, w: nat)
    requires 0 < m && w == m + 1 && x < Pow2(w) && l == Low(x, m) && t == Shr(x, m) && y == t + 2 * l
    ensures y == RotateLeft(x, 1, w)
  {
    RotateLeftIs(x, 1, w);
    DoubledByScale(l, 1);
  }

  lemma DoubledByScale(x: nat, k: nat)
    requires k == 1
    ensures Scale(x, k) == 2 * x
  {
  }

  // ----- Making a word -----

  /** A digit put behind a word; the rest has `m` digits. */
  predicate Appends<W>(v: View<W>, append: (W, nat) -> W, w: W, d: nat, m: nat) {
    d <= 1 ==> v.digit(append(w, d)) == d && Agree(v, v.rest(append(w, d)), w, m)
  }

  function Make<W>(append: (W, nat) -> W, zero: W, x: nat, n: nat): W
    decreases n
  {
    if n == 0 then zero else append(Make(append, zero, x / 2, n - 1), x % 2)
  }

  lemma {:induction false} NumMade<W(!new)>(v: View<W>, append: (W, nat) -> W, zero: W, x: nat, m: nat, n: nat)
    requires n <= m + 1
    requires forall w, d :: Appends(v, append, w, d, m)
    ensures Num(v, Make(append, zero, x, n), n) == Low(x, n)
    decreases n
  {
    if n > 0 {
      var w := Make(append, zero, x / 2, n - 1);
      assert Appends(v, append, w, x % 2, m);
      NumMade(v, append, zero, x / 2, m, n - 1);
      NumAgree(v, v.rest(append(w, x % 2)), w, n - 1, m);
    }
  }
}
