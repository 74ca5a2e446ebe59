/** The linear congruential step `x -> a*x + c (mod 2^w)` behind every PCG generator, and
    its period for every word width. */
module Lcg {
  import opened Words
  import opened Counting

  function Next(x: nat, a: nat, c: nat, w: nat): nat {
    Low(x * a + c, w)
  }

  /** The state reached from `x` by `n` steps. */
  function Orbit(n: nat, x: nat, a: nat, c: nat, w: nat): nat {
    if n == 0 then x else Next(Orbit(n - 1, x, a, c, w), a, c, w)
  }

  lemma {:induction false} OrbitBound(n: nat, x: nat, a: nat, c: nat, w: nat)
    requires x < Pow2(w)
    ensures Orbit(n, x, a, c, w) < Pow2(w)
  {
    if n > 0 {
      LowIsMod(Orbit(n - 1, x, a, c, w) * a + c, w);
    }
  }

  lemma {:induction false} OrbitAdd(m: nat, n: nat, x: nat, a: nat, c: nat, w: nat)
    ensures Orbit(m + n, x, a, c, w) == Orbit(n, Orbit(m, x, a, c, w), a, c, w)
  {
    if n > 0 {
      OrbitAdd(m, n - 1, x, a, c, w);
    }
  }

  // ----- The geometric sum 1 + a + ... + a^(n-1) -----

  function Geo(a: nat, n: nat): nat {
    if n == 0 then 0 else a * Geo(a, n - 1) + 1
  }

  lemma GeoStep(a: int, g: int, s: int, p: int)
    requires p == (a - 1) * s + 1
    ensures a * (g * p + s) + 1 == (a * g + 1) * p + s
  {
    MulDistributes(a, g * p, s);
    MulAssociates(a, g, p);
    MulDistributes(p, a * g, 1);
    MulDistributes(s, a, -1);
  }

  lemma {:induction false} GeoAdd(a: nat, m: nat, n: nat)
    requires a > 0
    ensures Geo(a, m + n) == Geo(a, n) * ((a - 1) * Geo(a, m) + 1) + Geo(a, m)
  {
    if n > 0 {
      GeoAdd(a, m, n - 1);
      GeoStep(a, Geo(a, n - 1), Geo(a, m), (a - 1) * Geo(a, m) + 1);
      GeoNext(a, m + n);
      GeoNext(a, n);
    }
  }

  lemma GeoNext(a: nat, n: nat)
    requires n > 0
    ensures Geo(a, n) == a * Geo(a, n - 1) + 1
  {
  }

  lemma DoubleAlgebra(b: nat, s: nat)
    ensures s * ((4 * b) * s + 1) + s == 2 * (s * (2 * (b * s) + 1))
  {
    var t := b * s;
    assert (4 * b) * s == 4 * t;
    assert s * (4 * t + 1) == s * (4 * t) + s;
    assert s * (2 * t + 1) == s * (2 * t) + s;
    assert s * (4 * t) == 2 * (s * (2 * t));
  }

  /** For `a = 1 (mod 4)` doubling the number of terms doubles the sum, up to an odd factor. */
  lemma GeoDouble(b: nat, m: nat)
    ensures Geo(4 * b + 1, 2 * m) == 2 * (Geo(4 * b + 1, m) * (2 * (b * Geo(4 * b + 1, m)) + 1))
  {
    GeoAdd(4 * b + 1, m, m);
    DoubleAlgebra(b, Geo(4 * b + 1, m));
  }

  lemma FourOne(b: int, g: int)
    ensures (4 * b + 1) * g == 4 * (b * g) + g
  {
    MulDistributes(g, 4 * b, 1);
    MulAssociates(4, b, g);
  }

  lemma OddStep(t: int, g: int, n: int)
    requires g % 2 == n % 2
    ensures (4 * t + g + 1) % 2 == (n + 1) % 2
  {
    ModAddMultiple(g + 1, 2 * t, 2);
    AddMod(g, 1, 2);
    AddMod(n, 1, 2);
  }

  lemma {:induction false} GeoParity(b: nat, n: nat)
    ensures Geo(4 * b + 1, n) % 2 == n % 2
  {
    if n > 0 {
      var g := Geo(4 * b + 1, n - 1);
      GeoParity(b, n - 1);
      GeoNext(4 * b + 1, n);
      FourOne(b, g);
      OddStep(b * g, g, n - 1);
    }
  }

  lemma GeoOfDouble(w: nat, b: nat, m: nat)
    requires w > 0
    ensures Geo(4 * b + 1, 2 * m) % Pow2(w) == 0 <==> Geo(4 * b + 1, m) % Pow2(w - 1) == 0
  {
    var h := Geo(4 * b + 1, m);
    var odd := 2 * (b * h) + 1;
    GeoDouble(b, m);
    EvenMultiple(h * odd, w);
    OddFactor(w - 1, h, odd);
  }

  /** A power of two divides the sum of `n` terms exactly when it divides `n`. */
  lemma {:induction false} GeoDivisible(w: nat, b: nat, n: nat)
    ensures Geo(4 * b + 1, n) % Pow2(w) == 0 <==> n % Pow2(w) == 0
  {
    if w == 0 {
      assert Pow2(w) == 1;
    } else if n % 2 == 1 {
      GeoParity(b, n);
      OddIsNoMultiple(n, w);
      OddIsNoMultiple(Geo(4 * b + 1, n), w);
    } else {
      var m := n / 2;
      assert n == 2 * m;
      GeoOfDouble(w, b, m);
      GeoDivisible(w - 1, b, m);
      EvenMultiple(m, w);
    }
  }

  // ----- Period -----

  /** The distance travelled in `n` steps when the first one adds `d`, before reduction. */
  function Drift(a: nat, n: nat, d: nat): nat {
    if n == 0 then 0 else a * Drift(a, n - 1, d) + d
  }

  lemma Distribute(a: nat, g: nat, d: nat)
    ensures (a * g + 1) * d == a * (g * d) + d
  {
    assert (a * g) * d == a * (g * d);
  }

  lemma {:induction false} DriftIsGeo(a: nat, n: nat, d: nat)
    ensures Drift(a, n, d) == Geo(a, n) * d
  {
    if n > 0 {
      DriftIsGeo(a, n - 1, d);
      Distribute(a, Geo(a, n - 1), d);
    }
  }

  /** What one step adds to `x`. */
  function Gain(x: nat, a: nat, c: nat): nat
    requires a > 0
  {
    (a - 1) * x + c
  }

  lemma StepAlgebra(x: nat, t: nat, a: nat, c: nat)
    requires a > 0
    ensures (x + t) * a + c == x + (a * t + Gain(x, a, c))
  {
    assert (x + t) * a == x * a + a * t;
    assert (a - 1) * x == a * x - x;
  }

  lemma ModStep(y: nat, a: nat, c: nat, m: nat)
    requires m > 0
    ensures (y % m * a + c) % m == (y * a + c) % m
  {
    MulMod(y, a, m);
    AddMod(y % m * a, c, m);
    AddMod(y * a, c, m);
  }

  lemma NextOfReduced(y: nat, a: nat, c: nat, w: nat)
    ensures Next(Low(y, w), a, c, w) == Low(y * a + c, w)
  {
    LowIsMod(y, w);
    LowIsMod(Low(y, w) * a + c, w);
    LowIsMod(y * a + c, w);
    ModStep(y, a, c, Pow2(w));
  }

  /** The state after `n` steps in closed form. */
  lemma {:induction false} OrbitClosedForm(n: nat, x: nat, a: nat, c: nat, w: nat)
    requires a > 0 && x < Pow2(w)
    ensures Orbit(n, x, a, c, w) == Low(x + Drift(a, n, Gain(x, a, c)), w)
  {
    var d := Gain(x, a, c);
    if n == 0 {
      LowOfSmall(x, w);
    } else {
      OrbitClosedForm(n - 1, x, a, c, w);
      NextOfReduced(x + Drift(a, n - 1, d), a, c, w);
      StepAlgebra(x, Drift(a, n - 1, d), a, c);
    }
  }

  lemma AddingNothing(x: nat, t: nat, w: nat)
    requires x < Pow2(w)
    ensures Low(x + t, w) == x <==> t % Pow2(w) == 0
  {
    var m := Pow2(w);
    LowIsMod(x + t, w);
    SmallMod(x, m);
    CongruentIff(x + t, x, m);
  }

  lemma OrbitReturns(n: nat, x: nat, a: nat, c: nat, w: nat)
    requires a > 0 && x < Pow2(w)
    ensures Orbit(n, x, a, c, w) == x <==> Geo(a, n) * Gain(x, a, c) % Pow2(w) == 0
  {
    OrbitClosedForm(n, x, a, c, w);
    DriftIsGeo(a, n, Gain(x, a, c));
    AddingNothing(x, Geo(a, n) * Gain(x, a, c), w);
  }

  ghost predicate FullPeriodParameters(a: nat, c: nat) {
    a % 4 == 1 && c % 2 == 1
  }

  lemma EvenPlusOdd(e: int, c: int)
    requires e % 2 == 0 && c % 2 == 1
    ensures (e + c) % 2 == 1
  {
  }

  lemma OddGain(x: nat, a: nat, c: nat)
    requires FullPeriodParameters(a, c)
    ensures Gain(x, a, c) % 2 == 1
  {
    ParityOfProduct(a - 1, x);
    assert (a - 1) % 2 == 0;
    EvenPlusOdd((a - 1) * x, c);
  }

  /** Full period, in every width: `n` steps return to where they started exactly when
      `2^w` divides `n`. */
  lemma FullPeriod(n: nat, x: nat, a: nat, c: nat, w: nat)
    requires FullPeriodParameters(a, c) && x < Pow2(w)
    ensures Orbit(n, x, a, c, w) == x <==> n % Pow2(w) == 0
  {
    OddGain(x, a, c);
    OrbitReturns(n, x, a, c, w);
    OddFactor(w, Geo(a, n), Gain(x, a, c));
    GeoDivisible(w, a / 4, n);
    assert a == 4 * (a / 4) + 1;
  }

  lemma StatesDiffer(i: nat, j: nat, x: nat, a: nat, c: nat, w: nat)
    requires FullPeriodParameters(a, c) && x < Pow2(w) && i < j < i + Pow2(w)
    ensures Orbit(i, x, a, c, w) != Orbit(j, x, a, c, w)
  {
    OrbitBound(i, x, a, c, w);
    OrbitAdd(i, j - i, x, a, c, w);
    FullPeriod(j - i, Orbit(i, x, a, c, w), a, c, w);
    MultipleInRange(j - i, Pow2(w));
  }

  /** Any `2^w` consecutive states are pairwise different... */
  lemma OrbitInjective(x: nat, a: nat, c: nat, w: nat)
    requires FullPeriodParameters(a, c) && x < Pow2(w)
    ensures InjectiveBelow((i: nat) => Orbit(i, x, a, c, w), Pow2(w))
  {
    forall i: nat, j: nat | i < j < Pow2(w)
      ensures Orbit(i, x, a, c, w) != Orbit(j, x, a, c, w)
    {
      StatesDiffer(i, j, x, a, c, w);
    }
  }

  /** ... and so every state is visited exactly once per period. */
  lemma EveryStateOncePerPeriod(x: nat, y: nat, a: nat, c: nat, w: nat) returns (i: nat)
    requires FullPeriodParameters(a, c) && x < Pow2(w) && y < Pow2(w)
    ensures i < Pow2(w) && Orbit(i, x, a, c, w) == y
    ensures forall j: nat :: j < Pow2(w) && Orbit(j, x, a, c, w) == y ==> j == i
  {
    var f: nat -> nat := (k: nat) => Orbit(k, x, a, c, w);
    OrbitInjective(x, a, c, w);
    forall k: nat | k < Pow2(w) ensures f(k) < Pow2(w) {
      OrbitBound(k, x, a, c, w);
    }
    Pigeonhole(f, Pow2(w), Pow2(w));
    assert Takes(f, Pow2(w), y);
    i :| i < Pow2(w) && f(i) == y;
    forall j: nat | j < Pow2(w) && Orbit(j, x, a, c, w) == y ensures j == i {
      assert f(j) == f(i);
      InjectiveAt(f, Pow2(w), i, j);
    }
  }

  // ----- Multiplicative generators: no increment -----

  /** Seeded with an odd state, a multiplicative generator stays odd... */
  lemma {:induction false} McgStaysOdd(n: nat, x: nat, a: nat, w: nat)
    requires a % 2 == 1 && x % 2 == 1 && x < Pow2(w) && w > 0
    ensures Orbit(n, x, a, 0, w) % 2 == 1
  {
    if n > 0 {
      McgStaysOdd(n - 1, x, a, w);
      var y := Orbit(n - 1, x, a, 0, w);
      ParityOfProduct(y, a);
      LowParity(y * a + 0, w);
    }
  }

  lemma FourTimes(t: nat, w: nat)
    requires w >= 2
    ensures 2 * (2 * t) % Pow2(w) == 0 <==> t % Pow2(w - 2) == 0
  {
    EvenMultiple(2 * t, w);
    EvenMultiple(t, w - 1);
  }

  lemma McgGain(g: nat, x: nat, h: nat)
    ensures g * Gain(x, 4 * h + 1, 0) == 2 * (2 * (g * (h * x)))
  {
    assert (4 * h) * x == 4 * (h * x);
    var y := h * x;
    assert g * (4 * y) == 4 * (g * y);
  }

  lemma McgDivides(n: nat, x: nat, h: nat, w: nat)
    requires h % 2 == 1 && x % 2 == 1 && w >= 2
    ensures Geo(4 * h + 1, n) * Gain(x, 4 * h + 1, 0) % Pow2(w) == 0 <==> n % Pow2(w - 2) == 0
  {
    var g := Geo(4 * h + 1, n);
    McgGain(g, x, h);
    ParityOfProduct(h, x);
    FourTimes(g * (h * x), w);
    OddFactor(w - 2, g, h * x);
    GeoDivisible(w - 2, h, n);
  }

  /** ... and for a multiplier `5 (mod 8)` its cycle has exactly `2^(w-2)` states. */
  lemma McgPeriod(n: nat, x: nat, a: nat, w: nat)
    requires a % 8 == 5 && x % 2 == 1 && x < Pow2(w) && w >= 2
    ensures Orbit(n, x, a, 0, w) == x <==> n % Pow2(w - 2) == 0
  {
    var h := a / 4;
    assert a == 4 * h + 1 && h % 2 == 1;
    OrbitReturns(n, x, a, 0, w);
    McgDivides(n, x, h, w);
  }
}
