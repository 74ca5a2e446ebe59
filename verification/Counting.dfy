/** Finite counting: distinct values fill a range of their own size, and a one-to-one
    rearrangement of a range does not change how many of its members satisfy a test. */
module Counting {

  ghost predicate Distinct<T(!new)>(s: seq<T>) {
    forall i, j :: 0 <= i < j < |s| ==> s[i] != s[j]
  }

  ghost predicate InjectiveBelow(f: nat -> nat, n: nat) {
    forall i: nat, j: nat :: i < j < n ==> f(i) != f(j)
  }

  /** The members of `[0, n)` that satisfy `p`. */
  ghost function Where(n: nat, p: nat -> bool): set<nat> {
    set v: nat | v < n && p(v)
  }

  /** The whole range `[0, n)`. */
  ghost function Below(n: nat): set<nat> {
    Where(n, v => true)
  }

  ghost predicate Takes(f: nat -> nat, n: nat, v: nat) {
    exists i: nat :: i < n && f(i) == v
  }

  lemma {:induction false} BelowSize(n: nat)
    ensures |Below(n)| == n
  {
    if n > 0 {
      BelowSize(n - 1);
      assert Below(n) == Below(n - 1) + {n - 1};
    }
  }

  lemma {:induction false} SubsetSize<T>(a: set<T>, b: set<T>)
    requires a <= b
    ensures |a| <= |b|
    ensures |a| == |b| ==> a == b
  {
    assert b == a + (b - a);
    assert |b| == |a| + |b - a|;
  }

  lemma InjectiveAt(f: nat -> nat, n: nat, i: nat, j: nat)
    requires InjectiveBelow(f, n) && i < n && j < n
    ensures f(i) == f(j) ==> i == j
  {
  }

  ghost function Image(f: nat -> nat, n: nat): set<nat> {
    set i: nat | i < n :: f(i)
  }

  lemma {:induction false} ImageSize(f: nat -> nat, n: nat)
    requires InjectiveBelow(f, n)
    ensures |Image(f, n)| == n
  {
    if n > 0 {
      ImageSize(f, n - 1);
      assert Image(f, n) == Image(f, n - 1) + {f(n - 1)};
      assert f(n - 1) !in Image(f, n - 1);
    }
  }

  /** Distinct values below a bound are at most as many as the bound, and if they are as
      many as the bound they take every value below it. */
  lemma Pigeonhole(f: nat -> nat, n: nat, bound: nat)
    requires InjectiveBelow(f, n)
    requires forall i: nat :: i < n ==> f(i) < bound
    ensures n <= bound
    ensures n == bound ==> forall v: nat :: v < bound ==> Takes(f, n, v)
  {
    ImageSize(f, n);
    BelowSize(bound);
    SubsetSize(Image(f, n), Below(bound));
    if n == bound {
      forall v: nat | v < bound ensures Takes(f, n, v) {
        assert v in Image(f, n);
      }
    }
  }

  ghost predicate Bijection(f: nat -> nat, a: set<nat>, b: set<nat>) {
    && (forall x :: x in a ==> f(x) in b)
    && (forall x, y :: x in a && y in a && f(x) == f(y) ==> x == y)
    && (forall y :: y in b ==> exists x :: x in a && f(x) == y)
  }

  lemma {:induction false} BijectionSize(f: nat -> nat, a: set<nat>, b: set<nat>)
    requires Bijection(f, a, b)
    ensures |a| == |b|
    decreases a
  {
    if a == {} {
      assert b == {};
    } else {
      var x :| x in a;
      var a', b' := a - {x}, b - {f(x)};
      forall y | y in b' ensures exists z :: z in a' && f(z) == y {
        var z :| z in a && f(z) == y;
        assert z in a';
      }
      BijectionSize(f, a', b');
    }
  }

  /** Two maps that undo each other make their sets equally large. */
  lemma InverseMapsSize(f: nat -> nat, g: nat -> nat, a: set<nat>, b: set<nat>)
    requires forall x :: x in a ==> f(x) in b && g(f(x)) == x
    requires forall y :: y in b ==> g(y) in a && f(g(y)) == y
    ensures |a| == |b|
  {
    forall y | y in b ensures exists x :: x in a && f(x) == y {
      assert g(y) in a;
    }
    forall x, y | x in a && y in a && f(x) == f(y) ensures x == y {
      assert g(f(x)) == g(f(y));
    }
    BijectionSize(f, a, b);
  }

  ghost predicate PermutesBelow(f: nat -> nat, n: nat) {
    InjectiveBelow(f, n) && forall i: nat :: i < n ==> f(i) < n
  }

  lemma PermutationReaches(f: nat -> nat, n: nat, y: nat) returns (x: nat)
    requires PermutesBelow(f, n) && y < n
    ensures x < n && f(x) == y
  {
    Pigeonhole(f, n, n);
    assert Takes(f, n, y);
    x :| x < n && f(x) == y;
  }

  lemma PermutationOfWhere(f: nat -> nat, n: nat, p: nat -> bool)
    requires PermutesBelow(f, n)
    ensures Bijection(f, Where(n, (i: nat) => p(f(i))), Where(n, p))
  {
    var a, b := Where(n, (i: nat) => p(f(i))), Where(n, p);
    forall y | y in b ensures exists x :: x in a && f(x) == y {
      var x := PermutationReaches(f, n, y);
      assert x in a;
    }
    forall x, y | x in a && y in a && f(x) == f(y) ensures x == y {
      InjectiveAt(f, n, x, y);
    }
  }

  /** A permutation of `[0, n)` carries the positions whose value satisfies `p` onto the
      values that satisfy `p`: both are equally many. */
  lemma PermutedCount(f: nat -> nat, n: nat, p: nat -> bool)
    requires InjectiveBelow(f, n)
    requires forall i: nat :: i < n ==> f(i) < n
    ensures |Where(n, (i: nat) => p(f(i)))| == |Where(n, p)|
  {
    PermutationOfWhere(f, n, p);
    BijectionSize(f, Where(n, (i: nat) => p(f(i))), Where(n, p));
  }
}
