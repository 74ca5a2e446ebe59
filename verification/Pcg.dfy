/** The 32-bit PCG generator of the firmware: an LCG with a selectable odd increment, whose
    states are scrambled into 32-bit or 16-bit words. */
module Pcg {
  import opened Words
  import opened Counting
  import opened Lcg
  import opened PcgOutput

  const MULTIPLIER_32 := 747796405

  /** The state `n` steps after `s` in the stream selected by `inc`. */
  function StateAfter(n: nat, s: uint32, inc: uint32): uint32 {
    Pow2Widths();
    OrbitBound(n, s, MULTIPLIER_32, inc, 32);
    Orbit(n, s, MULTIPLIER_32, inc, 32)
  }

  lemma StateAfterAdd(m: nat, n: nat, s: uint32, inc: uint32)
    ensures StateAfter(m + n, s, inc) == StateAfter(n, StateAfter(m, s, inc), inc)
  {
    OrbitAdd(m, n, s, MULTIPLIER_32, inc, 32);
  }

  /** The 32-bit word the generator returns from state `s`. */
  function Random32(s: uint32): uint32 {
    OutputRxsMXs32(s)
  }

  /** The state that returns the word `v`. */
  function StateReturning(v: uint32): (s: uint32)
    ensures Random32(s) == v
  {
    Pow2Widths();
    RxsMXsInstances();
    RxsMXsPermutation(v, RXS_M_XS_32);
    InvertRxsMXs(v, RXS_M_XS_32)
  }

  lemma Random32Injective(s: uint32)
    ensures StateReturning(Random32(s)) == s
  {
    Pow2Widths();
    RxsMXsInstances();
    RxsMXsPermutation(s, RXS_M_XS_32);
  }

  // ----- Period and equidistribution -----

  /** `n` steps lead back to the same state exactly when 2^32 divides `n`. */
  lemma StatePeriod(n: nat, s: uint32, inc: uint32)
    requires inc % 2 == 1
    ensures StateAfter(n, s, inc) == s <==> n % TWO_32 == 0
  {
    Pow2Widths();
    FullPeriod(n, s, MULTIPLIER_32, inc, 32);
  }

  lemma StatesArePermuted(s: uint32, inc: uint32)
    requires inc % 2 == 1
    ensures InjectiveBelow((i: nat) => StateAfter(i, s, inc), TWO_32)
  {
    Pow2Widths();
    forall i: nat, j: nat | i < j < TWO_32
      ensures StateAfter(i, s, inc) != StateAfter(j, s, inc)
    {
      StatesDiffer(i, j, s, MULTIPLIER_32, inc, 32);
    }
  }

  /** Fewer than 2^32 draws apart, two 32-bit words differ. */
  lemma WordsDiffer(i: nat, j: nat, s: uint32, inc: uint32)
    requires inc % 2 == 1 && i < j < i + TWO_32
    ensures Random32(StateAfter(i, s, inc)) != Random32(StateAfter(j, s, inc))
  {
    Pow2Widths();
    StatesDiffer(i, j, s, MULTIPLIER_32, inc, 32);
    Random32Injective(StateAfter(i, s, inc));
    Random32Injective(StateAfter(j, s, inc));
  }

  /** The 32-bit words form one cycle: 2^32 consecutive draws return each word exactly once. */
  lemma EveryWordOnce(v: uint32, s: uint32, inc: uint32) returns (i: nat)
    requires inc % 2 == 1
    ensures i < TWO_32 && Random32(StateAfter(i, s, inc)) == v
    ensures forall j: nat :: j < TWO_32 && Random32(StateAfter(j, s, inc)) == v ==> j == i
  {
    Pow2Widths();
    i := EveryStateOncePerPeriod(s, StateReturning(v), MULTIPLIER_32, inc, 32);
    forall j: nat | j < TWO_32 && Random32(StateAfter(j, s, inc)) == v ensures j == i {
      Random32Injective(StateAfter(j, s, inc));
    }
  }

  /** Over a full period a test on the state succeeds as often as there are states passing it. */
  lemma PeriodCount(s: uint32, inc: uint32, p: nat -> bool)
    requires inc % 2 == 1
    ensures |Where(TWO_32, (i: nat) => p(StateAfter(i, s, inc)))| == |Where(TWO_32, p)|
  {
    var f: nat -> nat := (i: nat) => StateAfter(i, s, inc);
    StatesArePermuted(s, inc);
    PermutedCount(f, TWO_32, p);
    assert Where(TWO_32, (i: nat) => p(StateAfter(i, s, inc))) == Where(TWO_32, (i: nat) => p(f(i)));
  }

  /** 2^32 consecutive 16-bit draws return each value exactly 2^16 times. */
  lemma SixteenBitEquidistribution(v: uint16, s: uint32, inc: uint32)
    requires inc % 2 == 1
    ensures |Where(TWO_32, (i: nat) => OutputXshRs(StateAfter(i, s, inc)) == v)| == 0x1_0000
  {
    var p := (x: nat) => x < TWO_32 && OutputXshRs(x) == v;
    PeriodCount(s, inc, p);
    XshRsBalanced(v);
    assert Where(TWO_32, (i: nat) => OutputXshRs(StateAfter(i, s, inc)) == v)
        == Where(TWO_32, (i: nat) => p(StateAfter(i, s, inc)));
  }

  // ----- Bounded draws -----

  /** `-bound % bound` in 32-bit arithmetic. */
  function Threshold(bound: uint32): uint32
    requires bound >= 1
  {
    Sub32(0, bound) % bound
  }

  /** The threshold is what is left of the 2^32 words after whole multiples of the bound. */
  lemma ThresholdIsRemainder(bound: uint32)
    requires bound >= 1
    ensures Threshold(bound) == TWO_32 % bound < bound
  {
    var negative: int := 0 - bound;
    ModAddMultiple(negative, 1, TWO_32);
    SmallMod(TWO_32 - bound, TWO_32);
    ModAddMultiple(TWO_32 - bound, 1, bound);
  }

  lemma OneResiduePerBlock(base: nat, b: nat, r: nat) returns (e: nat)
    requires r < b
    ensures base <= e < base + b && e % b == r
    ensures forall v: nat :: base <= v < base + b && v % b == r ==> v == e
  {
    e := base + (r - base) % b;
    AddMod(r - base, base, b);
    SmallMod(r, b);
    forall v: nat | base <= v < base + b && v % b == r ensures v == e {
      CongruentIff(v, e, b);
      MultipleInRange(v - e, b);
    }
  }

  /** Where `q` blocks of `b` numbers that start at `t` end. */
  function BlockEnd(t: nat, q: nat, b: nat): nat {
    if q == 0 then t else BlockEnd(t, q - 1, b) + b
  }

  lemma {:induction false} BlockEndIs(t: nat, q: nat, b: nat)
    ensures t <= BlockEnd(t, q, b) == t + q * b
  {
    if q > 0 {
      BlockEndIs(t, q - 1, b);
      assert (q - 1) * b + b == q * b;
    }
  }

  /** In `q` whole blocks of `b` numbers each residue occurs `q` times. */
  lemma {:induction false} ResidueCount(t: nat, q: nat, b: nat, r: nat)
    requires r < b
    ensures |Where(BlockEnd(t, q, b), (v: nat) => v >= t && v % b == r)| == q
  {
    var p := (v: nat) => v >= t && v % b == r;
    if q == 0 {
      assert Where(BlockEnd(t, q, b), p) == {};
    } else {
      ResidueCount(t, q - 1, b, r);
      var base := BlockEnd(t, q - 1, b);
      BlockEndIs(t, q - 1, b);
      var e := OneResiduePerBlock(base, b, r);
      AddOne(base, b, p, e);
    }
  }

  lemma AddOne(base: nat, b: nat, p: nat -> bool, e: nat)
    requires base <= e < base + b && p(e) && forall v: nat :: base <= v < base + b && p(v) ==> v == e
    ensures |Where(base + b, p)| == |Where(base, p)| + 1
  {
    assert Where(base + b, p) == Where(base, p) + {e};
  }

  ghost predicate Accepted(v: uint32, bound: uint32)
    requires bound >= 1
  {
    v >= Threshold(bound)
  }

  /** The word `v` ends a bounded draw with the result `r`. */
  ghost predicate Yields(v: nat, bound: uint32, r: nat)
    requires bound >= 1
  {
    v < TWO_32 && Accepted(v, bound) && v % bound == r
  }

  /** Of the 2^32 words, exactly `2^32 / bound` give the result `r`. */
  lemma YieldingWords(bound: uint32, r: nat)
    requires r < bound
    ensures |Where(TWO_32, (v: nat) => Yields(v, bound, r))| == TWO_32 / bound
  {
    var t, q := Threshold(bound), TWO_32 / bound;
    ThresholdIsRemainder(bound);
    assert t + q * bound == TWO_32;
    BlockEndIs(t, q, bound);
    ResidueCount(t, q, bound, r);
    assert Where(TWO_32, (v: nat) => Yields(v, bound, r))
        == Where(TWO_32, (v: nat) => v >= t && v % bound == r);
  }

  ghost function WordOf(x: nat): nat {
    if x < TWO_32 then Random32(x) else x
  }

  /** Scrambling the states does not change how many pass a test. */
  lemma WordCount(p: nat -> bool)
    ensures |Where(TWO_32, (x: nat) => p(WordOf(x)))| == |Where(TWO_32, p)|
  {
    forall x: nat, y: nat | x < y < TWO_32 ensures WordOf(x) != WordOf(y) {
      Random32Injective(x);
      Random32Injective(y);
    }
    var f: nat -> nat := (x: nat) => WordOf(x);
    PermutedCount(f, TWO_32, p);
    assert Where(TWO_32, (x: nat) => p(WordOf(x))) == Where(TWO_32, (x: nat) => p(f(x)));
  }

  /** Unbiased: over a full period of draws, each result below the bound is accepted
      exactly `2^32 / bound` times. */
  lemma BoundedDrawUnbiased(s: uint32, inc: uint32, bound: uint32, r: nat)
    requires inc % 2 == 1 && r < bound
    ensures |Where(TWO_32, (i: nat) => Yields(Random32(StateAfter(i, s, inc)), bound, r))| == TWO_32 / bound
  {
    var p := (v: nat) => Yields(v, bound, r);
    var q := (x: nat) => p(WordOf(x));
    WordCount(p);
    YieldingWords(bound, r);
    PeriodCount(s, inc, q);
    assert Where(TWO_32, q) == Where(TWO_32, (x: nat) => p(WordOf(x)));
    forall i: nat ensures Yields(Random32(StateAfter(i, s, inc)), bound, r) == q(StateAfter(i, s, inc)) {
      assert WordOf(StateAfter(i, s, inc)) == Random32(StateAfter(i, s, inc));
    }
    assert Where(TWO_32, (i: nat) => Yields(Random32(StateAfter(i, s, inc)), bound, r))
        == Where(TWO_32, (i: nat) => q(StateAfter(i, s, inc)));
  }

  /** Rejected words are different numbers below the threshold, so at most `Threshold(bound)`
      draws in a row can be rejected. */
  lemma RejectionsBounded(n: nat, s: uint32, inc: uint32, bound: uint32)
    requires inc % 2 == 1 && 1 <= bound && n <= TWO_32
    requires forall i: nat :: i < n ==> !Accepted(Random32(StateAfter(i, s, inc)), bound)
    ensures n <= Threshold(bound)
  {
    var f: nat -> nat := (i: nat) => Random32(StateAfter(i, s, inc));
    forall i: nat, j: nat | i < j < n ensures f(i) != f(j) {
      WordsDiffer(i, j, s, inc);
    }
    Pigeonhole(f, n, Threshold(bound));
  }

  // ----- Seeding -----

  /** `(initseq << 1) | 1`. */
  function StreamIncrement(initseq: uint32): (inc: uint32)
    ensures inc == 2 * Low(initseq, 31) + 1
  {
    ShlOne(initseq, 32);
    LowIsMod(initseq, 31);
    Pow2Widths();
    OrOne(Shl(initseq, 1, 32));
    Or(Shl(initseq, 1, 32), 1)
  }

  function SeededState(initstate: uint32, inc: uint32): uint32 {
    StateAfter(1, Add32(StateAfter(1, 0, inc), initstate), inc)
  }

  /** Of the stream selector all bits but the top one count. */
  lemma IncrementsAgree(q0: uint32, q1: uint32)
    ensures StreamIncrement(q0) == StreamIncrement(q1) <==> q0 % 0x8000_0000 == q1 % 0x8000_0000
  {
    IncrementInArithmetic(q0);
    IncrementInArithmetic(q1);
  }

  /** A step written out. */
  lemma StepIsAffine(x: uint32, inc: uint32)
    ensures StateAfter(1, x, inc) == (x * 747796405 + inc) % 0x1_0000_0000
  {
    Pow2Widths();
    LowIsMod(x * MULTIPLIER_32 + inc, 32);
    assert Orbit(0, x, MULTIPLIER_32, inc, 32) == x;
  }

  lemma OddMultiplesAgree(x: uint32, y: uint32, m: nat, c: nat)
    requires m % 2 == 1
    ensures (x * m + c) % 0x1_0000_0000 == (y * m + c) % 0x1_0000_0000 <==> x == y
  {
    Pow2Widths();
    CongruentIff(x * m + c, y * m + c, TWO_32);
    assert (x * m + c) - (y * m + c) == (x - y) * m;
    OddFactor(32, x - y, m);
    MultipleInRange(x - y, TWO_32);
  }

  lemma StepInjective(x: uint32, y: uint32, inc: uint32)
    ensures StateAfter(1, x, inc) == StateAfter(1, y, inc) <==> x == y
  {
    StepIsAffine(x, inc);
    StepIsAffine(y, inc);
    OddMultiplesAgree(x, y, 747796405, inc);
  }

  lemma StatesAgree(s0: uint32, s1: uint32, inc: uint32)
    ensures SeededState(s0, inc) == SeededState(s1, inc) <==> s0 == s1
  {
    var x := StateAfter(1, 0, inc);
    StepInjective(Add32(x, s0), Add32(x, s1), inc);
    CongruentIff(x + s0, x + s1, TWO_32);
    MultipleInRange(s0 - s1, TWO_32);
  }

  /** Two seedings start the same generator exactly when they agree on the whole initial
      state and on the low 31 bits of the stream selector. */
  lemma SeedsDistinguished(s0: uint32, q0: uint32, s1: uint32, q1: uint32)
    ensures SeededState(s0, StreamIncrement(q0)) == SeededState(s1, StreamIncrement(q1))
            && StreamIncrement(q0) == StreamIncrement(q1)
       <==> s0 == s1 && q0 % 0x8000_0000 == q1 % 0x8000_0000
  {
    IncrementsAgree(q0, q1);
    StatesAgree(s0, s1, StreamIncrement(q0));
  }

  lemma FirstStep(inc: uint32)
    ensures StateAfter(1, 0, inc) == inc
  {
    StepIsAffine(0, inc);
    SmallMod(inc, TWO_32);
  }

  lemma AffineOfSum(x: nat, m: nat, c: nat, q: nat)
    requires q > 0
    ensures (x % q * m + c) % q == (x * m + c) % q
  {
    MulMod(x, m, q);
    AddMod(x % q * m, c, q);
    AddMod(x * m, c, q);
  }

  /** Seeding written out: the increment is an odd number made of the low 31 bits of the selector... */
  lemma IncrementInArithmetic(initseq: uint32)
    ensures StreamIncrement(initseq) == 2 * (initseq % 0x8000_0000) + 1
    ensures StreamIncrement(initseq) % 2 == 1
  {
    LowIsMod(initseq, 31);
    Pow2Widths();
    assert Pow2(32) == 2 * Pow2(31);
  }

  lemma StepFromSum(x: uint32, sum: nat, inc: uint32)
    requires x == sum % 0x1_0000_0000
    ensures StateAfter(1, x, inc) == (sum * 747796405 + inc) % 0x1_0000_0000
  {
    StepIsAffine(x, inc);
    AffineOfSum(sum, 747796405, inc, 0x1_0000_0000);
  }

  lemma SecondStep(initstate: uint32, inc: uint32)
    ensures SeededState(initstate, inc) == StateAfter(1, Add32(inc, initstate), inc)
  {
    FirstStep(inc);
  }

  /** ... and the state is one affine step from the sum of the increment and the argument. */
  lemma StateInArithmetic(initstate: uint32, inc: uint32, state: uint32)
    requires state == SeededState(initstate, inc)
    ensures state == ((inc + initstate) * 747796405 + inc) % 0x1_0000_0000
  {
    SecondStep(initstate, inc);
    StepFromSum(Add32(inc, initstate), inc + initstate, inc);
  }

  lemma SeedingInArithmetic(initstate: uint32, initseq: uint32, inc: uint32, state: uint32)
    requires inc == StreamIncrement(initseq) && state == SeededState(initstate, inc)
    ensures inc % 2 == 1 && inc == 2 * (initseq % 0x8000_0000) + 1
    ensures state == ((inc + initstate) * 747796405 + inc) % 0x1_0000_0000
  {
    IncrementInArithmetic(initseq);
    StateInArithmetic(initstate, inc, state);
  }

  // ----- The generator object -----

  class PcgSetseq32 {
    var state: uint32
    var inc: uint32

    /** Static storage: zero until seeded. */
    constructor ()
      ensures state == 0 && inc == 0
    {
      state, inc := 0, 0;
    }

    method Step()
      modifies this`state
      ensures state == StateAfter(1, old(state), inc)
    {
      StepIsAffine(state, inc);
      state := (state * MULTIPLIER_32 + inc) % TWO_32;
    }

    /** Seeding makes the increment odd, whatever the arguments. */
    method Srandom(initstate: uint32, initseq: uint32)
      modifies this
      ensures inc == StreamIncrement(initseq) && inc % 2 == 1
      ensures state == SeededState(initstate, inc)
      ensures inc == 2 * (initseq % 0x8000_0000) + 1
      ensures state == ((inc + initstate) * 747796405 + inc) % 0x1_0000_0000
    {
      state := 0;
      inc := StreamIncrement(initseq);
      Step();
      ghost var first := state;
      state := Add32(state, initstate);
      Step();
      assert state == StateAfter(1, Add32(first, initstate), inc) && first == StateAfter(1, 0, inc);
      SeedingInArithmetic(initstate, initseq, inc, state);
    }

    /** `pcg_setseq_32_rxs_m_xs_32_random_r`: the output is taken from the old state. */
    method NextWord() returns (r: uint32)
      modifies this`state
      ensures r == Random32(old(state)) && state == StateAfter(1, old(state), inc)
      ensures state == (old(state) * 747796405 + inc) % 0x1_0000_0000
      ensures exists u: nat :: u < 0x1_0000_0000 && FlippedFromAbove(u, old(state), 4 + old(state) / 0x1000_0000, 32)
                               && FlippedFromAbove(r, u * 277803737 % 0x1_0000_0000, 22, 32)
    {
      var oldState := state;
      RxsMXs32Bits(oldState, Random32(oldState));
      StepIsAffine(oldState, inc);
      Step();
      r := Random32(oldState);
    }

    /** `pcg_setseq_32_xsh_rs_16_random_r`. */
    method NextHalfWord() returns (r: uint16)
      modifies this`state
      ensures r == OutputXshRs(old(state)) && state == StateAfter(1, old(state), inc)
      ensures state == (old(state) * 747796405 + inc) % 0x1_0000_0000
      ensures forall i: nat :: i < 16 ==>
                (Bit(r, i) <==> (Bit(old(state), i + 11 + old(state) / 0x4000_0000)
                                 != Bit(old(state), i + 11 + old(state) / 0x4000_0000 + 11)))
    {
      var oldState := state;
      forall i: nat | i < 16
        ensures Bit(OutputXshRs(oldState), i) <==>
                (Bit(oldState, i + 11 + oldState / 0x4000_0000) != Bit(oldState, i + 11 + oldState / 0x4000_0000 + 11))
      {
        XshRsBits(oldState, i);
      }
      StepIsAffine(oldState, inc);
      Step();
      r := OutputXshRs(oldState);
    }

    /** Rejection sampling returns after at most `Threshold(bound) + 1` draws, which is at most
        `bound`: the first accepted word, reduced modulo the bound. */
    method BoundedRand(bound: uint32) returns (r: uint32, ghost draws: nat)
      requires bound >= 1 && inc % 2 == 1
      modifies this`state
      ensures 1 <= draws <= Threshold(bound) + 1 <= bound
      ensures state == StateAfter(draws, old(state), inc)
      ensures forall i: nat :: i < draws - 1 ==> !Accepted(Random32(StateAfter(i, old(state), inc)), bound)
      ensures Accepted(Random32(StateAfter(draws - 1, old(state), inc)), bound)
      ensures r == Random32(StateAfter(draws - 1, old(state), inc)) % bound < bound
    {
      var threshold := Sub32(0, bound) % bound;
      draws := 0;
      while true
        invariant state == StateAfter(draws, old(state), inc)
        invariant forall i: nat :: i < draws ==> !Accepted(Random32(StateAfter(i, old(state), inc)), bound)
        invariant draws <= threshold
        decreases threshold - draws
      {
        StateAfterAdd(draws, 1, old(state), inc);
        var word := NextWord();
        draws := draws + 1;
        if word >= threshold {
          r := word % bound;
          return;
        }
        RejectionsBounded(draws, old(state), inc, bound);
      }
    }
  }

  // ----- Multiplicative generators -----

  /** The multipliers of the library at 8, 16, 32 and 64 bits. */
  predicate IsMultiplier(m: nat) {
    m in {141, 12829, 747796405, 6364136223846793005}
  }

  /** Each multiplier of the library gives every width its full period with any odd increment... */
  lemma LcgCycle(m: nat, inc: nat, n: nat, x: nat, w: nat)
    requires IsMultiplier(m) && inc % 2 == 1 && x < Pow2(w)
    ensures Orbit(n, x, m, inc, w) == x <==> n % Pow2(w) == 0
  {
    assert m % 4 == 1;
    FullPeriod(n, x, m, inc, w);
  }

  /** `initstate | 1`. */
  function McgSeed(initstate: nat): (s: nat)
    ensures s % 2 == 1 && s / 2 == initstate / 2
  {
    OrOne(initstate);
    Or(initstate, 1)
  }

  lemma McgSeedFits(initstate: nat, w: nat)
    requires w > 0 && initstate < Pow2(w)
    ensures McgSeed(initstate) < Pow2(w)
  {
    assert Pow2(w) == 2 * Pow2(w - 1);
  }

  /** ... and without an increment, seeded as the library does it, a cycle of `2^(w-2)` odd
      states. */
  lemma McgCycle(initstate: nat, m: nat, n: nat, w: nat)
    requires IsMultiplier(m) && w >= 2 && initstate < Pow2(w)
    ensures Orbit(n, McgSeed(initstate), m, 0, w) % 2 == 1
    ensures Orbit(n, McgSeed(initstate), m, 0, w) == McgSeed(initstate) <==> n % Pow2(w - 2) == 0
  {
    var s := McgSeed(initstate);
    McgSeedFits(initstate, w);
    McgStaysOdd(n, s, m, w);
    McgPeriod(n, s, m, w);
  }
}
