/** Reading the 64-bit tick counter through two 32-bit registers.

    Times below are true tick counts, which never wrap; the hardware register shows them
    modulo 2^64. */
module SysTick {
  import opened Words
  import opened PcgOutput

  function Register(t: nat): uint64 {
    t % TWO_64
  }

  /** The three register reads of one call: high word, low word, high word again. */
  datatype Reads = Reads(hiBefore: uint32, lo: uint32, hiAfter: uint32)

  /** What is read at the true tick counts `t1`, `t2` and `t3`. */
  function ReadsAt(t1: nat, t2: nat, t3: nat): Reads {
    Reads(HighWord(Register(t1)), LowWord(Register(t2)), HighWord(Register(t3)))
  }

  function Cnt64(r: Reads): uint64 {
    var hi := if Bit(r.lo, 31) then r.hiBefore else r.hiAfter;
    Join(hi, r.lo)
  }

  lemma TopBit(x: uint32)
    ensures Bit(x, 31) <==> x >= 0x8000_0000
  {
    Pow2Widths();
    assert Pow2(32) == 2 * Pow2(31);
    ShrIsDiv(x, 31);
  }

  lemma RegisterWords(t: nat)
    ensures LowWord(Register(t)) == t % TWO_32
    ensures HighWord(Register(t)) == t / TWO_32 % TWO_32
  {
    Pow2Widths();
    LowIsMod(Register(t), 32);
    ShrIsDiv(Register(t), 32);
    ModFactor(t, TWO_32, TWO_32);
  }

  lemma RegisterOfWords(t: nat)
    ensures Register(t) == Join(t / TWO_32 % TWO_32, t % TWO_32)
  {
    RegisterWords(t);
    JoinHalves(Register(t));
  }

  lemma JoinsAgree(h0: uint32, h1: uint32, l: uint32)
    ensures Join(h0, l) == Join(h1, l) <==> h0 == h1
  {
  }

  /** The true count at the middle read reached its high word within the last `lo + 1` ticks,
      and keeps it for the next `2^32 - lo - 1`. */
  lemma SameHighWord(t1: nat, t2: nat)
    requires t1 <= t2 < t1 + TWO_64 - TWO_32
    ensures t1 / TWO_32 % TWO_32 == t2 / TWO_32 % TWO_32 <==> t2 - t1 <= t2 % TWO_32
    ensures t1 / TWO_32 % TWO_32 == t2 / TWO_32 % TWO_32 <==> t2 - t1 < TWO_32 - t1 % TWO_32
  {
    var h1, h2 := t1 / TWO_32, t2 / TWO_32;
    CongruentIff(h2, h1, TWO_32);
    MultipleInRange(h2 - h1, TWO_32);
  }

  /** Exactly when a call returns the true count of the instant at which it reads the low
      word: the high word it pairs with that low word must not have changed in between. The
      three reads must fall within one lap of the counter. */
  lemma Cnt64ExactIff(t1: nat, t2: nat, t3: nat)
    requires t1 <= t2 <= t3 < t1 + TWO_64 - TWO_32
    ensures Cnt64(ReadsAt(t1, t2, t3)) == Register(t2)
       <==> if t2 % TWO_32 >= 0x8000_0000 then t2 - t1 <= t2 % TWO_32 else t3 - t2 < TWO_32 - t2 % TWO_32
  {
    var h1, h2, h3, l := t1 / TWO_32 % TWO_32, t2 / TWO_32 % TWO_32, t3 / TWO_32 % TWO_32, t2 % TWO_32;
    RegisterWords(t1);
    RegisterWords(t2);
    RegisterWords(t3);
    RegisterOfWords(t2);
    TopBit(l);
    JoinsAgree(h1, h2, l);
    JoinsAgree(h3, h2, l);
    SameHighWord(t1, t2);
    SameHighWord(t2, t3);
  }

  /** At most 2^31 ticks between adjacent reads suffice... */
  lemma Cnt64Exact(t1: nat, t2: nat, t3: nat)
    requires t1 <= t2 <= t3 && t2 - t1 <= 0x8000_0000 && t3 - t2 <= 0x8000_0000
    ensures Cnt64(ReadsAt(t1, t2, t3)) == Register(t2)
  {
    Cnt64ExactIff(t1, t2, t3);
  }

  /** ... and no larger bound does: one more tick, before the low-word read or after it, tears
      the count at every lap of the low word. */
  lemma Cnt64Torn(t1: nat, t2: nat, t3: nat)
    requires t1 <= t2 <= t3 < t1 + TWO_64 - TWO_32
    requires (t2 % TWO_32 == 0x8000_0000 && t2 - t1 == 0x8000_0001)
          || (t2 % TWO_32 == 0x7fff_ffff && t3 - t2 == 0x8000_0001)
    ensures Cnt64(ReadsAt(t1, t2, t3)) != Register(t2)
  {
    Cnt64ExactIff(t1, t2, t3);
  }

  /** Calls linearize: when one call ends before the next begins, and fewer than 2^64 ticks
      have passed since reset, the results are ordered like the calls, and later low-word
      reads give larger results. */
  lemma CallsLinearize(t1: nat, t2: nat, t3: nat, u1: nat, u2: nat, u3: nat)
    requires t1 <= t2 <= t3 <= u1 <= u2 <= u3 < TWO_64
    requires t2 - t1 <= 0x8000_0000 && t3 - t2 <= 0x8000_0000
    requires u2 - u1 <= 0x8000_0000 && u3 - u2 <= 0x8000_0000
    ensures t1 <= Cnt64(ReadsAt(t1, t2, t3)) <= t3
    ensures Cnt64(ReadsAt(t1, t2, t3)) <= Cnt64(ReadsAt(u1, u2, u3))
    ensures t2 < u2 ==> Cnt64(ReadsAt(t1, t2, t3)) < Cnt64(ReadsAt(u1, u2, u3))
  {
    Cnt64Exact(t1, t2, t3);
    Cnt64Exact(u1, u2, u3);
    SmallMod(t2, TWO_64);
    SmallMod(u2, TWO_64);
  }
}
