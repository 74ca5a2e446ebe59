/** The random sources of the firmware: a Chaskey-8 generator over the tick counter whose key
    is stirred by injected entropy, and a PCG generator seeded from it. */
module Prng {
  import opened Words
  import opened Bits
  import opened PcgOutput
  import opened Pcg
  import opened Chaskey
  import opened SysTick

  // ----- The counter-mode blocks -----

  /** The 128-bit block a key produces at a counter value. */
  function BlockAt(key: Block, tick: uint64): Block {
    Permute(Block(LowWord(tick), HighWord(tick), 0, 0), key)
  }

  /** Under one key, different ticks give different blocks. */
  lemma BlocksDiffer(key: Block, t: uint64, u: uint64)
    requires t != u
    ensures BlockAt(key, t) != BlockAt(key, u)
  {
    JoinHalves(t);
    JoinHalves(u);
    ShortMessagesDiffer(LowWord(t), HighWord(t), LowWord(u), HighWord(u), key);
  }

  /** No block repeats under an unchanged key while the clock advances from call to call and
      has not wrapped. The `i`-th call makes its three clock reads at `before[i]`, `at[i]`
      and `after[i]`. */
  lemma NoRepeatedBlock(key: Block, before: seq<nat>, at: seq<nat>, after: seq<nat>, i: nat, j: nat)
    requires |before| == |at| == |after| && i < j < |at|
    requires forall k :: 0 <= k < |at| ==>
               before[k] <= at[k] <= after[k] < TWO_64
               && at[k] - before[k] <= 0x8000_0000 && after[k] - at[k] <= 0x8000_0000
    requires forall k, l :: 0 <= k < l < |at| ==> at[k] < at[l]
    ensures BlockAt(key, Cnt64(ReadsAt(before[i], at[i], after[i])))
         != BlockAt(key, Cnt64(ReadsAt(before[j], at[j], after[j])))
  {
    Cnt64Exact(before[i], at[i], after[i]);
    Cnt64Exact(before[j], at[j], after[j]);
    SmallMod(at[i], TWO_64);
    SmallMod(at[j], TWO_64);
    BlocksDiffer(key, at[i], at[j]);
  }

  // ----- Initial stirring -----

  const STIRRINGS := 16

  /** The key of the `r`-th stirring round: four hardware words, each rotated by `2 * r`. */
  function StirringKey(random: seq<uint32>, r: nat): Block
    requires 4 * r + 4 <= |random|
  {
    Block(RotateLeft32(random[4 * r], r * 2), RotateLeft32(random[4 * r + 1], r * 2),
          RotateLeft32(random[4 * r + 2], r * 2), RotateLeft32(random[4 * r + 3], r * 2))
  }

  /** Rotated by `2 * r`: the word times `2^(2r)`, with what overflows coming back at the bottom. */
  lemma StirringKeyWords(random: seq<uint32>, r: nat)
    requires r < 16 && 4 * r + 4 <= |random|
    ensures var k, up, down := StirringKey(random, r), Pow2(2 * r), Pow2(32 - 2 * r);
            forall i: nat :: i < 4 ==>
              [k.v0, k.v1, k.v2, k.v3][i] == random[4 * r + i] * up % 0x1_0000_0000 + random[4 * r + i] / down
  {
    Rotate32Value(random[4 * r], 2 * r);
    Rotate32Value(random[4 * r + 1], 2 * r);
    Rotate32Value(random[4 * r + 2], 2 * r);
    Rotate32Value(random[4 * r + 3], 2 * r);
  }

  function Fold<S, K>(f: (S, K) -> S, s: S, ks: seq<K>): S {
    if ks == [] then s else f(Fold(f, s, ks[..|ks| - 1]), ks[|ks| - 1])
  }

  function Unfold<S, K>(g: (S, K) -> S, s: S, ks: seq<K>): S {
    if ks == [] then s else Unfold(g, g(s, ks[|ks| - 1]), ks[..|ks| - 1])
  }

  lemma {:induction false} FoldInverse<S(!new), K(!new)>(f: (S, K) -> S, g: (S, K) -> S, s: S, ks: seq<K>)
    requires forall x, k :: g(f(x, k), k) == x && f(g(x, k), k) == x
    ensures Unfold(g, Fold(f, s, ks), ks) == s
    ensures Fold(f, Unfold(g, s, ks), ks) == s
  {
    if ks != [] {
      var init, k := ks[..|ks| - 1], ks[|ks| - 1];
      FoldInverse(f, g, s, init);
      FoldInverse(f, g, g(s, k), init);
    }
  }

  function StirringKeys(random: seq<uint32>, rounds: nat): (ks: seq<Block>)
    requires 4 * rounds <= |random|
    ensures |ks| == rounds && forall r :: 0 <= r < rounds ==> ks[r] == StirringKey(random, r)
  {
    if rounds == 0 then [] else StirringKeys(random, rounds - 1) + [StirringKey(random, rounds - 1)]
  }

  /** The key after the stirring rounds: each one permutes the key under hardware words. */
  function Stirred(key: Block, random: seq<uint32>, rounds: nat): Block
    requires 4 * rounds <= |random|
  {
    Fold(Permute, key, StirringKeys(random, rounds))
  }

  function Unstirred(key: Block, random: seq<uint32>, rounds: nat): Block
    requires 4 * rounds <= |random|
  {
    Unfold(Unpermute, key, StirringKeys(random, rounds))
  }

  lemma StirOnce(key: Block, random: seq<uint32>, rounds: nat)
    requires 4 * rounds + 4 <= |random|
    ensures Stirred(key, random, rounds + 1) == Permute(Stirred(key, random, rounds), StirringKey(random, rounds))
  {
    assert StirringKeys(random, rounds + 1)[..rounds] == StirringKeys(random, rounds);
  }

  /** Whatever the hardware words are, stirring maps the initial keys one-to-one onto all keys. */
  lemma StirringIsBijective(key: Block, random: seq<uint32>, rounds: nat)
    requires 4 * rounds <= |random|
    ensures Unstirred(Stirred(key, random, rounds), random, rounds) == key
    ensures Stirred(Unstirred(key, random, rounds), random, rounds) == key
  {
    var f: (Block, Block) -> Block, g: (Block, Block) -> Block := Permute, Unpermute;
    forall x, k ensures g(f(x, k), k) == x && f(g(x, k), k) == x {
      ChaskeyPermutation(x, k);
    }
    FoldInverse(f, g, key, StirringKeys(random, rounds));
  }

  // ----- Entropy injection -----

  /** One atomic call that feeds entropy in. */
  datatype Injection = Lowbits(input: uint32) | Random(word: uint32)

  datatype Pool = Pool(key: seq<uint32>, inject: uint32, count: uint32) {
    predicate Valid() {
      |key| == 4
    }
  }

  function Shl32(x: uint32, k: nat): uint32 {
    Pow2Widths();
    LowIsMod(Scale(x, k), 32);
    Shl(x, k, 32)
  }

  /** A left shift is a product reduced to the word. */
  lemma Shl32Value(x: uint32, k: nat)
    ensures Shl32(x, k) == x * Pow2(k) % 0x1_0000_0000
  {
    Pow2Widths();
    ScaleIsMul(x, k);
    LowIsMod(x * Pow2(k), 32);
  }

  /** The key word that a call touches, from the value of the counter after its update. */
  function KeyIndex(count: uint32): nat {
    count / 32 % 4
  }

  function XorInto(key: seq<uint32>, i: nat, x: uint32): (r: seq<uint32>)
    requires |key| == 4 && i < 4
    ensures |r| == 4
  {
    key[i := Xor32(key[i], x)]
  }

  /** `kInCount` after the call. */
  function CountAfter(count: uint32, e: Injection): uint32 {
    (count + (if e.Lowbits? then 1 else 32)) % TWO_32
  }

  /** Whether the call that left the counter at `count` writes the key. */
  predicate WritesKey(count: uint32, e: Injection) {
    e.Random? || count % 32 == 0
  }

  function Absorb(p: Pool, e: Injection): (r: Pool)
    requires p.Valid()
    ensures r.Valid()
  {
    var count := CountAfter(p.count, e);
    match e
    case Lowbits(x) =>
      var key := if count % 32 == 0 then XorInto(p.key, KeyIndex(count), p.inject) else p.key;
      Pool(key, Xor32(p.inject, Shl32(x, count % 32)), count)
    case Random(x) =>
      Pool(XorInto(p.key, KeyIndex(count), x), p.inject, count)
  }

  function AbsorbAll(p: Pool, es: seq<Injection>): (r: Pool)
    requires p.Valid()
    ensures r.Valid()
    decreases |es|
  {
    if es == [] then p else AbsorbAll(Absorb(p, es[0]), es[1..])
  }

  /** The key indices written by a sequence of calls, in order. */
  function Writes(count: uint32, es: seq<Injection>): seq<nat>
    decreases |es|
  {
    if es == [] then []
    else
      var c := CountAfter(count, es[0]);
      (if WritesKey(c, es[0]) then [KeyIndex(c)] else []) + Writes(c, es[1..])
  }

  lemma CountByOne(count: uint32)
    ensures var c := (count + 1) % TWO_32;
            if c % 32 == 0 then KeyIndex(c) == (count / 32 + 1) % 4 else c / 32 == count / 32
  {
  }

  lemma CountByRow(count: uint32)
    ensures KeyIndex((count + 32) % TWO_32) == (count / 32 + 1) % 4
  {
  }

  lemma NextInTurn(c: uint32, count: uint32, n: nat)
    requires KeyIndex(c) == (count / 32 + 1) % 4
    ensures (c / 32 + 1 + n) % 4 == (count / 32 + 1 + (n + 1)) % 4
  {
  }

  /** Round robin: successive key writes hit consecutive indices modulo 4, for every sequence
      of calls and across the wrap of the counter. */
  lemma {:induction false} RoundRobin(count: uint32, es: seq<Injection>, n: nat)
    requires n < |Writes(count, es)|
    ensures Writes(count, es)[n] == (count / 32 + 1 + n) % 4
    decreases |es|
  {
    var c := CountAfter(count, es[0]);
    if WritesKey(c, es[0]) {
      CountByOne(count);
      CountByRow(count);
      if n > 0 {
        RoundRobin(c, es[1..], n - 1);
        NextInTurn(c, count, n - 1);
      }
    } else {
      CountByOne(count);
      RoundRobin(c, es[1..], n);
    }
  }

  /** The same writes with what each one carries: the accumulator as it was before the call,
      or the hardware word. */
  function Written(p: Pool, es: seq<Injection>): seq<(nat, uint32)>
    requires p.Valid()
    decreases |es|
  {
    if es == [] then []
    else
      var c := CountAfter(p.count, es[0]);
      (if WritesKey(c, es[0]) then [(KeyIndex(c), if es[0].Lowbits? then p.inject else es[0].word)] else [])
      + Written(Absorb(p, es[0]), es[1..])
  }

  lemma {:induction false} WrittenInTurn(p: Pool, es: seq<Injection>)
    requires p.Valid()
    ensures |Written(p, es)| == |Writes(p.count, es)|
    ensures forall n :: 0 <= n < |Written(p, es)| ==> Written(p, es)[n].0 == Writes(p.count, es)[n]
    decreases |es|
  {
    if es != [] {
      WrittenInTurn(Absorb(p, es[0]), es[1..]);
    }
  }

  /** The exclusive or of everything written to key word `i`. */
  function CarriedTo(ws: seq<(nat, uint32)>, i: nat): uint32 {
    if ws == [] then 0 else Xor32(if ws[0].0 == i then ws[0].1 else 0, CarriedTo(ws[1..], i))
  }

  lemma CarriedCons(key: uint32, w: (nat, uint32), ws: seq<(nat, uint32)>, i: nat)
    ensures Xor32(key, CarriedTo([w] + ws, i))
         == Xor32(if w.0 == i then Xor32(key, w.1) else key, CarriedTo(ws, i))
  {
    assert ([w] + ws)[1..] == ws;
    if w.0 == i {
      XorAssoc(key, w.1, CarriedTo(ws, i));
    } else {
      XorZero(CarriedTo(ws, i));
    }
  }

  lemma AbsorbWrites(p: Pool, e: Injection, ws: seq<(nat, uint32)>, i: nat)
    requires p.Valid() && i < 4
    ensures var c := CountAfter(p.count, e);
            var w := (KeyIndex(c), if e.Lowbits? then p.inject else e.word);
            Xor32(Absorb(p, e).key[i], CarriedTo(ws, i))
            == Xor32(p.key[i], CarriedTo((if WritesKey(c, e) then [w] else []) + ws, i))
  {
    var c := CountAfter(p.count, e);
    CarriedCons(p.key[i], (KeyIndex(c), if e.Lowbits? then p.inject else e.word), ws, i);
    assert [] + ws == ws;
  }

  /** After any sequence of calls, each key word is the initial one with everything that was
      written to it added; a word that no write names is unchanged. */
  lemma {:induction false} KeyIsWritten(p: Pool, es: seq<Injection>, i: nat)
    requires p.Valid() && i < 4
    ensures AbsorbAll(p, es).key[i] == Xor32(p.key[i], CarriedTo(Written(p, es), i))
    decreases |es|
  {
    if es == [] {
      XorZero(p.key[i]);
    } else {
      KeyIsWritten(Absorb(p, es[0]), es[1..], i);
      AbsorbWrites(p, es[0], Written(Absorb(p, es[0]), es[1..]), i);
    }
  }

  lemma {:induction false} NothingCarried(ws: seq<(nat, uint32)>, i: nat)
    requires forall n :: 0 <= n < |ws| ==> ws[n].0 != i
    ensures CarriedTo(ws, i) == 0
  {
    if ws != [] {
      NothingCarried(ws[1..], i);
      XorZero(0);
    }
  }

  lemma OnlyListedWrites(p: Pool, es: seq<Injection>, i: nat)
    requires p.Valid() && i < 4 && i !in Writes(p.count, es)
    ensures AbsorbAll(p, es).key[i] == p.key[i]
  {
    WrittenInTurn(p, es);
    NothingCarried(Written(p, es), i);
    KeyIsWritten(p, es, i);
    XorZero(p.key[i]);
  }

  /** The arguments of the `CSPrngInjectLowbits` calls. */
  function LowbitsInputs(es: seq<Injection>): seq<uint32> {
    if es == [] then []
    else (if es[0].Lowbits? then [es[0].input] else []) + LowbitsInputs(es[1..])
  }

  /** The exclusive or of the inputs, the first shifted by `first`, each one after it by one
      place more, modulo 32. */
  function ShiftedSum(inputs: seq<uint32>, first: nat): uint32
    requires first < 32
  {
    if inputs == [] then 0
    else Xor32(Shl32(inputs[0], first), ShiftedSum(inputs[1..], (first + 1) % 32))
  }

  lemma SumCons(inject: uint32, x: uint32, inputs: seq<uint32>, first: nat)
    requires first < 32
    ensures Xor32(Xor32(inject, Shl32(x, first)), ShiftedSum(inputs, (first + 1) % 32))
         == Xor32(inject, ShiftedSum([x] + inputs, first))
  {
    assert ([x] + inputs)[1..] == inputs;
    XorAssoc(inject, Shl32(x, first), ShiftedSum(inputs, (first + 1) % 32));
  }

  lemma ShiftAfter(count: uint32, e: Injection)
    ensures CountAfter(count, e) % 32 == (if e.Lowbits? then (count + 1) % 32 else count % 32)
    ensures (CountAfter(count, e) + 1) % 32 == (CountAfter(count, e) % 32 + 1) % 32
    ensures (count + 1) % 32 == (count % 32 + 1) % 32
  {
    ModFactor(count + 1, 32, 0x800_0000);
    ModFactor(count + 32, 32, 0x800_0000);
    AddMod(count, 1, 32);
    AddMod(count, 32, 32);
    AddMod(CountAfter(count, e), 1, 32);
  }

  lemma SumAfterAbsorb(p: Pool, e: Injection, inputs: seq<uint32>)
    requires p.Valid()
    ensures Xor32(Absorb(p, e).inject, ShiftedSum(inputs, (Absorb(p, e).count + 1) % 32))
         == Xor32(p.inject, ShiftedSum((if e.Lowbits? then [e.input] else []) + inputs, (p.count + 1) % 32))
  {
    ShiftAfter(p.count, e);
    match e
    case Lowbits(x) => SumCons(p.inject, x, inputs, (p.count + 1) % 32);
    case Random(_) => assert [] + inputs == inputs;
  }

  /** The accumulator holds every input, shifted by the number of its `CSPrngInjectLowbits`
      call modulo 32; calls of `CSPrngInjectRandom` in between do not disturb the numbering. */
  lemma {:induction false} InjectIsShiftedSum(p: Pool, es: seq<Injection>)
    requires p.Valid()
    ensures AbsorbAll(p, es).inject == Xor32(p.inject, ShiftedSum(LowbitsInputs(es), (p.count + 1) % 32))
    decreases |es|
  {
    if es == [] {
      XorZero(p.inject);
    } else {
      InjectIsShiftedSum(Absorb(p, es[0]), es[1..]);
      SumAfterAbsorb(p, es[0], LowbitsInputs(es[1..]));
    }
  }

  lemma XorDifferenceKept(a: uint32, b: uint32, x: uint32)
    ensures Xor32(Xor32(a, x), Xor32(b, x)) == Xor32(a, b)
  {
    XorComm(b, x);
    XorAssoc(a, x, Xor32(x, b));
    XorCancel(b, x);
  }

  /** Two runs fed alike keep the difference of their keys. So injection never merges two
      keys: what an observer does not know about the key stays unknown. */
  lemma {:induction false} KeyDifferenceInvariant(p: Pool, q: Pool, es: seq<Injection>, i: nat)
    requires p.Valid() && q.Valid() && p.inject == q.inject && p.count == q.count && i < 4
    ensures Xor32(AbsorbAll(p, es).key[i], AbsorbAll(q, es).key[i]) == Xor32(p.key[i], q.key[i])
    decreases |es|
  {
    if es != [] {
      var p', q' := Absorb(p, es[0]), Absorb(q, es[0]);
      KeyDifferenceInvariant(p', q', es[1..], i);
      match es[0]
      case Lowbits(_) => XorDifferenceKept(p.key[i], q.key[i], p.inject);
      case Random(x) => XorDifferenceKept(p.key[i], q.key[i], x);
    }
  }

  lemma SeedParts(w: uint64)
    ensures w / 0x1_0000_0000 == HighWord(w) && w % 0x8000_0000 == LowWord(w) % 0x8000_0000
  {
    HalvesValue(w);
    ModFactor(w, 0x8000_0000, 2);
  }

  // ----- The module state -----

  class Prng {
    const key: array<uint32>
    var inject: uint32
    var inCount: uint32
    const pcg: PcgSetseq32

    ghost predicate Valid() {
      key.Length == 4
    }

    ghost function KeyBlock(): Block
      requires Valid()
      reads key
    {
      BlockOf(key[..])
    }

    ghost function View(): Pool
      requires Valid()
      reads this, key
    {
      Pool(key[..], inject, inCount)
    }

    constructor ()
      ensures Valid() && fresh(key) && fresh(pcg)
    {
      key := new uint32[4];
      inject, inCount := 0, 0;
      pcg := new PcgSetseq32();
    }

    /** `CSPrngInit` over the next 68 words of the hardware generator. */
    method InitKey(random: seq<uint32>)
      requires Valid() && |random| == 68
      modifies this, key
      ensures Valid() && inject == 0 && inCount == 0
      ensures KeyBlock() == Stirred(BlockOf(random[..4]), random[4..], 16)
    {
      for i := 0 to 4
        invariant key[..i] == random[..i]
      {
        key[i] := random[i];
      }
      assert key[..] == random[..4];
      StirKey(random[4..], STIRRINGS);
      inject, inCount := 0, 0;
    }

    /** The stirring rounds of `CSPrngInit`. */
    method StirKey(random: seq<uint32>, rounds: nat)
      requires Valid() && |random| == 4 * rounds
      modifies key
      ensures KeyBlock() == Stirred(old(KeyBlock()), random, rounds)
    {
      ghost var initial := KeyBlock();
      var round := 0;
      while round < rounds
        invariant round <= rounds && KeyBlock() == Stirred(initial, random, round)
      {
        ghost var before := KeyBlock();
        StirRound(random, round);
        assert KeyBlock() == Permute(before, StirringKey(random, round));
        StirOnce(initial, random, round);
        round := round + 1;
      }
    }

    method StirRound(random: seq<uint32>, round: nat)
      requires Valid() && 4 * round + 4 <= |random|
      modifies key
      ensures KeyBlock() == Permute(old(KeyBlock()), StirringKey(random, round))
    {
      var trng := DrawStirringKey(random, round);
      Chaskey8(key, trng);
    }

    /** The inner loop of the stirring: four rotated hardware words. */
    static method DrawStirringKey(random: seq<uint32>, round: nat) returns (trng: array<uint32>)
      requires 4 * round + 4 <= |random|
      ensures fresh(trng) && trng.Length == 4 && BlockOf(trng[..]) == StirringKey(random, round)
    {
      trng := new uint32[4];
      for i := 0 to 4
        invariant forall k :: 0 <= k < i ==> trng[k] == RotateLeft32(random[4 * round + k], round * 2)
      {
        trng[i] := RotateLeft32(random[4 * round + i], round * 2);
      }
    }

    /** `PcgInit`: both halves of the Chaskey word `w` seed the PCG, whose increment becomes odd. */
    method InitPcg(clock: Reads) returns (ghost w: uint64)
      requires Valid()
      modifies pcg
      ensures Valid() && w == Folded(BlockAt(KeyBlock(), Cnt64(clock)))
      ensures pcg.inc % 2 == 1 && pcg.inc == StreamIncrement(LowWord(w)) && pcg.state == SeededState(HighWord(w), pcg.inc)
      ensures pcg.inc == 2 * (w % 0x8000_0000) + 1
      ensures pcg.state == ((pcg.inc + w / 0x1_0000_0000) * 747796405 + pcg.inc) % 0x1_0000_0000
    {
      var hilo := DrawSeed(clock);
      w := hilo;
      SeedPcg(hilo);
    }

    /** The word that seeds the PCG: the first one under the stirred key. */
    method DrawSeed(clock: Reads) returns (r: uint64)
      requires Valid()
      ensures r == Folded(BlockAt(KeyBlock(), Cnt64(clock)))
    {
      r := UInt64(clock);
    }

    method SeedPcg(w: uint64)
      modifies pcg
      ensures pcg.inc % 2 == 1 && pcg.inc == StreamIncrement(LowWord(w)) && pcg.state == SeededState(HighWord(w), pcg.inc)
      ensures pcg.inc == 2 * (w % 0x8000_0000) + 1
      ensures pcg.state == ((pcg.inc + w / 0x1_0000_0000) * 747796405 + pcg.inc) % 0x1_0000_0000
    {
      SeedParts(w);
      pcg.Srandom(HighWord(w), LowWord(w));
    }

    method InjectLowbits(input: uint32)
      requires Valid()
      modifies this, key
      ensures Valid() && View() == Absorb(old(View()), Lowbits(input))
      ensures inCount == (old(inCount) + 1) % 0x1_0000_0000
      ensures inject == Xor(old(inject), input * Pow2(inCount % 32) % 0x1_0000_0000)
      ensures var i := inCount / 32 % 4;
              forall j :: 0 <= j < 4 ==>
                key[j] == if j == i && inCount % 32 == 0 then Xor(old(key[j]), old(inject)) else old(key[j])
    {
      inCount := (inCount + 1) % TWO_32;
      var shift := inCount % 32;
      var ndx := inCount / 32 % 4;
      if shift == 0 {
        key[ndx] := Xor32(key[ndx], inject);
      }
      Shl32Value(input, shift);
      inject := Xor32(inject, Shl32(input, shift));
    }

    method InjectRandom(random: uint32)
      requires Valid()
      modifies this, key
      ensures Valid() && View() == Absorb(old(View()), Random(random))
      ensures inCount == (old(inCount) + 32) % 0x1_0000_0000 && inject == old(inject)
      ensures var i := inCount / 32 % 4;
              forall j :: 0 <= j < 4 ==> key[j] == if j == i then Xor(old(key[j]), random) else old(key[j])
    {
      inCount := (inCount + 32) % TWO_32;
      var ndx := inCount / 32 % 4;
      key[ndx] := Xor32(key[ndx], random);
    }

    method UInt64(clock: Reads) returns (r: uint64)
      requires Valid()
      ensures r == Folded(BlockAt(KeyBlock(), Cnt64(clock)))
      ensures var t := Cnt64(clock);
              var b := Permute(Block(t % 0x1_0000_0000, t / 0x1_0000_0000, 0, 0), KeyBlock());
              r / 0x1_0000_0000 == Xor(b.v0, b.v1) && r % 0x1_0000_0000 == Xor(b.v2, b.v3)
    {
      var hilo := Cnt64(clock);
      HalvesValue(hilo);
      r := Chaskey8Fold(LowWord(hilo), HighWord(hilo), key);
    }

    /** All four words of one block: two in the result, two in `dst`. */
    method UInt64x2(dst: array<uint32>, clock: Reads) returns (r: uint64)
      requires Valid() && dst.Length == 2 && dst != key
      modifies dst
      ensures Valid()
      ensures Block(HighWord(r), LowWord(r), dst[0], dst[1]) == BlockAt(old(KeyBlock()), Cnt64(clock))
      ensures var t := Cnt64(clock);
              var b := Permute(Block(t % 0x1_0000_0000, t / 0x1_0000_0000, 0, 0), old(KeyBlock()));
              r / 0x1_0000_0000 == b.v0 && r % 0x1_0000_0000 == b.v1 && dst[0] == b.v2 && dst[1] == b.v3
    {
      var hilo := Cnt64(clock);
      HalvesValue(hilo);
      r := Chaskey8Wide(dst, LowWord(hilo), HighWord(hilo), key);
    }

    method PcgUInt16() returns (r: uint16)
      modifies pcg`state
      ensures r == OutputXshRs(old(pcg.state)) && pcg.state == StateAfter(1, old(pcg.state), pcg.inc)
    {
      r := pcg.NextHalfWord();
    }

    method PcgUInt32() returns (r: uint32)
      modifies pcg`state
      ensures r == Random32(old(pcg.state)) && pcg.state == StateAfter(1, old(pcg.state), pcg.inc)
    {
      r := pcg.NextWord();
    }

    /** Any interleaving of `n` draws of the two widths advances the shared state by `n`
        steps; the `i`-th value is the `i`-th state seen through its own output function. */
    method DrawAll(wide: seq<bool>) returns (out: seq<uint32>)
      modifies pcg`state
      ensures pcg.state == StateAfter(|wide|, old(pcg.state), pcg.inc)
      ensures |out| == |wide|
      ensures forall i :: 0 <= i < |wide| ==>
                out[i] == (if wide[i] then Random32(StateAfter(i, old(pcg.state), pcg.inc))
                           else OutputXshRs(StateAfter(i, old(pcg.state), pcg.inc)))
    {
      out := [];
      for i := 0 to |wide|
        invariant |out| == i && pcg.state == StateAfter(i, old(pcg.state), pcg.inc)
        invariant forall k :: 0 <= k < i ==>
                    out[k] == (if wide[k] then Random32(StateAfter(k, old(pcg.state), pcg.inc))
                               else OutputXshRs(StateAfter(k, old(pcg.state), pcg.inc)))
      {
        StateAfterAdd(i, 1, old(pcg.state), pcg.inc);
        if wide[i] {
          var w := PcgUInt32();
          out := out + [w];
        } else {
          var h := PcgUInt16();
          out := out + [h];
        }
      }
    }
  }
}
