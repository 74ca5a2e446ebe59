/** Chaskey-8: a keyed permutation of 128-bit blocks made of additions, rotations and
    exclusive ors, and its two register-only variants. */
module Chaskey {
  import opened Words
  import opened PcgOutput

  datatype Block = Block(v0: uint32, v1: uint32, v2: uint32, v3: uint32)

  const ROUNDS := 8

  function BlockOf(s: seq<uint32>): Block
    requires |s| == 4
  {
    Block(s[0], s[1], s[2], s[3])
  }

  // ----- Specification -----

  /** One add-rotate-xor step on a pair of words. */
  function Mix(a: uint32, b: uint32, r: nat): (uint32, uint32) {
    var sum := Add32(a, b);
    (sum, Xor32(RotateLeft32(b, r), sum))
  }

  function UnMix(sum: uint32, c: uint32, r: nat): (uint32, uint32) {
    var b := RotateRight32(Xor32(c, sum), r);
    (Sub32(sum, b), b)
  }

  lemma AddSub32(a: uint32, b: uint32)
    ensures Sub32(Add32(a, b), b) == a && Add32(Sub32(a, b), b) == a
  {
    var minus: int := 0 - b;
    AddMod(a + b, minus, TWO_32);
    AddMod(a - b, b, TWO_32);
    SmallMod(a, TWO_32);
  }

  lemma UnMixMix(a: uint32, b: uint32, r: nat)
    ensures var m := Mix(a, b, r); UnMix(m.0, m.1, r) == (a, b)
  {
    XorCancel(RotateLeft32(b, r), Add32(a, b));
    Rotate32Inverse(b, r);
    AddSub32(a, b);
  }

  lemma MixUnMix(sum: uint32, c: uint32, r: nat)
    ensures var u := UnMix(sum, c, r); Mix(u.0, u.1, r) == (sum, c)
  {
    Rotate32Inverse(Xor32(c, sum), r);
    XorCancel(c, sum);
    AddSub32(sum, RotateRight32(Xor32(c, sum), r));
  }

  function Round(v: Block): Block {
    var (a0, a1) := Mix(v.v0, v.v1, 5);
    var b0 := RotateLeft32(a0, 16);
    var (b2, b3) := Mix(v.v2, v.v3, 8);
    var (c0, c3) := Mix(b0, b3, 13);
    var (d2, d1) := Mix(b2, a1, 7);
    Block(c0, d1, RotateLeft32(d2, 16), c3)
  }

  function UnRound(v: Block): Block {
    var (b2, a1) := UnMix(RotateRight32(v.v2, 16), v.v1, 7);
    var (b0, b3) := UnMix(v.v0, v.v3, 13);
    var (v2, v3) := UnMix(b2, b3, 8);
    var (v0, v1) := UnMix(RotateRight32(b0, 16), a1, 5);
    Block(v0, v1, v2, v3)
  }

  lemma UnRoundRound(v: Block)
    ensures UnRound(Round(v)) == v
  {
    var (a0, a1) := Mix(v.v0, v.v1, 5);
    var b0 := RotateLeft32(a0, 16);
    var (b2, b3) := Mix(v.v2, v.v3, 8);
    var (d2, d1) := Mix(b2, a1, 7);
    UnMixMix(v.v0, v.v1, 5);
    UnMixMix(v.v2, v.v3, 8);
    UnMixMix(b0, b3, 13);
    UnMixMix(b2, a1, 7);
    Rotate32Inverse(a0, 16);
    Rotate32Inverse(d2, 16);
  }

  lemma RoundUnRound(v: Block)
    ensures Round(UnRound(v)) == v
  {
    var d2 := RotateRight32(v.v2, 16);
    var (b2, a1) := UnMix(d2, v.v1, 7);
    var (b0, b3) := UnMix(v.v0, v.v3, 13);
    var a0 := RotateRight32(b0, 16);
    MixUnMix(d2, v.v1, 7);
    MixUnMix(v.v0, v.v3, 13);
    MixUnMix(b2, b3, 8);
    MixUnMix(a0, a1, 5);
    Rotate32Inverse(b0, 16);
    Rotate32Inverse(v.v2, 16);
  }

  function Iterate<T>(f: T -> T, n: nat, x: T): T
    decreases n, x
  {
    if n == 0 then x else f(Iterate(f, n - 1, x))
  }

  lemma {:induction false} IterateShift<T>(f: T -> T, n: nat, x: T)
    ensures Iterate(f, n, f(x)) == f(Iterate(f, n, x))
  {
    if n > 0 {
      IterateShift(f, n - 1, x);
    }
  }

  lemma {:induction false} IterateInverse<T(!new)>(f: T -> T, g: T -> T, n: nat, x: T)
    requires forall y :: g(f(y)) == y
    ensures Iterate(g, n, Iterate(f, n, x)) == x
  {
    if n > 0 {
      IterateShift(g, n - 1, f(Iterate(f, n - 1, x)));
      IterateInverse(f, g, n - 1, x);
    }
  }

  lemma RoundsInverse(n: nat, v: Block)
    ensures Iterate(UnRound, n, Iterate(Round, n, v)) == v
    ensures Iterate(Round, n, Iterate(UnRound, n, v)) == v
  {
    var f: Block -> Block, g: Block -> Block := Round, UnRound;
    forall y ensures g(f(y)) == y && f(g(y)) == y {
      UnRoundRound(y);
      RoundUnRound(y);
    }
    IterateInverse(f, g, n, v);
    IterateInverse(g, f, n, v);
  }

  function Whiten(v: Block, k: Block): Block {
    Block(Xor32(v.v0, k.v0), Xor32(v.v1, k.v1), Xor32(v.v2, k.v2), Xor32(v.v3, k.v3))
  }

  lemma WhitenInverse(v: Block, k: Block)
    ensures Whiten(Whiten(v, k), k) == v
  {
    XorCancel(v.v0, k.v0);
    XorCancel(v.v1, k.v1);
    XorCancel(v.v2, k.v2);
    XorCancel(v.v3, k.v3);
  }

  function Permute(v: Block, k: Block): Block {
    Whiten(Iterate(Round, ROUNDS, Whiten(v, k)), k)
  }

  function Unpermute(v: Block, k: Block): Block {
    Whiten(Iterate(UnRound, ROUNDS, Whiten(v, k)), k)
  }

  /** For every key Chaskey-8 is a permutation of the blocks: it has an inverse on both sides. */
  lemma ChaskeyPermutation(v: Block, k: Block)
    ensures Unpermute(Permute(v, k), k) == v
    ensures Permute(Unpermute(v, k), k) == v
  {
    WhitenInverse(v, k);
    WhitenInverse(Iterate(Round, ROUNDS, Whiten(v, k)), k);
    WhitenInverse(Iterate(UnRound, ROUNDS, Whiten(v, k)), k);
    RoundsInverse(ROUNDS, Whiten(v, k));
  }

  /** Different two-word messages have different four-word images under one key. */
  lemma ShortMessagesDiffer(a0: uint32, a1: uint32, b0: uint32, b1: uint32, k: Block)
    requires (a0, a1) != (b0, b1)
    ensures Permute(Block(a0, a1, 0, 0), k) != Permute(Block(b0, b1, 0, 0), k)
  {
    ChaskeyPermutation(Block(a0, a1, 0, 0), k);
    ChaskeyPermutation(Block(b0, b1, 0, 0), k);
  }

  // ----- Implementation -----

  lemma IterateNext<T>(f: T -> T, n: nat, x: T)
    ensures Iterate(f, n + 1, x) == f(Iterate(f, n, x))
  {
  }

  /** The loop that the three C functions have in common. */
  method EightRounds(v: Block) returns (r: Block)
    ensures r == Iterate(Round, 8, v)
  {
    var v0, v1, v2, v3 := v.v0, v.v1, v.v2, v.v3;
    var i := ROUNDS;
    while i != 0
      invariant 0 <= i <= ROUNDS
      invariant Block(v0, v1, v2, v3) == Iterate(Round, ROUNDS - i, v)
    {
      ghost var before := Block(v0, v1, v2, v3);
      v0 := Add32(v0, v1); v1 := RotateLeft32(v1, 5); v1 := Xor32(v1, v0); v0 := RotateLeft32(v0, 16);
      v2 := Add32(v2, v3); v3 := RotateLeft32(v3, 8); v3 := Xor32(v3, v2);
      v0 := Add32(v0, v3); v3 := RotateLeft32(v3, 13); v3 := Xor32(v3, v0);
      v2 := Add32(v2, v1); v1 := RotateLeft32(v1, 7); v1 := Xor32(v1, v2); v2 := RotateLeft32(v2, 16);
      assert Block(v0, v1, v2, v3) == Round(before);
      IterateNext(Round, ROUNDS - i, v);
      i := i - 1;
    }
    r := Block(v0, v1, v2, v3);
  }

  method Chaskey8(v: array<uint32>, key: array<uint32>)
    requires v.Length == 4 && key.Length == 4
    modifies v
    ensures BlockOf(v[..]) == Permute(old(BlockOf(v[..])), old(BlockOf(key[..])))
  {
    var k := Block(key[0], key[1], key[2], key[3]);
    var r := EightRounds(Block(Xor32(v[0], k.v0), Xor32(v[1], k.v1), Xor32(v[2], k.v2), Xor32(v[3], k.v3)));
    ghost var image := Permute(BlockOf(v[..]), k);
    assert BlockOf(key[..]) == k && Whiten(r, k) == image;
    v[0] := Xor32(r.v0, k.v0);
    v[1] := Xor32(r.v1, k.v1);
    v[2] := Xor32(r.v2, k.v2);
    v[3] := Xor32(r.v3, k.v3);
    assert BlockOf(v[..]) == image;
  }

  /** The four words of `chaskey8` on `(v0, v1, 0, 0)`, folded in pairs. */
  method Chaskey8Fold(v0: uint32, v1: uint32, key: array<uint32>) returns (r: uint64)
    requires key.Length == 4
    ensures r == Folded(Permute(Block(v0, v1, 0, 0), BlockOf(key[..])))
    ensures var p := Permute(Block(v0, v1, 0, 0), BlockOf(key[..]));
            r / 0x1_0000_0000 == Xor(p.v0, p.v1) && r % 0x1_0000_0000 == Xor(p.v2, p.v3)
  {
    var k := Block(key[0], key[1], key[2], key[3]);
    XorZero(k.v2);
    XorZero(k.v3);
    assert Block(Xor32(v0, k.v0), Xor32(v1, k.v1), k.v2, k.v3) == Whiten(Block(v0, v1, 0, 0), k);
    var b := EightRounds(Block(Xor32(v0, k.v0), Xor32(v1, k.v1), k.v2, k.v3));
    assert Whiten(b, k) == Permute(Block(v0, v1, 0, 0), BlockOf(key[..]));
    var hi := Xor32(Xor32(Xor32(b.v0, k.v0), b.v1), k.v1);
    var lo := Xor32(Xor32(Xor32(b.v2, k.v2), b.v3), k.v3);
    XorAssoc(Xor32(b.v0, k.v0), b.v1, k.v1);
    XorAssoc(Xor32(b.v2, k.v2), b.v3, k.v3);
    JoinValue(hi, lo);
    r := Join(hi, lo);
  }

  function Folded(b: Block): uint64 {
    Join(Xor32(b.v0, b.v1), Xor32(b.v2, b.v3))
  }

  /** All four words of `chaskey8` on `(v0, v1, 0, 0)`: two in the result, two in `dst`. */
  method Chaskey8Wide(dst: array<uint32>, v0: uint32, v1: uint32, key: array<uint32>) returns (r: uint64)
    requires key.Length == 4 && dst.Length == 2
    modifies dst
    ensures Block(HighWord(r), LowWord(r), dst[0], dst[1]) == Permute(Block(v0, v1, 0, 0), old(BlockOf(key[..])))
    ensures var p := Permute(Block(v0, v1, 0, 0), old(BlockOf(key[..])));
            r / 0x1_0000_0000 == p.v0 && r % 0x1_0000_0000 == p.v1 && dst[0] == p.v2 && dst[1] == p.v3
  {
    var k := Block(key[0], key[1], key[2], key[3]);
    XorZero(k.v2);
    XorZero(k.v3);
    assert Block(Xor32(v0, k.v0), Xor32(v1, k.v1), k.v2, k.v3) == Whiten(Block(v0, v1, 0, 0), k);
    var b := EightRounds(Block(Xor32(v0, k.v0), Xor32(v1, k.v1), k.v2, k.v3));
    assert Whiten(b, k) == Permute(Block(v0, v1, 0, 0), BlockOf(key[..]));
    JoinValue(Xor32(b.v0, k.v0), Xor32(b.v1, k.v1));
    r := Join(Xor32(b.v0, k.v0), Xor32(b.v1, k.v1));
    dst[0] := Xor32(b.v2, k.v2);
    dst[1] := Xor32(b.v3, k.v3);
  }
}
