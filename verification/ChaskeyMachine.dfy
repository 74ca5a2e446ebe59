/** Chaskey-8 on the bit vectors of the machine, and what `Chaskey` owes to it: the cipher on
    natural numbers computes the same values. */
module ChaskeyMachine {
  import opened Words
  import opened Bits
  import opened Machine
  import opened Chaskey

  // ----- The loop body over any kind of word -----

  /** The operations that the loop body is made of. */
  datatype Operations<!W> = Operations(add: (W, W) -> W, xor: (W, W) -> W, turn: (W, nat) -> W)

  datatype Four<W> = Four(v0: W, v1: W, v2: W, v3: W)

  /** The statements of the loop body, in their order. */
  function LoopBody<W>(o: Operations<W>, v: Four<W>): Four<W> {
    var v0, v1, v2, v3 := v.v0, v.v1, v.v2, v.v3;
    var v0 := o.add(v0, v1); var v1 := o.turn(v1, 5); var v1 := o.xor(v1, v0); var v0 := o.turn(v0, 16);
    var v2 := o.add(v2, v3); var v3 := o.turn(v3, 8); var v3 := o.xor(v3, v2);
    var v0 := o.add(v0, v3); var v3 := o.turn(v3, 13); var v3 := o.xor(v3, v0);
    var v2 := o.add(v2, v1); var v1 := o.turn(v1, 7); var v1 := o.xor(v1, v2); var v2 := o.turn(v2, 16);
    Four(v0, v1, v2, v3)
  }

  function AddKey<W>(o: Operations<W>, v: Four<W>, k: Four<W>): Four<W> {
    Four(o.xor(v.v0, k.v0), o.xor(v.v1, k.v1), o.xor(v.v2, k.v2), o.xor(v.v3, k.v3))
  }

  /** `chaskey8`, with its loop written out. */
  function Cipher<W>(o: Operations<W>, v: Four<W>, k: Four<W>): Four<W> {
    var w := AddKey(o, v, k);
    var w := LoopBody(o, w);
    var w := LoopBody(o, w);
    var w := LoopBody(o, w);
    var w := LoopBody(o, w);
    var w := LoopBody(o, w);
    var w := LoopBody(o, w);
    var w := LoopBody(o, w);
    var w := LoopBody(o, w);
    AddKey(o, w, k)
  }

  // ----- From one kind of word to another -----

  function Each<W, U>(val: W -> U, v: Four<W>): Four<U> {
    Four(val(v.v0), val(v.v1), val(v.v2), val(v.v3))
  }

  predicate IsDistance(r: nat) {
    r == 5 || r == 7 || r == 8 || r == 13 || r == 16
  }

  predicate CarriesPair<W, U(==)>(o: Operations<W>, p: Operations<U>, val: W -> U, a: W, b: W) {
    val(o.add(a, b)) == p.add(val(a), val(b)) && val(o.xor(a, b)) == p.xor(val(a), val(b))
  }

  predicate CarriesTurn<W, U(==)>(o: Operations<W>, p: Operations<U>, val: W -> U, a: W, r: nat) {
    IsDistance(r) ==> val(o.turn(a, r)) == p.turn(val(a), r)
  }

  /** A function that carries the operations over carries the loop body over. */
  lemma BodyCarries<W(!new), U>(o: Operations<W>, p: Operations<U>, val: W -> U, v: Four<W>)
    requires forall a, b :: CarriesPair(o, p, val, a, b)
    requires forall a, r :: CarriesTurn(o, p, val, a, r)
    ensures LoopBody(p, Each(val, v)) == Each(val, LoopBody(o, v))
  {
    var a0 := o.add(v.v0, v.v1);
    var a1 := o.xor(o.turn(v.v1, 5), a0);
    var b0 := o.turn(a0, 16);
    var b2 := o.add(v.v2, v.v3);
    var b3 := o.xor(o.turn(v.v3, 8), b2);
    var c0 := o.add(b0, b3);
    var d2 := o.add(b2, a1);
    assert CarriesPair(o, p, val, v.v0, v.v1) && CarriesPair(o, p, val, v.v2, v.v3);
    assert CarriesPair(o, p, val, b0, b3) && CarriesPair(o, p, val, b2, a1);
    assert CarriesTurn(o, p, val, v.v1, 5) && CarriesTurn(o, p, val, v.v3, 8) && CarriesTurn(o, p, val, a0, 16);
    assert CarriesTurn(o, p, val, b3, 13) && CarriesTurn(o, p, val, a1, 7) && CarriesTurn(o, p, val, d2, 16);
    assert CarriesPair(o, p, val, o.turn(v.v1, 5), a0) && CarriesPair(o, p, val, o.turn(v.v3, 8), b2);
    assert CarriesPair(o, p, val, o.turn(b3, 13), c0) && CarriesPair(o, p, val, o.turn(a1, 7), d2);
  }

  lemma AddKeyCarries<W(!new), U>(o: Operations<W>, p: Operations<U>, val: W -> U, v: Four<W>, k: Four<W>)
    requires forall a, b :: CarriesPair(o, p, val, a, b)
    ensures AddKey(p, Each(val, v), Each(val, k)) == Each(val, AddKey(o, v, k))
  {
    assert CarriesPair(o, p, val, v.v0, k.v0) && CarriesPair(o, p, val, v.v1, k.v1);
    assert CarriesPair(o, p, val, v.v2, k.v2) && CarriesPair(o, p, val, v.v3, k.v3);
  }

  lemma LoopCarries<W(!new), U>(o: Operations<W>, p: Operations<U>, val: W -> U, w0: Four<W>) returns (w4: Four<W>)
    requires forall a, b :: CarriesPair(o, p, val, a, b)
    requires forall a, r :: CarriesTurn(o, p, val, a, r)
    ensures w4 == LoopBody(o, LoopBody(o, LoopBody(o, LoopBody(o, w0))))
    ensures LoopBody(p, LoopBody(p, LoopBody(p, LoopBody(p, Each(val, w0))))) == Each(val, w4)
  {
    var w1 := LoopBody(o, w0);
    var w2 := LoopBody(o, w1);
    var w3 := LoopBody(o, w2);
    w4 := LoopBody(o, w3);
    BodyCarries(o, p, val, w0);
    BodyCarries(o, p, val, w1);
    BodyCarries(o, p, val, w2);
    BodyCarries(o, p, val, w3);
  }

  lemma CipherCarries<W(!new), U>(o: Operations<W>, p: Operations<U>, val: W -> U, v: Four<W>, k: Four<W>)
    requires forall a, b :: CarriesPair(o, p, val, a, b)
    requires forall a, r :: CarriesTurn(o, p, val, a, r)
    ensures Cipher(p, Each(val, v), Each(val, k)) == Each(val, Cipher(o, v, k))
  {
    var w0 := AddKey(o, v, k);
    AddKeyCarries(o, p, val, v, k);
    var w4 := LoopCarries(o, p, val, w0);
    var w8 := LoopCarries(o, p, val, w4);
    AddKeyCarries(o, p, val, w8, k);
  }

  // ----- Machine words and numbers -----

  function Plus(a: bv32, b: bv32): bv32 {
    a + b
  }

  function Exclusive(a: bv32, b: bv32): bv32 {
    a ^ b
  }

  /** `ROTL` at the distances that occur. */
  function Turned(a: bv32, r: nat): bv32 {
    if r == 5 then RotateFive(a)
    else if r == 7 then RotateSeven(a)
    else if r == 8 then RotateEight(a)
    else if r == 13 then RotateThirteen(a)
    else RotateSixteen(a)
  }

  const MACHINE: Operations<bv32> := Operations(Plus, Exclusive, Turned)
  const NUMBERS: Operations<uint32> := Operations(Add32, Xor32, RotateLeft32)

  function BlockOfFour(v: Four<uint32>): Block {
    Block(v.v0, v.v1, v.v2, v.v3)
  }

  function FourOfBlock(v: Block): Four<uint32> {
    Four(v.v0, v.v1, v.v2, v.v3)
  }

  /** The block that machine words hold. */
  function Values(v: Four<bv32>): Block {
    BlockOfFour(Each(ValueOf, v))
  }

  lemma RoundIsBody(v: Block)
    ensures LoopBody(NUMBERS, FourOfBlock(v)) == FourOfBlock(Round(v))
  {
  }

  lemma EightTimes<T>(f: T -> T, w0: T, w1: T, w2: T, w3: T, w4: T, w5: T, w6: T, w7: T, w8: T)
    requires w1 == f(w0) && w2 == f(w1) && w3 == f(w2) && w4 == f(w3)
    requires w5 == f(w4) && w6 == f(w5) && w7 == f(w6) && w8 == f(w7)
    ensures Iterate(f, 8, w0) == w8
  {
    assert Iterate(f, 0, w0) == w0;
    IterateNext(f, 0, w0);
    IterateNext(f, 1, w0);
    IterateNext(f, 2, w0);
    IterateNext(f, 3, w0);
    IterateNext(f, 4, w0);
    IterateNext(f, 5, w0);
    IterateNext(f, 6, w0);
    IterateNext(f, 7, w0);
  }

  /** The specification written out: eight rounds between two additions of the key. */
  lemma PermuteWrittenOut(v: Block, k: Block)
    ensures var w0 := Block(Xor32(v.v0, k.v0), Xor32(v.v1, k.v1), Xor32(v.v2, k.v2), Xor32(v.v3, k.v3));
            var w4 := Round(Round(Round(Round(w0))));
            var w8 := Round(Round(Round(Round(w4))));
            Permute(v, k) == Block(Xor32(w8.v0, k.v0), Xor32(w8.v1, k.v1), Xor32(w8.v2, k.v2), Xor32(w8.v3, k.v3))
  {
    var w0 := Whiten(v, k);
    var w4 := Round(Round(Round(Round(w0))));
    EightTimes(Round, w0, Round(w0), Round(Round(w0)), Round(Round(Round(w0))), w4,
               Round(w4), Round(Round(w4)), Round(Round(Round(w4))), Round(Round(Round(Round(w4)))));
  }

  lemma FourBodies(w: Block)
    ensures LoopBody(NUMBERS, LoopBody(NUMBERS, LoopBody(NUMBERS, LoopBody(NUMBERS, FourOfBlock(w)))))
         == FourOfBlock(Round(Round(Round(Round(w)))))
  {
    RoundIsBody(w);
    RoundIsBody(Round(w));
    RoundIsBody(Round(Round(w)));
    RoundIsBody(Round(Round(Round(w))));
  }

  lemma PermuteIsCipher(v: Block, k: Block)
    ensures Cipher(NUMBERS, FourOfBlock(v), FourOfBlock(k)) == FourOfBlock(Permute(v, k))
  {
    var w0 := Whiten(v, k);
    var w4 := Round(Round(Round(Round(w0))));
    PermuteWrittenOut(v, k);
    FourBodies(w0);
    FourBodies(w4);
  }

  lemma TurnedTurns(val: bv32 -> uint32, a: bv32, r: nat)
    requires Turns(val, RotateFive, 5, a) && Turns(val, RotateSeven, 7, a) && Turns(val, RotateEight, 8, a)
    requires Turns(val, RotateThirteen, 13, a) && Turns(val, RotateSixteen, 16, a)
    ensures CarriesTurn(MACHINE, NUMBERS, val, a, r)
  {
  }

  lemma AllTurned(val: bv32 -> uint32)
    requires forall a :: Turns(val, RotateFive, 5, a)
    requires forall a :: Turns(val, RotateSeven, 7, a)
    requires forall a :: Turns(val, RotateEight, 8, a)
    requires forall a :: Turns(val, RotateThirteen, 13, a)
    requires forall a :: Turns(val, RotateSixteen, 16, a)
    ensures forall a, r :: CarriesTurn(MACHINE, NUMBERS, val, a, r)
  {
    forall a, r ensures CarriesTurn(MACHINE, NUMBERS, val, a, r) {
      TurnedTurns(val, a, r);
    }
  }

  lemma MachineCarriesTurn(val: bv32 -> uint32)
    requires forall a :: val(a) == ValueOf(a)
    ensures forall a, r :: CarriesTurn(MACHINE, NUMBERS, val, a, r)
  {
    ValueOfRotated(val);
    AllTurned(val);
  }

  lemma MachineCarriesPair(a: bv32, b: bv32)
    ensures ValueOf(Plus(a, b)) == Add32(ValueOf(a), ValueOf(b))
    ensures ValueOf(Exclusive(a, b)) == Xor32(ValueOf(a), ValueOf(b))
  {
    ValueOfSum(a, b);
    ValueOfXor(a, b);
  }

  /** A round of the specification is the loop body on machine words. */
  lemma RoundOnMachine(v: Four<bv32>)
    ensures Round(Values(v)) == Values(LoopBody(MACHINE, v))
  {
    var o, p, val: bv32 -> uint32 := MACHINE, NUMBERS, ValueOf;
    forall a, b ensures CarriesPair(o, p, val, a, b) {
      MachineCarriesPair(a, b);
    }
    MachineCarriesTurn(val);
    BodyCarries(o, p, val, v);
    RoundIsBody(Values(v));
  }

  /** The cipher of the specification is the C function on machine words. */
  lemma PermuteOnMachine(v: Four<bv32>, k: Four<bv32>)
    ensures Permute(Values(v), Values(k)) == Values(Cipher(MACHINE, v, k))
  {
    var o, p, val: bv32 -> uint32 := MACHINE, NUMBERS, ValueOf;
    forall a, b ensures CarriesPair(o, p, val, a, b) {
      MachineCarriesPair(a, b);
    }
    MachineCarriesTurn(val);
    CipherCarries(o, p, val, v, k);
    PermuteIsCipher(Values(v), Values(k));
  }

  // ----- What a round does -----

  /** Flipping the mask `t` in one operand flips it in a sum. */
  predicate FlipAdds<W(==)>(o: Operations<W>, t: W, a: W, b: W) {
    o.add(o.xor(a, t), b) == o.xor(o.add(a, b), t) && o.add(a, o.xor(b, t)) == o.xor(o.add(a, b), t)
  }

  predicate FlipXors<W(==)>(o: Operations<W>, t: W, u: W, a: W, b: W, m: W) {
    m == o.xor(u, t) ==>
      o.xor(a, o.xor(b, t)) == o.xor(o.xor(a, b), t) && o.xor(o.xor(a, u), o.xor(b, t)) == o.xor(o.xor(a, b), m)
  }

  predicate FlipTurns<W(==)>(o: Operations<W>, t: W, u: W, r: nat, a: W) {
    o.turn(o.xor(a, t), r) == o.xor(o.turn(a, r), u)
  }

  /** Where a flip in the third word goes. */
  lemma FlipSpreads<W(!new)>(o: Operations<W>, t: W, t13: W, t16: W, m: W, v: Four<W>)
    requires m == o.xor(t13, t)
    requires forall a, b :: FlipAdds(o, t, a, b)
    requires forall a, b :: FlipXors(o, t, t13, a, b, m)
    requires forall a :: FlipTurns(o, t, t13, 13, a)
    requires forall a :: FlipTurns(o, t, t16, 16, a)
    ensures var w := LoopBody(o, v);
            LoopBody(o, v.(v2 := o.xor(v.v2, t)))
            == Four(o.xor(w.v0, t), o.xor(w.v1, t), o.xor(w.v2, t16), o.xor(w.v3, m))
  {
    var a0 := o.add(v.v0, v.v1);
    var a1 := o.xor(o.turn(v.v1, 5), a0);
    var b0 := o.turn(a0, 16);
    var b2 := o.add(v.v2, v.v3);
    var b3 := o.xor(o.turn(v.v3, 8), b2);
    var c0 := o.add(b0, b3);
    var d2 := o.add(b2, a1);
    assert FlipAdds(o, t, v.v2, v.v3) && FlipAdds(o, t, b0, b3) && FlipAdds(o, t, b2, a1);
    assert FlipXors(o, t, t13, o.turn(v.v3, 8), b2, m) && FlipXors(o, t, t13, o.turn(b3, 13), c0, m);
    assert FlipXors(o, t, t13, o.turn(a1, 7), d2, m);
    assert FlipTurns(o, t, t13, 13, b3) && FlipTurns(o, t, t16, 16, d2);
  }

  lemma TopBitAdds(a: bv32)
    ensures a ^ 0x8000_0000 == a + 0x8000_0000
  {
  }

  lemma MaskValues()
    ensures ValueOf(0x8000_0000) == 0x8000_0000 && ValueOf(0x8000) == 0x8000 && ValueOf(0x1000) == 0x1000
    ensures ValueOf(0x8000_1000) == 0x8000_1000
  {
    ValueInNibbles(0x8000_0000);
    ValueInNibbles(0x8000);
    ValueInNibbles(0x1000);
    ValueInNibbles(0x8000_1000);
  }

  lemma Masks()
    ensures RotateLeft32(0x8000_0000, 13) == 0x1000 && RotateLeft32(0x8000_0000, 16) == 0x8000
    ensures Xor32(0x1000, 0x8000_0000) == 0x8000_1000
  {
    MaskValues();
    var val: bv32 -> uint32 := ValueOf;
    ValueOfRotated(val);
    assert Turns(val, RotateThirteen, 13, 0x8000_0000) && Turns(val, RotateSixteen, 16, 0x8000_0000);
    ValueOfXor(0x1000, 0x8000_0000);
  }

  /** Flipping the top bit is adding it. */
  lemma TopFlip(x: uint32)
    ensures Xor32(x, 0x8000_0000) == Add32(x, 0x8000_0000)
  {
    var a := WordOf(x);
    MaskValues();
    TopBitAdds(a);
    ValueOfXor(a, 0x8000_0000);
    ValueOfSum(a, 0x8000_0000);
  }

  lemma SumsInTurn(x: uint32, y: uint32, z: uint32)
    ensures Add32(Add32(x, z), y) == Add32(Add32(x, y), z) == Add32(x, Add32(y, z))
  {
    AddMod(x + z, y, TWO_32);
    AddMod(x + y, z, TWO_32);
    AddMod(y + z, x, TWO_32);
  }

  lemma FlipAddsNumbers(x: uint32, y: uint32)
    ensures FlipAdds(NUMBERS, 0x8000_0000, x, y)
  {
    TopFlip(x);
    TopFlip(y);
    TopFlip(Add32(x, y));
    SumsInTurn(x, y, 0x8000_0000);
  }

  lemma FlipXorsNumbers(x: uint32, y: uint32, t: uint32, u: uint32)
    ensures FlipXors(NUMBERS, t, u, x, y, Xor32(u, t))
  {
    XorAssoc(x, y, t);
    calc {
      Xor(Xor(x, u), Xor(y, t));
      { XorAssoc(x, u, Xor(y, t)); }
      Xor(x, Xor(u, Xor(y, t)));
      { XorAssoc(u, y, t);
        XorComm(u, y);
        XorAssoc(y, u, t); }
      Xor(x, Xor(y, Xor(u, t)));
      { XorAssoc(x, y, Xor(u, t)); }
      Xor(Xor(x, y), Xor(u, t));
    }
  }

  /** For every block, flipping the top bit of the third word flips the top bit of the first two
      words after the round, bit 15 of the third, and bits 12 and 31 of the fourth. */
  lemma RoundDifferential(v: Block)
    ensures var r := Round(v);
            Round(v.(v2 := Xor32(v.v2, 0x8000_0000)))
            == Block(Xor32(r.v0, 0x8000_0000), Xor32(r.v1, 0x8000_0000), Xor32(r.v2, 0x8000), Xor32(r.v3, 0x8000_1000))
  {
    var o := NUMBERS;
    Masks();
    forall x, y ensures FlipAdds(o, 0x8000_0000, x, y) {
      FlipAddsNumbers(x, y);
    }
    forall x, y ensures FlipXors(o, 0x8000_0000, 0x1000, x, y, 0x8000_1000) {
      FlipXorsNumbers(x, y, 0x8000_0000, 0x1000);
    }
    forall x ensures FlipTurns(o, 0x8000_0000, 0x1000, 13, x) && FlipTurns(o, 0x8000_0000, 0x8000, 16, x) {
      RotateXor(x, 0x8000_0000, 13);
      RotateXor(x, 0x8000_0000, 16);
    }
    FlipSpreads(o, 0x8000_0000, 0x1000, 0x8000, 0x8000_1000, FourOfBlock(v));
    RoundIsBody(v);
    RoundIsBody(v.(v2 := Xor32(v.v2, 0x8000_0000)));
  }

  // ----- Values -----

  lemma SmallValues()
    ensures Values(Four(0, 1, 0, 0)) == Block(0, 1, 0, 0) && Values(Four(0, 0, 0, 1)) == Block(0, 0, 0, 1)
    ensures Values(Four(1, 0, 0, 0)) == Block(1, 0, 0, 0) && Values(Four(0, 0, 0, 0)) == Block(0, 0, 0, 0)
  {
    ValueInNibbles(0);
    ValueInNibbles(1);
  }

  lemma BodyOfOnes()
    ensures LoopBody(MACHINE, Four(0, 1, 0, 0)) == Four(0x1_0000, 0x10a1, 0x21_0000, 0x1_0000)
    ensures LoopBody(MACHINE, Four(0, 0, 0, 1)) == Four(0x101, 1, 0x1_0000, 0x20_2101)
  {
  }

  lemma ValuesOfSecond()
    ensures Values(Four(0x1_0000, 0x10a1, 0x21_0000, 0x1_0000)) == Block(0x1_0000, 0x10a1, 0x21_0000, 0x1_0000)
  {
    ValueInNibbles(0x10a1);
    ValueInNibbles(0x1_0000);
    ValueInNibbles(0x21_0000);
  }

  lemma ValuesOfFourth()
    ensures Values(Four(0x101, 1, 0x1_0000, 0x20_2101)) == Block(0x101, 1, 0x1_0000, 0x20_2101)
  {
    ValueInNibbles(1);
    ValueInNibbles(0x101);
    ValueInNibbles(0x1_0000);
    ValueInNibbles(0x20_2101);
  }

  /** The round on the two blocks with a single one, at the end of the second or of the fourth
      word. */
  lemma RoundOfOnes(second: Block, fourth: Block)
    requires second == Block(0, 1, 0, 0) && fourth == Block(0, 0, 0, 1)
    ensures Round(second) == Block(0x1_0000, 0x10a1, 0x21_0000, 0x1_0000)
    ensures Round(fourth) == Block(0x101, 1, 0x1_0000, 0x20_2101)
  {
    SmallValues();
    BodyOfOnes();
    ValuesOfSecond();
    ValuesOfFourth();
    RoundOnMachine(Four(0, 1, 0, 0));
    RoundOnMachine(Four(0, 0, 0, 1));
  }

  lemma FirstBody()
    ensures LoopBody(MACHINE, Four(1, 0, 0, 0))
         == Four(0x1_0000, 0x81, 0x1_0000, 0x1_0000)
  {
  }

  lemma SecondBody()
    ensures LoopBody(MACHINE, Four(0x1_0000, 0x81, 0x1_0000, 0x1_0000))
         == Four(0x183_0001, 0x8b_4021, 0x10a1_0003, 0x4183_0021)
  {
  }

  lemma ThirdBody()
    ensures LoopBody(MACHINE, Four(0x183_0001, 0x8b_4021, 0x10a1_0003, 0x4183_0021))
         == Four(0x1146_2373, 0xd6a8_452f, 0x4426_658a, 0x956a_9957)
  {
  }

  lemma FourthBody()
    ensures LoopBody(MACHINE, Four(0x1146_2373, 0xd6a8_452f, 0x4426_658a, 0x956a_9957))
         == Four(0x1bac_9162, 0x7f11_6020, 0xcc39_0c77, 0x2e82_0703)
  {
  }

  lemma FifthBody()
    ensures LoopBody(MACHINE, Four(0x1bac_9162, 0x7f11_6020, 0xcc39_0c77, 0x2e82_0703))
         == Four(0x6a3e_ab11, 0x3bb7_cfbb, 0x907_734d, 0xe834_2406)
  {
  }

  lemma SixthBody()
    ensures LoopBody(MACHINE, Four(0x6a3e_ab11, 0x3bb7_cfbb, 0x907_734d, 0xe834_2406))
         == Four(0x3fec_37b1, 0x438d_f117, 0x24fe_c44b, 0xcddb_4f12)
  {
  }

  lemma SeventhBody()
    ensures LoopBody(MACHINE, Four(0x3fec_37b1, 0x438d_f117, 0x24fe_c44b, 0xcddb_4f12))
         == Four(0x525d_850a, 0x879b_0d04, 0x1d7d_e59e, 0xf26f_8038)
  {
  }

  lemma EighthBody()
    ensures LoopBody(MACHINE, Four(0x525d_850a, 0x879b_0d04, 0x1d7d_e59e, 0xf26f_8038))
         == Four(0xf27c_371c, 0x761f_d761, 0x9874_3a86, 0x59d8_bb11)
  {
  }

  lemma FourRounds<W>(o: Operations<W>, w0: Four<W>, w1: Four<W>, w2: Four<W>, w3: Four<W>, w4: Four<W>)
    requires LoopBody(o, w0) == w1 && LoopBody(o, w1) == w2 && LoopBody(o, w2) == w3 && LoopBody(o, w3) == w4
    ensures LoopBody(o, LoopBody(o, LoopBody(o, LoopBody(o, w0)))) == w4
  {
  }

  lemma FirstRounds()
    ensures LoopBody(MACHINE, LoopBody(MACHINE, LoopBody(MACHINE, LoopBody(MACHINE, Four(1, 0, 0, 0)))))
         == Four(0x1bac_9162, 0x7f11_6020, 0xcc39_0c77, 0x2e82_0703)
  {
    FirstBody();
    SecondBody();
    ThirdBody();
    FourthBody();
    FourRounds(MACHINE, Four(1, 0, 0, 0), Four(0x1_0000, 0x81, 0x1_0000, 0x1_0000),
               Four(0x183_0001, 0x8b_4021, 0x10a1_0003, 0x4183_0021), Four(0x1146_2373, 0xd6a8_452f, 0x4426_658a, 0x956a_9957),
               Four(0x1bac_9162, 0x7f11_6020, 0xcc39_0c77, 0x2e82_0703));
  }

  lemma LastRounds()
    ensures LoopBody(MACHINE, LoopBody(MACHINE, LoopBody(MACHINE, LoopBody(MACHINE,
              Four(0x1bac_9162, 0x7f11_6020, 0xcc39_0c77, 0x2e82_0703)))))
         == Four(0xf27c_371c, 0x761f_d761, 0x9874_3a86, 0x59d8_bb11)
  {
    FifthBody();
    SixthBody();
    SeventhBody();
    EighthBody();
    FourRounds(MACHINE, Four(0x1bac_9162, 0x7f11_6020, 0xcc39_0c77, 0x2e82_0703),
               Four(0x6a3e_ab11, 0x3bb7_cfbb, 0x907_734d, 0xe834_2406), Four(0x3fec_37b1, 0x438d_f117, 0x24fe_c44b, 0xcddb_4f12),
               Four(0x525d_850a, 0x879b_0d04, 0x1d7d_e59e, 0xf26f_8038),
               Four(0xf27c_371c, 0x761f_d761, 0x9874_3a86, 0x59d8_bb11));
  }

  lemma CipherIs<W>(o: Operations<W>, v: Four<W>, k: Four<W>, w4: Four<W>, w8: Four<W>)
    requires w4 == LoopBody(o, LoopBody(o, LoopBody(o, LoopBody(o, AddKey(o, v, k)))))
    requires w8 == LoopBody(o, LoopBody(o, LoopBody(o, LoopBody(o, w4))))
    ensures Cipher(o, v, k) == AddKey(o, w8, k)
  {
  }

  lemma ZeroKey(v: Four<bv32>)
    ensures AddKey(MACHINE, v, Four(0, 0, 0, 0)) == v
  {
  }

  lemma CipherOfOne()
    ensures Cipher(MACHINE, Four(1, 0, 0, 0), Four(0, 0, 0, 0)) == Four(0xf27c_371c, 0x761f_d761, 0x9874_3a86, 0x59d8_bb11)
  {
    FirstRounds();
    LastRounds();
    ZeroKey(Four(1, 0, 0, 0));
    ZeroKey(Four(0xf27c_371c, 0x761f_d761, 0x9874_3a86, 0x59d8_bb11));
    CipherIs(MACHINE, Four(1, 0, 0, 0), Four(0, 0, 0, 0), Four(0x1bac_9162, 0x7f11_6020, 0xcc39_0c77, 0x2e82_0703),
             Four(0xf27c_371c, 0x761f_d761, 0x9874_3a86, 0x59d8_bb11));
  }

  lemma ValuesOfLast()
    ensures Values(Four(0xf27c_371c, 0x761f_d761, 0x9874_3a86, 0x59d8_bb11))
         == Block(0xf27c_371c, 0x761f_d761, 0x9874_3a86, 0x59d8_bb11)
  {
    ValueInNibbles(0xf27c_371c);
    ValueInNibbles(0x761f_d761);
    ValueInNibbles(0x9874_3a86);
    ValueInNibbles(0x59d8_bb11);
  }

  /** What eight rounds with the zero key make of one. */
  lemma PermuteOfOne()
    ensures Permute(Block(1, 0, 0, 0), Block(0, 0, 0, 0)) == Block(0xf27c_371c, 0x761f_d761, 0x9874_3a86, 0x59d8_bb11)
  {
    SmallValues();
    CipherOfOne();
    ValuesOfLast();
    PermuteOnMachine(Four(1, 0, 0, 0), Four(0, 0, 0, 0));
  }
}
