/** What the word operators do to single bits. */
module Bits {
  import opened Words

  // ----- Single bits -----

  /** A word is determined by its bits. */
  lemma {:induction false} SameBits(x: nat, y: nat, w: nat)
    requires x < Pow2(w) && y < Pow2(w)
    requires forall i: nat :: i < w ==> (Bit(x, i) <==> Bit(y, i))
    ensures x == y
  {
    if w > 0 {
      assert Bit(x, 0) <==> Bit(y, 0);
      forall i: nat | i < w - 1 ensures Bit(x / 2, i) <==> Bit(y / 2, i) {
        assert Bit(x, i + 1) <==> Bit(y, i + 1);
      }
      SameBits(x / 2, y / 2, w - 1);
    }
  }

  lemma BitOfShr(x: nat, k: nat, i: nat)
    ensures Bit(Shr(x, k), i) <==> Bit(x, i + k)
  {
    ShrAdd(x, k, i);
  }

  lemma {:induction false} BitOfLow(x: nat, w: nat, i: nat)
    ensures Bit(Low(x, w), i) <==> i < w && Bit(x, i)
  {
    if w == 0 {
      ShrZero(i);
    } else if i > 0 {
      BitOfLow(x / 2, w - 1, i - 1);
    }
  }

  /** The bits of `hi` above the `n` bits of `lo`. */
  lemma {:induction false} BitOfParts(hi: nat, lo: nat, n: nat, i: nat)
    requires lo < Pow2(n)
    ensures Bit(Scale(hi, n) + lo, i) <==> if i < n then Bit(lo, i) else Bit(hi, i - n)
  {
    if n > 0 {
      HalfOfSum(Scale(hi, n - 1), lo);
      if i > 0 {
        BitOfParts(hi, lo / 2, n - 1, i - 1);
      }
    }
  }

  // ----- Rotations -----

  lemma RotateLeftIs(x: nat, r: nat, w: nat)
    requires r < w && x < Pow2(w)
    ensures Low(x, w - r) < Pow2(w - r) && Shr(x, w - r) < Pow2(r)
    ensures RotateLeft(x, r, w) == Scale(Low(x, w - r), r) + Shr(x, w - r)
  {
    SplitLow(x, w - r);
    ShrBound(x, r, w - r);
    if r == 0 {
      RotateByZero(x, w);
      LowOfSmall(x, w);
    } else {
      RotateLeftParts(x, Scale(Low(x, w - r), r) + Shr(x, w - r), Shr(x, w - r), Low(x, w - r), r, w);
    }
  }

  lemma RotateBits(x: nat, q: nat, w: nat, i: nat)
    requires i < w && q < w && x < Pow2(w)
    ensures Bit(RotateLeft(x, q, w), i) <==> Bit(x, if i < q then i - q + w else i - q)
  {
    RotateLeftIs(x, q, w);
    BitOfParts(Low(x, w - q), Shr(x, w - q), q, i);
    if i < q {
      BitOfShr(x, w - q, i);
    } else {
      BitOfLow(x, w - q, i - q);
    }
  }

  lemma RotatedPlace(i: nat, r: nat, q: nat, w: nat)
    requires i < w && q == r % w
    ensures (i - r) % w == if i < q then i - q + w else i - q
  {
    var k := r / w;
    assert r == k * w + q;
    if i < q {
      MulDistributes(w, -k, -1);
      DivModUnique(i - r, w, -k - 1, i - q + w);
    } else {
      DivModUnique(i - r, w, -k, i - q);
    }
  }

  /** The bit at place `i` comes from `r` places below, around the end of the word. */
  lemma Rotate32Bits(x: uint32, r: nat, i: nat)
    requires i < 32
    ensures Bit(RotateLeft32(x, r), i) <==> Bit(x, (i - r) % 32)
  {
    Pow2Widths();
    RotateBits(x, r % 32, 32, i);
    RotatedPlace(i, r, r % 32, 32);
  }

  lemma BackAround(i: nat, r: nat, j: nat, w: nat)
    requires i < w && j == (i + r) % w
    ensures (j - r) % w == i
  {
    var back: int := 0 - r;
    AddMod(i + r, back, w);
    SmallMod(i, w);
  }

  lemma RotateRight32Bits(x: uint32, r: nat, i: nat)
    requires i < 32
    ensures Bit(RotateRight32(x, r), i) <==> Bit(x, (i + r) % 32)
  {
    Rotate32Inverse(x, r);
    RightBits(RotateRight32(x, r), x, r, i, (i + r) % 32);
  }

  lemma RightBits(y: uint32, x: uint32, r: nat, i: nat, j: nat)
    requires i < 32 && j == (i + r) % 32 && RotateLeft32(y, r) == x
    ensures Bit(y, i) <==> Bit(x, j)
  {
    BackAround(i, r, j, 32);
    Rotate32Bits(y, r, j);
  }

  /** A rotation by less than the word is two products with powers of two. */
  lemma Rotate32Value(x: uint32, r: nat)
    requires r < 32
    ensures RotateLeft32(x, r) == x * Pow2(r) % TWO_32 + x / Pow2(32 - r)
  {
    Pow2Widths();
    RotateLeftIs(x, r, 32);
    ScaleIsMul(Low(x, 32 - r), r);
    ShrIsDiv(x, 32 - r);
    LowIsMod(x, 32 - r);
    SmallMod(r, 32);
    Pow2Add(32 - r, r);
    ShiftedOut(x, Pow2(32 - r), Pow2(r));
  }

  lemma ShiftedOut(x: nat, m: nat, n: nat)
    requires m > 0 && n > 0
    ensures m * n > 0 && x * n % (m * n) == x % m * n
  {
    var q, r := x / m, x % m;
    ProductPositive(m, n);
    MulDistributes(n, q * m, r);
    MulAssociates(q, m, n);
    RemainderFitsFactor(n, m, r, 0);
    DivModUnique(x * n, m * n, q, r * n);
  }

  /** Rotation distributes over exclusive or. */
  lemma RotateXor(x: uint32, y: uint32, r: nat)
    ensures RotateLeft32(Xor32(x, y), r) == Xor32(RotateLeft32(x, r), RotateLeft32(y, r))
  {
    Pow2Widths();
    forall i: nat | i < 32
      ensures Bit(RotateLeft32(Xor32(x, y), r), i) <==> Bit(Xor32(RotateLeft32(x, r), RotateLeft32(y, r)), i)
    {
      Rotate32Bits(Xor32(x, y), r, i);
      Rotate32Bits(x, r, i);
      Rotate32Bits(y, r, i);
      XorBits(x, y, (i - r) % 32);
      XorBits(RotateLeft32(x, r), RotateLeft32(y, r), i);
    }
    SameBits(RotateLeft32(Xor32(x, y), r), Xor32(RotateLeft32(x, r), RotateLeft32(y, r)), 32);
  }
}
