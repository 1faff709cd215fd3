/** Reversing the order of bits by masks and shifts. */
module BitReverse {
  import opened Arithmetic
  import opened Bits
  import opened CanonicalCode

  /** `((n & hi) >> k) | ((n & lo) << k)` */
  function SwapStage(n: nat, hi: nat, lo: nat, k: nat): nat {
    Or(ShiftRight(And(n, hi), k), ShiftLeft(And(n, lo), k))
  }

  function BitReverse16(n: nat): nat {
    SwapStage(
      SwapStage(SwapStage(SwapStage(n, 0xAAAA, 0x5555, 1), 0xCCCC, 0x3333, 2), 0xF0F0, 0x0F0F, 4),
      0xFF00, 0x00FF, 8)
  }

  function ReverseBits(v: nat, bits: nat): nat
    requires bits <= 16
  {
    ShiftRight(BitReverse16(v), 16 - bits)
  }

  lemma StageBit(n: nat, hi: nat, lo: nat, k: nat, i: nat)
    ensures Bit(SwapStage(n, hi, lo, k), i) ==
            ((Bit(n, i + k) && Bit(hi, i + k)) || (i >= k && Bit(n, i - k) && Bit(lo, i - k)))
  {
    var a, b := ShiftRight(And(n, hi), k), ShiftLeft(And(n, lo), k);
    assert Bit(a, i) == (Bit(n, i + k) && Bit(hi, i + k)) by {
      BitShiftRight(And(n, hi), k, i);
      BitAnd(n, hi, i + k);
    }
    assert Bit(b, i) == (i >= k && Bit(n, i - k) && Bit(lo, i - k)) by {
      BitShiftLeft(And(n, lo), k, i);
      if i >= k { BitAnd(n, lo, i - k); }
    }
    BitOr(a, b, i);
  }

  /** The position that a stage for groups of k bits exchanges with position i. */
  function Partner(i: nat, k: nat): (j: nat)
    requires k > 0
  {
    if i / k % 2 == 0 then i + k else
      assert i >= k;
      i - k
  }

  lemma PartnerParity(i: nat, k: nat)
    requires k in {1, 2, 4, 8}
    ensures Partner(i, k) == i + k || (i >= k && Partner(i, k) == i - k)
    ensures Partner(i + k, k) < i + k <==> Partner(i, k) > i
    ensures i >= k ==> (Partner(i - k, k) > i - k <==> Partner(i, k) < i)
  {
    StepDivision(i, k);
  }

  lemma StepDivision(i: nat, k: nat)
    requires k > 0
    ensures (i + k) / k == i / k + 1
    ensures i >= k ==> (i - k) / k == i / k - 1
  {
    var q, r := i / k, i % k;
    assert i == q * k + r;
    assert (q + 1) * k + r == i + k && (q - 1) * k + r == i - k;
    Digits(q + 1, r, k);
    Digits(q - 1, r, k);
  }

  lemma PartnerWithin(i: nat, k: nat)
    requires k in {1, 2, 4, 8}
    ensures i < 16 ==> Partner(i, k) < 16
    ensures i >= 16 && i - k < 16 ==> Partner(i, k) > i
  {
  }

  /** Below 16, hi has the bits whose partners are lower, and lo those whose partners are higher. */
  ghost predicate MaskPair(hi: nat, lo: nat, k: nat)
    requires k > 0
  {
    forall i: nat :: Bit(hi, i) == (i < 16 && Partner(i, k) < i) && Bit(lo, i) == (i < 16 && Partner(i, k) > i)
  }

  /** A four-digit hexadecimal number, digit by digit. */
  function Hex(a: nat, b: nat, c: nat, d: nat): nat {
    d + 16 * (c + 16 * (b + 16 * a))
  }

  lemma DigitBit(n: nat, m: nat, i: nat)
    requires n < 16
    ensures Bit(n + 16 * m, i) == (if i < 4 then Bit(n, i) else Bit(m, i - 4))
  {
    assert Pow2(4) == 16;
    var k := 4;
    LowAppend(n, k, m, i + 1);
    LowBit(n + m * Pow2(k), k + (i + 1), i);
    if i < 4 { LowBit(n, k, i); } else { LowBit(m, i + 1, i - 4); }
  }

  /** Bit i of a hexadecimal number is a bit of one of its digits. */
  lemma HexBit(a: nat, b: nat, c: nat, d: nat, i: nat)
    requires a < 16 && b < 16 && c < 16 && d < 16
    ensures Bit(Hex(a, b, c, d), i) ==
            (if i < 4 then Bit(d, i) else if i < 8 then Bit(c, i - 4) else if i < 12 then Bit(b, i - 8)
              else i < 16 && Bit(a, i - 12))
  {
    DigitBit(d, c + 16 * (b + 16 * a), i);
    if i >= 4 { DigitBit(c, b + 16 * a, i - 4); }
    if i >= 8 { DigitBit(b, a, i - 8); }
    if i >= 16 { HighBitsZero(a, 4, i - 12); }
  }

  lemma DigitBits()
    ensures !Bit(0xA, 0) && Bit(0xA, 1) && !Bit(0xA, 2) && Bit(0xA, 3)
    ensures Bit(0x5, 0) && !Bit(0x5, 1) && Bit(0x5, 2) && !Bit(0x5, 3)
    ensures !Bit(0xC, 0) && !Bit(0xC, 1) && Bit(0xC, 2) && Bit(0xC, 3)
    ensures Bit(0x3, 0) && Bit(0x3, 1) && !Bit(0x3, 2) && !Bit(0x3, 3)
    ensures Bit(0xF, 0) && Bit(0xF, 1) && Bit(0xF, 2) && Bit(0xF, 3)
    ensures !Bit(0, 0) && !Bit(0, 1) && !Bit(0, 2) && !Bit(0, 3)
  {
  }

  lemma Masks1()
    ensures MaskPair(0xAAAA, 0x5555, 1)
  {
    DigitBits();
    forall i: nat
      ensures Bit(0xAAAA, i) == (i < 16 && Partner(i, 1) < i) && Bit(0x5555, i) == (i < 16 && Partner(i, 1) > i)
    {
      HexBit(0xA, 0xA, 0xA, 0xA, i);
      HexBit(0x5, 0x5, 0x5, 0x5, i);
    }
  }

  lemma Masks2()
    ensures MaskPair(0xCCCC, 0x3333, 2)
  {
    DigitBits();
    forall i: nat
      ensures Bit(0xCCCC, i) == (i < 16 && Partner(i, 2) < i) && Bit(0x3333, i) == (i < 16 && Partner(i, 2) > i)
    {
      HexBit(0xC, 0xC, 0xC, 0xC, i);
      HexBit(0x3, 0x3, 0x3, 0x3, i);
    }
  }

  lemma Masks4()
    ensures MaskPair(0xF0F0, 0x0F0F, 4)
  {
    DigitBits();
    forall i: nat
      ensures Bit(0xF0F0, i) == (i < 16 && Partner(i, 4) < i) && Bit(0x0F0F, i) == (i < 16 && Partner(i, 4) > i)
    {
      HexBit(0xF, 0, 0xF, 0, i);
      HexBit(0, 0xF, 0, 0xF, i);
    }
  }

  lemma Masks8()
    ensures MaskPair(0xFF00, 0x00FF, 8)
  {
    DigitBits();
    forall i: nat
      ensures Bit(0xFF00, i) == (i < 16 && Partner(i, 8) < i) && Bit(0x00FF, i) == (i < 16 && Partner(i, 8) > i)
    {
      HexBit(0xF, 0xF, 0, 0, i);
      HexBit(0, 0, 0xF, 0xF, i);
    }
  }

  /** One stage exchanges neighbouring groups of k bits. */
  lemma StageSwaps(n: nat, hi: nat, lo: nat, k: nat, i: nat)
    requires k in {1, 2, 4, 8} && MaskPair(hi, lo, k)
    ensures Bit(SwapStage(n, hi, lo, k), i) == (i < 16 && Bit(n, Partner(i, k)))
  {
    PartnerParity(i, k);
    PartnerWithin(i, k);
    StageBit(n, hi, lo, k, i);
  }

  lemma PartnersReverse(i: nat)
    requires i < 16
    ensures Partner(i, 8) < 16 && Partner(Partner(i, 8), 4) < 16 && Partner(Partner(Partner(i, 8), 4), 2) < 16
    ensures Partner(Partner(Partner(Partner(i, 8), 4), 2), 1) == 15 - i
  {
  }

  /** `stbi__bitreverse16` reverses the low 16 bits and drops the others. */
  lemma Reverse16Bit(n: nat, i: nat)
    ensures Bit(BitReverse16(n), i) == (i < 16 && Bit(n, 15 - i))
  {
    Masks1();
    Masks2();
    Masks4();
    Masks8();
    var n1 := SwapStage(n, 0xAAAA, 0x5555, 1);
    var n2 := SwapStage(n1, 0xCCCC, 0x3333, 2);
    var n3 := SwapStage(n2, 0xF0F0, 0x0F0F, 4);
    StageSwaps(n3, 0xFF00, 0x00FF, 8, i);
    if i < 16 {
      var i3 := Partner(i, 8);
      var i2 := Partner(i3, 4);
      var i1 := Partner(i2, 2);
      StageSwaps(n2, 0xF0F0, 0x0F0F, 4, i3);
      StageSwaps(n1, 0xCCCC, 0x3333, 2, i2);
      StageSwaps(n, 0xAAAA, 0x5555, 1, i1);
      PartnersReverse(i);
    }
  }

  lemma ReverseBound(n: nat)
    ensures BitReverse16(n) < Pow2(16)
  {
    forall i: nat | i >= 16 ensures !Bit(BitReverse16(n), i) {
      Reverse16Bit(n, i);
    }
    BoundedByBits(BitReverse16(n), 16);
  }

  lemma FrontBit(n: nat, k: nat, s: nat, i: nat)
    requires i < s <= k
    ensures Bit(Front(Low(n, k), s), i) == Bit(n, s - 1 - i)
  {
    var x, f := Low(n, k), Front(Low(n, k), s);
    FrontIsReverse(x, s);
    assert High(f, s)[s - 1 - i] == Low(f, s)[i];
    assert x[..s][s - 1 - i] == x[s - 1 - i];
    LowBit(f, s, i);
    LowBit(n, k, s - 1 - i);
  }

  lemma ReversedBit(n: nat, bits: nat, i: nat)
    requires i < bits <= 16
    ensures Bit(ReverseBits(n, bits), i) == Bit(n, bits - 1 - i)
  {
    hide BitReverse16, Bit, ShiftRight;
    BitShiftRight(BitReverse16(n), 16 - bits, i);
    Reverse16Bit(n, i + (16 - bits));
  }

  lemma ReversedBound(n: nat, bits: nat)
    requires bits <= 16
    ensures ReverseBits(n, bits) < Pow2(bits)
  {
    ReverseBound(n);
    ShiftBound(BitReverse16(n), 16 - bits, bits);
  }

  /** The first s bits of the buffer, read as a number with the first bit on top, are the reversed 16 bits shifted
      down. */
  lemma ReverseIsFront(n: nat, k: nat, s: nat)
    requires s <= 16 && s <= k
    ensures ShiftRight(BitReverse16(n), 16 - s) == Front(Low(n, k), s)
  {
    ReversedBound(n, s);
    FrontIsReverse(Low(n, k), s);
    forall i | 0 <= i < s ensures Bit(ReverseBits(n, s), i) == Bit(Front(Low(n, k), s), i) {
      ReversedBit(n, s, i);
      FrontBit(n, k, s, i);
    }
    SameBits(ReverseBits(n, s), Front(Low(n, k), s), s);
  }

  /** `stbi__bit_reverse` of a code gives the number whose low bits are the code as it appears in the stream. */
  lemma ReversedCode(v: nat, bits: nat)
    requires bits <= 16
    ensures ReverseBits(v, bits) < Pow2(bits)
    ensures Low(ReverseBits(v, bits), bits) == High(v, bits)
  {
    ReversedBound(v, bits);
    var r := ReverseBits(v, bits);
    forall i | 0 <= i < bits ensures Low(r, bits)[i] == High(v, bits)[i] {
      LowBit(r, bits, i);
      ReversedBit(v, bits, i);
      LowBit(v, bits, bits - 1 - i);
    }
  }
}
