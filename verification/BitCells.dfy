/** Moving a stream of bits from cells of one width to cells of another. A cell is the upper end of a byte. */
module BitCells {
  import opened Arithmetic
  import opened Bits

  /** The t-th bit of a byte from the top. */
  predicate TopBit(b: Byte, t: nat) {
    t < 8 && Bit(b, 7 - t)
  }

  /** Bit n of a stream of cells of width w. */
  predicate StreamBit(cells: seq<Byte>, w: nat, n: nat)
    requires w > 0
  {
    n / w < |cells| && TopBit(cells[n / w], n % w)
  }

  /** Nothing is set below the cell. */
  ghost predicate Narrow(b: Byte, w: nat) {
    forall t :: w <= t < 8 ==> !TopBit(b, t)
  }

  /** `(((src << pi) & (UCHAR_MAX << (8 - inl))) >> po) & (UCHAR_MAX << (8 - outl))`, cut to a byte. */
  function Piece(src: Byte, pi: nat, po: nat, inl: nat, outl: nat): (r: Byte)
    requires inl <= 8 && outl <= 8
  {
    And(ShiftRight(And(ShiftLeft(src, pi), ShiftLeft(255, 8 - inl)), po), ShiftLeft(255, 8 - outl)) % 256
  }

  function Min(a: nat, b: nat): nat {
    if a < b then a else b
  }

  lemma LowByte(n: nat, i: nat)
    ensures Bit(n % 256, i) == (i < 8 && Bit(n, i))
  {
    Pow2Values();
    var k := 8;
    assert n % 256 == Mask(n, k);
    if i < 8 {
      LowSplit(n, k, 0);
      LowBit(n, k, i);
      LowBit(Mask(n, k), k, i);
    } else {
      HighBitsZero(n % 256, 8, i);
    }
  }

  lemma {:induction false} AllOnes(k: nat, i: nat)
    ensures Bit(Pow2(k) - 1, i) == (i < k)
    decreases k
  {
    if k == 0 {
      ZeroBit(i);
    } else if i > 0 {
      AllOnes(k - 1, i - 1);
      assert (Pow2(k) - 1) / 2 == Pow2(k - 1) - 1;
    }
  }

  lemma MaskBit(k: nat, i: nat)
    ensures Bit(ShiftLeft(255, k), i) == (k <= i < k + 8)
  {
    BitShiftLeft(255, k, i);
    Pow2Values();
    if i >= k { AllOnes(8, i - k); }
  }

  /** The piece holds the bits of the source from pi on, as many as fit in the target from po on. */
  lemma PieceBit(src: Byte, pi: nat, po: nat, inl: nat, outl: nat, t: nat)
    requires pi < inl <= 8 && po < outl <= 8 && (pi == 0 || po == 0) && Narrow(src, inl) && t < 8
    ensures TopBit(Piece(src, pi, po, inl, outl), t) ==
            (po <= t < po + Min(inl - pi, outl - po) && TopBit(src, t - po + pi))
  {
    hide And, ShiftLeft, ShiftRight;
    var i := 7 - t;
    var a := And(ShiftLeft(src, pi), ShiftLeft(255, 8 - inl));
    var b := And(ShiftRight(a, po), ShiftLeft(255, 8 - outl));
    LowByte(b, i);
    BitAnd(ShiftRight(a, po), ShiftLeft(255, 8 - outl), i);
    MaskBit(8 - outl, i);
    BitShiftRight(a, po, i);
    BitAnd(ShiftLeft(src, pi), ShiftLeft(255, 8 - inl), i + po);
    MaskBit(8 - inl, i + po);
    BitShiftLeft(src, pi, i + po);
    if i + po >= pi {
      var s := i + po - pi;
      if s >= 8 {
        Pow2Values();
        HighBitsZero(src, 8, s);
      } else if s < 8 - inl {
        assert !TopBit(src, 7 - s);
      }
    }
  }

  lemma InCell(n: nat, c: nat, w: nat)
    requires w > 0 && c * w <= n < c * w + w
    ensures n / w == c && n % w == n - c * w
  {
    Digits(c, n - c * w, w);
  }

  lemma CellOf(n: nat, w: nat)
    requires w > 0
    ensures n / w * w <= n < n / w * w + w && n % w == n - n / w * w
  {
    Quotient(n, w);
  }

  /** The first bits of the target, up to bit po of cell c, are those of the source, and the rest of that cell is
      clear. */
  ghost predicate Copied(src: seq<Byte>, inl: nat, out: seq<Byte>, outl: nat, c: nat, po: nat)
    requires inl > 0 && outl > 0
  {
    && c < |out| && po < outl
    && (forall n :: 0 <= n < c * outl + po ==> StreamBit(out, outl, n) == StreamBit(src, inl, n))
    && (forall t :: po <= t < 8 ==> !TopBit(out[c], t))
    && (forall j :: 0 <= j < c ==> Narrow(out[j], outl))
  }

  lemma OrByte(a: Byte, b: Byte)
    ensures Or(a, b) < 256
    ensures forall t :: 0 <= t < 8 ==> TopBit(Or(a, b), t) == (TopBit(a, t) || TopBit(b, t))
  {
    Pow2Values();
    forall i: nat | i >= 8 ensures !Bit(Or(a, b), i) {
      BitOr(a, b, i);
      HighBitsZero(a, 8, i);
      HighBitsZero(b, 8, i);
    }
    BoundedByBits(Or(a, b), 8);
    forall t | 0 <= t < 8 ensures TopBit(Or(a, b), t) == (TopBit(a, t) || TopBit(b, t)) {
      BitOr(a, b, 7 - t);
    }
  }

  /** The target cell after one round. */
  lemma CellBits(cell: Byte, was: Byte, src: Byte, pi: nat, po: nat, inl: nat, outl: nat, t: nat)
    requires pi < inl <= 8 && po < outl <= 8 && (pi == 0 || po == 0) && Narrow(src, inl) && t < 8
    requires cell == Or(was, Piece(src, pi, po, inl, outl))
    ensures TopBit(cell, t) == (TopBit(was, t) || (po <= t < po + Min(inl - pi, outl - po) && TopBit(src, t - po + pi)))
  {
    hide Piece, Narrow;
    OrByte(was, Piece(src, pi, po, inl, outl));
    PieceBit(src, pi, po, inl, outl, t);
  }

  /** One round moves as many bits as the source cell s and the target cell c both have left. */
  lemma MovePiece(src: seq<Byte>, inl: nat, s: nat, pi: nat, out: seq<Byte>, outl: nat, c: nat, po: nat, cell: Byte)
    requires pi < inl <= 8 && po < outl <= 8 && (pi == 0 || po == 0) && s * inl + pi == c * outl + po
    requires s < |src| && Narrow(src[s], inl) && Copied(src, inl, out, outl, c, po)
    requires cell == Or(out[c], Piece(src[s], pi, po, inl, outl))
    ensures forall n :: 0 <= n < c * outl + po + Min(inl - pi, outl - po) ==>
      StreamBit(out[c := cell], outl, n) == StreamBit(src, inl, n)
    ensures forall t :: po + Min(inl - pi, outl - po) <= t < 8 ==> !TopBit(cell, t)
  {
    hide Or, Piece, TopBit, Narrow, StreamBit;
    var incr := Min(inl - pi, outl - po);
    assert Merged(cell, out[c], src[s], pi, po, incr) by {
      forall t | 0 <= t < 8
        ensures TopBit(cell, t) == (TopBit(out[c], t) || (po <= t < po + incr && TopBit(src[s], t - po + pi)))
      {
        CellBits(cell, out[c], src[s], pi, po, inl, outl, t);
      }
    }
    forall n | 0 <= n < c * outl + po + incr ensures StreamBit(out[c := cell], outl, n) == StreamBit(src, inl, n) {
      if n < c * outl + po {
        OldBit(out, outl, c, po, incr, cell, n, src[s], pi);
      } else {
        NewBit(src, inl, out, outl, s, pi, c, po, incr, cell, n);
      }
    }
  }

  /** The bits from pi on of the source have been added to the cell from po on. */
  ghost predicate Merged(cell: Byte, was: Byte, src: Byte, pi: nat, po: nat, incr: nat) {
    forall t :: 0 <= t < 8 ==> (TopBit(cell, t) <==>
      TopBit(was, t) || (po <= t < po + incr && TopBit(src, t - po + pi)))
  }

  lemma OldBit(out: seq<Byte>, outl: nat, c: nat, po: nat, incr: nat, cell: Byte, n: nat, src: Byte, pi: nat)
    requires po < outl <= 8 && c < |out| && n < c * outl + po && Merged(cell, out[c], src, pi, po, incr)
    ensures StreamBit(out[c := cell], outl, n) == StreamBit(out, outl, n)
  {
    hide TopBit;
    CellOf(n, outl);
    if n / outl > c { MulMonotone(c + 1, n / outl, outl); }
  }

  lemma NewBit(src: seq<Byte>, inl: nat, out: seq<Byte>, outl: nat, s: nat, pi: nat, c: nat, po: nat, incr: nat,
               cell: Byte, n: nat)
    requires pi < inl <= 8 && po < outl <= 8 && c < |out| && s < |src| && c * outl + po == s * inl + pi
    requires c * outl + po <= n < c * outl + po + incr && pi + incr <= inl && po + incr <= outl
    requires (forall t :: po <= t < 8 ==> !TopBit(out[c], t)) && Merged(cell, out[c], src[s], pi, po, incr)
    ensures StreamBit(out[c := cell], outl, n) == StreamBit(src, inl, n)
  {
    hide TopBit;
    InCell(n, c, outl);
    InCell(n, s, inl);
  }
}
