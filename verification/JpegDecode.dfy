/** Decoding with the tables of `stbi__huffman`: one symbol, its magnitude bits, and both in one step. */
module JpegDecode {
  import opened Arithmetic
  import opened Bits
  import CanonicalCode
  import opened JpegCode
  import opened JpegHuffman

  // ---------- The combined table ----------

  /** `((i << len) & 511) >> (9 - magbits)`: the bits of the window behind the code. */
  function Magnitude(w: nat, len: nat, t: nat): nat
    requires t <= FAST_BITS
  {
    ShiftRight(Mask(ShiftLeft(w, len), FAST_BITS), FAST_BITS - t)
  }

  /** They are what RECEIVE gets after the code (section F.2.2.4). */
  lemma MagnitudeIsReceived(x: seq<bool>, len: nat, t: nat)
    requires FAST_BITS <= |x| && len + t <= FAST_BITS
    ensures Magnitude(CanonicalCode.Front(x, FAST_BITS), len, t) == CanonicalCode.Front(x[len..], t)
  {
    hide CanonicalCode.Front, Pow2;
    var rest := x[len..];
    FrontSplit(x, len, FAST_BITS - len);
    FrontSplit(rest, t, FAST_BITS - len - t);
    CanonicalCode.FrontIsReverse(rest, FAST_BITS - len);
    CanonicalCode.FrontIsReverse(rest[t..], FAST_BITS - len - t);
    Middle(CanonicalCode.Front(x, len), CanonicalCode.Front(rest, t),
      CanonicalCode.Front(rest[t..], FAST_BITS - len - t), len, t);
  }

  lemma Middle(a: nat, f: nat, r: nat, len: nat, t: nat)
    requires len + t <= FAST_BITS && r < Pow2(FAST_BITS - len - t)
    requires f * Pow2(FAST_BITS - len - t) + r < Pow2(FAST_BITS - len)
    ensures Magnitude(a * Pow2(FAST_BITS - len) + (f * Pow2(FAST_BITS - len - t) + r), len, t) == f
  {
    hide Pow2, Mask, ShiftRight;
    var n := FAST_BITS - len - t;
    var b := f * Pow2(n) + r;
    MaskedShift(a, b, FAST_BITS - len, len);
    ShiftedBack(f, r, n, len);
  }

  /** The bits above the window drop out. */
  lemma MaskedShift(a: nat, b: nat, n: nat, len: nat)
    requires b < Pow2(n)
    ensures Mask(ShiftLeft(a * Pow2(n) + b, len), n + len) == b * Pow2(len)
  {
    hide Pow2;
    Pow2Add(n, len);
    Shifted(a, b, Pow2(n), Pow2(len), Pow2(n + len));
    Digits(a, b * Pow2(len), Pow2(n + len));
  }

  lemma ShiftedBack(f: nat, r: nat, n: nat, len: nat)
    requires r < Pow2(n)
    ensures ShiftRight((f * Pow2(n) + r) * Pow2(len), n + len) == f
  {
    hide Pow2;
    Pow2Add(n, len);
    Shifted(f, r, Pow2(n), Pow2(len), Pow2(n + len));
    Digits(f, r * Pow2(len), Pow2(n + len));
  }

  lemma Shifted(a: nat, b: nat, p: nat, q: nat, pq: nat)
    requires b < p && q > 0 && p * q == pq
    ensures (a * p + b) * q == a * pq + b * q && 0 <= b * q < pq
  {
    assert (a * p + b) * q == a * (p * q) + b * q;
    MulMonotone(b + 1, p, q);
  }

  /** The coefficient in the window behind the code of symbol i. */
  function Coefficient(sizes: seq<nat>, values: seq<Byte>, i: nat, w: nat): int
    requires i < |sizes| && i < |values| && 0 < values[i] % 16 <= FAST_BITS
  {
    Extend(Magnitude(w, sizes[i], values[i] % 16), values[i] % 16)
  }

  /** The window holds the code of symbol i and its magnitude bits, and the coefficient fits in a byte. */
  ghost predicate Combined(sizes: seq<nat>, values: seq<Byte>, i: nat, w: nat)
    requires i < |sizes| && i < |values| && Listed(sizes)
  {
    && FastCovers(sizes, i, w) && values[i] % 16 > 0 && sizes[i] + values[i] % 16 <= FAST_BITS
    && -128 <= Coefficient(sizes, values, i, w) <= 127
  }

  /** An entry of the combined table: 0 stands for none, and symbol 255 has none because 255 marks windows without a
      short code. */
  ghost predicate AcEntry(sizes: seq<nat>, values: seq<Byte>, w: nat, r: int)
    requires |sizes| <= |values| && Listed(sizes)
  {
    if r == 0 then forall i :: 0 <= i < |sizes| && i < 255 ==> !Combined(sizes, values, i, w)
    else exists i ::
      0 <= i < |sizes| && i < 255 && Combined(sizes, values, i, w) && r == PackedEntry(sizes, values, i, w)
  }

  function PackedEntry(sizes: seq<nat>, values: seq<Byte>, i: nat, w: nat): int
    requires i < |sizes| && i < |values| && 0 < values[i] % 16 <= FAST_BITS
  {
    Coefficient(sizes, values, i, w) * 256 + values[i] / 16 * 16 + (sizes[i] + values[i] % 16)
  }

  /** `stbi__build_fast_ac` */
  method BuildFastAc(fastAc: array<int>, h: Huffman, ghost sizes: seq<nat>)
    requires fastAc.Length == 512 && h.Represents(sizes)
    requires fastAc != h.delta
    modifies fastAc
    ensures forall w :: 0 <= w < 512 ==> AcEntry(sizes, h.values[..], w, fastAc[w])
  {
    hide Huffman.Codes, Huffman.Limits, Fits;
    for i := 0 to 512
      invariant forall w :: 0 <= w < i ==> AcEntry(sizes, h.values[..], w, fastAc[w])
    {
      var r := FastAcOf(i, h, sizes);
      fastAc[i] := r;
    }
  }

  /** The coefficient in a window, behind a code of len bits. */
  method CoefficientAt(w: nat, len: nat, magbits: nat) returns (k: int)
    requires 0 < magbits <= FAST_BITS
    ensures k == Extend(Magnitude(w, len, magbits), magbits)
  {
    hide Mask, ShiftRight, Pow2;
    k := ShiftRight(Mask(ShiftLeft(w, len), FAST_BITS), FAST_BITS - magbits);
    var m := ShiftLeft(1, magbits - 1);
    if k < m {
      k := k - Pow2(magbits) + 1;
    }
  }

  method FastAcOf(i: nat, h: Huffman, ghost sizes: seq<nat>) returns (r: int)
    requires i < 512 && h.Represents(sizes)
    ensures AcEntry(sizes, h.values[..], i, r)
  {
    hide Huffman.Codes, Huffman.Limits, Fits, FastCovers, Next, Code, Magnitude, Extend;
    var fast := h.fast[i];
    assert FastEntry(sizes, |sizes|, i, h.fast[..][i]);
    OnlyOne(sizes, h.values[..], fast, i);
    r := 0;
    if fast < 255 {
      var rs := h.values[fast];
      var run := rs / 16 % 16;
      var magbits := rs % 16;
      var len := h.size[fast];
      assert len == h.size[..|sizes|][fast] == sizes[fast];
      if magbits != 0 && len + magbits <= FAST_BITS {
        var k := CoefficientAt(i, len, magbits);
        assert k == Coefficient(sizes, h.values[..], fast, i);
        if -128 <= k <= 127 {
          r := k * 256 + run * 16 + (len + magbits);
          Unpacked(k, run, len + magbits);
          assert r == PackedEntry(sizes, h.values[..], fast, i);
        }
      }
    }
  }

  /** The fast table names the only symbol that can have an entry. */
  lemma OnlyOne(sizes: seq<nat>, values: seq<Byte>, f: nat, w: nat)
    requires |sizes| <= |values| && Listed(sizes) && FastEntry(sizes, |sizes|, w, f)
    ensures forall i :: 0 <= i < |sizes| && i < 255 && Combined(sizes, values, i, w) ==> i == f
  {
    hide Covers, Coefficient;
    forall i | 0 <= i < |sizes| && i < 255 && Combined(sizes, values, i, w) ensures i == f {
      if f < |sizes| && FastCovers(sizes, f, w) {
        OneCovers(sizes, i, f, FAST_BITS, w);
      }
    }
  }

  /** Every entry of the combined table does what DECODE, RECEIVE and EXTEND do with the same bits (sections F.2.2.1 to
      F.2.2.4): symbol i is the one whose code starts the bits, and run, coefficient and the number of bits consumed are
      those of the symbol and the bits behind the code. */
  lemma FastAcAgrees(sizes: seq<nat>, values: seq<Byte>, r: int, x: seq<bool>) returns (i: nat)
    requires |sizes| <= |values| && Listed(sizes) && Fits(sizes) && 16 <= |x|
    requires AcEntry(sizes, values, CanonicalCode.Front(x, FAST_BITS), r) && r != 0
    ensures i < |sizes| && i < 255 && CodeStarts(sizes, i, x) &&
      forall j :: 0 <= j < |sizes| && CodeStarts(sizes, j, x) ==> j == i
    ensures 0 < values[i] % 16 <= 15 && sizes[i] + values[i] % 16 <= |x|
    ensures r / 16 % 16 == values[i] / 16
    ensures r % 16 == sizes[i] + values[i] % 16
    ensures r / 256 == Extend(CanonicalCode.Front(x[sizes[i]..], values[i] % 16), values[i] % 16)
  {
    hide Covers, CodeStarts, Extend, Magnitude, CanonicalCode.Front, Code, Next;
    var w := CanonicalCode.Front(x, FAST_BITS);
    i :| 0 <= i < |sizes| && i < 255 && Combined(sizes, values, i, w) && r == PackedEntry(sizes, values, i, w);
    CoversIsStart(sizes, i, x, FAST_BITS);
    MagnitudeIsReceived(x, sizes[i], values[i] % 16);
    Unpacked(Coefficient(sizes, values, i, w), values[i] / 16, sizes[i] + values[i] % 16);
    forall j | 0 <= j < |sizes| && CodeStarts(sizes, j, x) ensures j == i {
      CoversIsStart(sizes, i, x, 16);
      CoversIsStart(sizes, j, x, 16);
      OneCovers(sizes, i, j, 16, CanonicalCode.Front(x, 16));
    }
  }

  lemma Unpacked(k: int, run: nat, n: nat)
    requires run < 16 && n < 16
    ensures (k * 256 + run * 16 + n) / 256 == k && (k * 256 + run * 16 + n) / 16 % 16 == run &&
      (k * 256 + run * 16 + n) % 16 == n
  {
    Digits(k, run * 16 + n, 256);
    Digits(k * 16 + run, n, 16);
    Digits(k, run, 16);
  }

  // ---------- One symbol ----------

  /** What is left of a buffer of 32 bits when the first n have been consumed. */
  function Rest(codeBuffer: nat, n: nat): nat {
    Mask(ShiftLeft(codeBuffer, n), 32)
  }

  /** Symbol i has a short code, but the fast table cannot name it. */
  predicate Unmarked(sizes: seq<nat>, i: nat)
    requires i < |sizes|
  {
    i == 255 && sizes[i] <= FAST_BITS
  }

  /** The result of decoding a symbol with a code of size s: its value, and its bits consumed, if there are so many in
      the buffer. */
  predicate Right(codeBuffer: nat, codeBits: int, s: nat, value: Byte, r: int, rest: nat, bits: int) {
    if s <= codeBits then r == value && rest == Rest(codeBuffer, s) && bits == codeBits - s
    else r == -1 && rest == codeBuffer && bits == codeBits
  }

  /** There are tables with such a symbol: 256 symbols, all with codes of nine bits. */
  lemma UnmarkedExists()
    ensures var sizes := Repeated(9, 256);
      Listed(sizes) && Fits(sizes) && Unmarked(sizes, 255) && Covers(sizes, 255, 16, 255 * 128)
  {
    hide Next, Code, Pow2;
    var sizes := Repeated(9, 256);
    forall i | 0 <= i < 256 ensures Code(sizes, i) == i < Pow2(sizes[i]) {
      NineBitCode(sizes, i);
      Pow2Values();
    }
    NineBitCode(sizes, 255);
    CoverStart(sizes, 255, 16);
    Pow2Values();
  }

  lemma NineBitCode(sizes: seq<nat>, i: nat)
    requires sizes == Repeated(9, 256) && i < 256 && Listed(sizes)
    ensures Code(sizes, i) == i
  {
    hide Next, Code;
    OneSize(sizes, i, 9);
    Consecutive(sizes, 0, i, 9);
    NoNext(sizes, 9);
  }

  lemma FastHit(sizes: seq<nat>, f: nat, v: nat)
    requires Listed(sizes) && FastEntry(sizes, |sizes|, v / 128, f) && f < 255
    ensures f < |sizes| && sizes[f] <= FAST_BITS && Covers(sizes, f, 16, v)
  {
    hide Covers;
    NineOfSixteen(sizes, f, v);
  }

  lemma FastMiss(sizes: seq<nat>, v: nat, i: nat)
    requires Listed(sizes) && |sizes| <= 256 && FastEntry(sizes, |sizes|, v / 128, 255) && i < |sizes| &&
      Covers(sizes, i, 16, v)
    ensures sizes[i] > FAST_BITS || Unmarked(sizes, i)
  {
    hide Covers;
    if sizes[i] <= FAST_BITS {
      NineOfSixteen(sizes, i, v);
      assert FastCovers(sizes, i, v / 128);
      if 255 < |sizes| && FastCovers(sizes, 255, v / 128) {
        OneCovers(sizes, i, 255, FAST_BITS, v / 128);
      }
    }
  }

  /** Beyond the last limit no code starts. */
  lemma NothingCovers(sizes: seq<nat>, v: nat, i: nat)
    requires Listed(sizes) && (|sizes| > 0 ==> sizes[|sizes| - 1] <= 16) && v >= Next(sizes, |sizes|, 16) && i < |sizes|
    ensures !Covers(sizes, i, 16, v)
  {
    hide Next;
    CoversAscend(sizes, i + 1, |sizes|, 16);
  }

  /** The symbol at the first limit above v. */
  lemma SlowSymbol(sizes: seq<nat>, k: nat, v: nat) returns (i: nat)
    requires Listed(sizes) && |sizes| <= 256 && FAST_BITS < k <= 16 && v < Next(sizes, Within(sizes, |sizes|, k), 16)
    requires k > FAST_BITS + 1 ==> v >= Next(sizes, Within(sizes, |sizes|, k - 1), 16)
    requires FastEntry(sizes, |sizes|, v / 128, 255)
    ensures i < |sizes| && Covers(sizes, i, 16, v)
    ensures Unmarked(sizes, i) ==> k == FAST_BITS + 1
    ensures !Unmarked(sizes, i) ==> sizes[i] == k
  {
    hide Next, Covers, Within, FastEntry;
    i := SomeCovers(sizes, Within(sizes, |sizes|, k), v);
    WithinExact(sizes, |sizes|, k, i);
    FastMiss(sizes, v, i);
    if k > FAST_BITS + 1 {
      WithinExact(sizes, |sizes|, k - 1, i);
      if sizes[i] < k {
        CoversAscend(sizes, i + 1, Within(sizes, |sizes|, k - 1), 16);
        Ends(sizes, i, v);
      }
    }
  }

  lemma Ends(sizes: seq<nat>, i: nat, v: nat)
    requires i < |sizes| && Listed(sizes) && Covers(sizes, i, 16, v)
    ensures v < Next(sizes, i + 1, 16)
  {
  }

  /** The number of a symbol of k bits from its code. */
  lemma SlowIndex(sizes: seq<nat>, k: nat, v: nat, i: nat)
    requires Listed(sizes) && 1 <= k <= 16 && i < |sizes| && sizes[i] == k && Covers(sizes, i, 16, v)
    ensures ShiftRight(v, 16 - k) + Within(sizes, |sizes|, k - 1) - Next(sizes, Within(sizes, |sizes|, k - 1), k) == i
  {
    hide Next, Within;
    var m := Within(sizes, |sizes|, k - 1);
    WithinExact(sizes, |sizes|, k - 1, i);
    forall j | m <= j < i ensures sizes[j] == k {
      WithinExact(sizes, |sizes|, k - 1, j);
    }
    Consecutive(sizes, m, i, k);
    OneSize(sizes, i, k);
    CoverStart(sizes, i, 16);
    QuotientFrom(v, Code(sizes, i), Pow2(16 - k));
  }

  lemma QuotientFrom(v: nat, c: nat, p: nat)
    requires p > 0 && c * p <= v < c * p + p
    ensures v / p == c
  {
    Digits(c, v - c * p, p);
  }

  /** When there are 256 symbols with short codes, the last of them looks like a code of 10 bits to the slow path. */
  lemma UnmarkedIndex(sizes: seq<nat>, v: nat, k: nat)
    requires Listed(sizes) && Fits(sizes) && |sizes| == 256 && sizes[255] <= FAST_BITS && Covers(sizes, 255, 16, v) &&
      k == FAST_BITS + 1
    ensures 0 <= ShiftRight(v, 16 - k) + Within(sizes, |sizes|, k - 1) -
      Next(sizes, Within(sizes, |sizes|, k - 1), k) < 256
  {
    hide Next, Code;
    var s := sizes[255];
    CoverAtLeast(sizes, 256, s);
    CoversEnd(sizes, 255, 16);
    if s < 8 { Pow2Monotone(9, 16 - s); }
    Pow2Values();
    CoverStart(sizes, 255, 16);
    NextShifted(sizes, 256, 10, 6);
    assert Pow2(16 - s) <= 256 by {
      if s == 8 {} else {}
    }
  }

  lemma ShiftTwice(n: nat, a: nat, b: nat)
    ensures ShiftRight(ShiftRight(n, a), b) == ShiftRight(n, a + b)
  {
    hide Pow2;
    var q, r := ShiftRight(n, a), Mask(n, a);
    var f, g := ShiftRight(q, b), Mask(q, b);
    Pow2Add(a, b);
    MulMonotone(g + 1, Pow2(b), Pow2(a));
    assert n == f * (Pow2(a) * Pow2(b)) + (g * Pow2(a) + r) by {
      assert n == (f * Pow2(b) + g) * Pow2(a) + r;
    }
    Digits(f, g * Pow2(a) + r, Pow2(a + b));
  }

  /** The window of the fast table. */
  lemma Window(codeBuffer: nat)
    requires codeBuffer < 0x1_0000_0000
    ensures ShiftRight(codeBuffer, 16) < 0x10000 &&
      ShiftRight(codeBuffer, 32 - FAST_BITS) == ShiftRight(codeBuffer, 16) / 128 < 512
  {
    Pow2Values();
    ShiftTwice(codeBuffer, 16, 7);
  }

  lemma OnlySymbol(sizes: seq<nat>, i: nat, v: nat)
    requires Listed(sizes) && i < |sizes| && Covers(sizes, i, 16, v)
    ensures forall j :: 0 <= j < |sizes| && Covers(sizes, j, 16, v) ==> j == i
  {
    hide Covers;
    forall j | 0 <= j < |sizes| && Covers(sizes, j, 16, v) ensures j == i {
      OneCovers(sizes, i, j, 16, v);
    }
  }

  /** The comparisons with the limits, for codes of more than 9 bits. */
  method DecodeSlow(h: Huffman, codeBuffer: nat, codeBits: int, ghost sizes: seq<nat>)
    returns (r: int, rest: nat, bits: int)
    requires h.Represents(sizes) && codeBuffer < 0x1_0000_0000
    requires FastEntry(sizes, |sizes|, ShiftRight(codeBuffer, 16) / 128, 255)
    ensures forall i :: 0 <= i < |sizes| && Covers(sizes, i, 16, ShiftRight(codeBuffer, 16)) ==>
      (Right(codeBuffer, codeBits, sizes[i], h.values[i], r, rest, bits) <==>
        (!Unmarked(sizes, i) || codeBits < sizes[i]))
    ensures (forall i :: 0 <= i < |sizes| ==> !Covers(sizes, i, 16, ShiftRight(codeBuffer, 16))) ==>
      r == -1 && rest == codeBuffer && bits == codeBits - 16
    ensures |sizes| == 256 && Unmarked(sizes, 255) && Covers(sizes, 255, 16, ShiftRight(codeBuffer, 16)) ==>
      if codeBits >= 10 then rest == Rest(codeBuffer, 10) && bits == codeBits - 10
        else r == -1 && rest == codeBuffer && bits == codeBits
  {
    hide Covers, Next, Code, Within, Huffman.Codes, Fits, Pow2, FastEntry, LimitsOf, Mask, ShiftRight, ShiftLeft;
    ghost var v := ShiftRight(codeBuffer, 16);
    Window(codeBuffer);
    var temp := ShiftRight(codeBuffer, 16);
    var k := FAST_BITS + 1;
    while temp >= h.maxcode[k]
      invariant FAST_BITS < k <= 17
      invariant k > FAST_BITS + 1 ==> v >= Next(sizes, Within(sizes, |sizes|, k - 1), 16)
      decreases 17 - k
    {
      LimitIs(sizes, k, h.maxcode[k], h.delta[k]);
      k := k + 1;
    }
    if k == 17 {
      AllWithin(sizes);
      forall i | 0 <= i < |sizes| ensures !Covers(sizes, i, 16, v) {
        NothingCovers(sizes, v, i);
      }
      return -1, codeBuffer, codeBits - 16;
    }
    LimitIs(sizes, k, h.maxcode[k], h.delta[k]);
    ghost var i := SlowSymbol(sizes, k, v);
    OnlySymbol(sizes, i, v);
    if k > codeBits {
      return -1, codeBuffer, codeBits;
    }
    var c := ShiftRight(codeBuffer, 32 - k) + h.delta[k];
    ShiftTwice(codeBuffer, 16, 16 - k);
    if Unmarked(sizes, i) {
      UnmarkedIndex(sizes, v, k);
    } else {
      SlowIndex(sizes, k, v, i);
    }
    return h.values[c], Mask(ShiftLeft(codeBuffer, k), 32), codeBits - k;
  }

  lemma LimitIs(sizes: seq<nat>, j: nat, maxcode: nat, delta: int)
    requires Listed(sizes) && 1 <= j <= 16 && LimitsOf(sizes, j, maxcode, delta)
    ensures maxcode == Next(sizes, Within(sizes, |sizes|, j), 16)
    ensures delta == Within(sizes, |sizes|, j - 1) - Next(sizes, Within(sizes, |sizes|, j - 1), j)
  {
  }

  /** `stbi__jpeg_huff_decode`, once the buffer has been filled: the symbol whose code starts the bits, and the bits
      behind it, for every symbol but the one that the fast table cannot name. Of that one, 10 bits are consumed though
      its code is shorter. */
  method Decode(h: Huffman, codeBuffer: nat, codeBits: int, ghost sizes: seq<nat>)
    returns (r: int, rest: nat, bits: int)
    requires h.Represents(sizes) && codeBuffer < 0x1_0000_0000
    ensures forall i :: 0 <= i < |sizes| && Covers(sizes, i, 16, ShiftRight(codeBuffer, 16)) ==>
      (Right(codeBuffer, codeBits, sizes[i], h.values[i], r, rest, bits) <==>
        (!Unmarked(sizes, i) || codeBits < sizes[i]))
    ensures (forall i :: 0 <= i < |sizes| ==> !Covers(sizes, i, 16, ShiftRight(codeBuffer, 16))) ==>
      r == -1 && rest == codeBuffer && bits == codeBits - 16
    ensures |sizes| == 256 && Unmarked(sizes, 255) && Covers(sizes, 255, 16, ShiftRight(codeBuffer, 16)) ==>
      if codeBits >= 10 then rest == Rest(codeBuffer, 10) && bits == codeBits - 10
        else r == -1 && rest == codeBuffer && bits == codeBits
  {
    hide Covers, Next, Code, Within, Huffman.Codes, Fits, Pow2, FastEntry, LimitsOf, Mask, ShiftRight, ShiftLeft;
    ghost var v := ShiftRight(codeBuffer, 16);
    var c := ShiftRight(codeBuffer, 32 - FAST_BITS);
    Window(codeBuffer);
    var k := h.fast[c];
    assert FastEntry(sizes, |sizes|, c, h.fast[..][c]);
    if k < 255 {
      FastHit(sizes, k, v);
      assert h.size[..|sizes|][k] == sizes[k];
      var s := h.size[k];
      OnlySymbol(sizes, k, v);
      if s > codeBits {
        return -1, codeBuffer, codeBits;
      }
      return h.values[k], Mask(ShiftLeft(codeBuffer, s), 32), codeBits - s;
    }
    r, rest, bits := DecodeSlow(h, codeBuffer, codeBits, sizes);
  }

  // ---------- The magnitude bits ----------

  /** `stbi__extend_receive`, once the buffer has been filled: the sign is taken from the top bit of the buffer. */
  method ExtendReceive(codeBuffer: nat, codeBits: int, n: nat) returns (v: int, rest: nat, bits: int)
    requires codeBuffer < 0x1_0000_0000 && 1 <= n <= 15
    ensures v == Extend(ShiftRight(codeBuffer, 32 - n), n) && rest == Rest(codeBuffer, n) && bits == codeBits - n
  {
    hide Pow2;
    var sgn := if codeBuffer >= 0x8000_0000 then -1 else 0;
    var k := Or(ShiftRight(codeBuffer, 32 - n), Mask(ShiftLeft(codeBuffer, n), 32));
    Rotated(codeBuffer, n);
    rest := k - Mask(k, n);
    v := Mask(k, n) + (if sgn == 0 then 1 - Pow2(n) else 0);
    bits := codeBits - n;
    SignBit(codeBuffer, n);
  }

  /** The rotated buffer has the received bits at its lower end. */
  lemma Rotated(b: nat, n: nat)
    requires b < 0x1_0000_0000 && n <= 32
    ensures Or(ShiftRight(b, 32 - n), Mask(ShiftLeft(b, n), 32)) == ShiftRight(b, 32 - n) + Rest(b, n)
    ensures Mask(ShiftRight(b, 32 - n) + Rest(b, n), n) == ShiftRight(b, 32 - n)
  {
    hide Pow2, Or;
    var q, r := ShiftRight(b, 32 - n), Mask(b, 32 - n);
    Pow2Add(32 - n, n);
    Pow2Words();
    ShiftBound(b, 32 - n, n);
    MaskedShift(q, r, 32 - n, n);
    OrDisjoint(q, r * Pow2(n), r, n);
    Digits(r, q, Pow2(n));
  }

  lemma Pow2Words()
    ensures Pow2(32) == 0x1_0000_0000 && Pow2(31) == 0x8000_0000
  {
    Pow2Values();
    Pow2Add(16, 16);
    Pow2Add(16, 15);
  }

  /** The top bit of the buffer is the top bit of the number received. */
  lemma SignBit(b: nat, n: nat)
    requires 1 <= n <= 32
    ensures b >= 0x8000_0000 <==> ShiftRight(b, 32 - n) >= Pow2(n - 1)
  {
    hide Pow2;
    var q, r := ShiftRight(b, 32 - n), Mask(b, 32 - n);
    Pow2Add(n - 1, 32 - n);
    Pow2Words();
    if q >= Pow2(n - 1) {
      MulMonotone(Pow2(n - 1), q, Pow2(32 - n));
    } else {
      MulMonotone(q + 1, Pow2(n - 1), Pow2(32 - n));
      OneMoreTimes(q, Pow2(32 - n));
    }
  }

  /** A buffer whose bits are x holds the first n of them at its upper end, and the others after they have been
      consumed. */
  lemma BufferBits(x: seq<bool>, n: nat)
    requires |x| == 32 && n <= 32
    ensures ShiftRight(CanonicalCode.Front(x, 32), 32 - n) == CanonicalCode.Front(x, n)
    ensures Rest(CanonicalCode.Front(x, 32), n) == ShiftLeft(CanonicalCode.Front(x[n..], 32 - n), n)
  {
    hide Pow2, CanonicalCode.Front;
    FrontSplit(x, n, 32 - n);
    CanonicalCode.FrontIsReverse(x[n..], 32 - n);
    Digits(CanonicalCode.Front(x, n), CanonicalCode.Front(x[n..], 32 - n), Pow2(32 - n));
    MaskedShift(CanonicalCode.Front(x, n), CanonicalCode.Front(x[n..], 32 - n), 32 - n, n);
  }

  // ---------- Both ways ----------

  lemma FrontOfHigh(b: nat, n: nat)
    requires b < Pow2(n)
    ensures CanonicalCode.Front(High(b, n), n) == b
  {
    hide CanonicalCode.Front, High, Pow2;
    CanonicalCode.FrontIsReverse(High(b, n), n);
    assert High(b, n)[..n] == High(b, n);
    CanonicalCode.HighInjective(CanonicalCode.Front(High(b, n), n), b, n);
  }

  function Clear(n: nat): (s: seq<bool>)
    ensures |s| == n && forall k :: 0 <= k < n ==> !s[k]
  {
    seq(n, _ => false)
  }

  lemma {:induction false} FrontOfClear(s: seq<bool>, n: nat)
    requires n <= |s| && forall k :: 0 <= k < n ==> !s[k]
    ensures CanonicalCode.Front(s, n) == 0
  {
    if n > 0 { FrontOfClear(s, n - 1); }
  }

  /** Consuming bits of a buffer is dropping them, with zeros at the end. */
  lemma RestBits(x: seq<bool>, n: nat)
    requires |x| == 32 && n <= 32
    ensures |x[n..] + Clear(n)| == 32 && Rest(CanonicalCode.Front(x, 32), n) ==
      CanonicalCode.Front(x[n..] + Clear(n), 32)
  {
    hide CanonicalCode.Front, Pow2, Rest;
    var y := x[n..] + Clear(n);
    BufferBits(x, n);
    FrontSplit(y, 32 - n, n);
    FrontPrefix(x[n..], y, 32 - n);
    FrontOfClear(y[32 - n..], n);
  }

  /** After the code, the buffer starts with the magnitude bits, and consuming these too is consuming all at once. */
  lemma RestTwice(x: seq<bool>, n: nat, t: nat)
    requires |x| == 32 && n + t <= 32
    ensures ShiftRight(Rest(CanonicalCode.Front(x, 32), n), 32 - t) == CanonicalCode.Front(x[n..], t)
    ensures Rest(Rest(CanonicalCode.Front(x, 32), n), t) == Rest(CanonicalCode.Front(x, 32), n + t)
  {
    hide CanonicalCode.Front, Pow2, Rest, ShiftRight;
    var y := x[n..] + Clear(n);
    RestBits(x, n);
    BufferBits(y, t);
    FrontPrefix(x[n..], y, t);
    RestBits(y, t);
    RestBits(x, n + t);
    assert y[t..] + Clear(t) == x[n + t..] + Clear(n + t);
  }

  /** A nonzero entry of the combined table says what decoding the symbol and receiving its magnitude bits from the same
      buffer gives. */
  method FastEqualsSlow(h: Huffman, r: int, codeBuffer: nat, codeBits: int, ghost sizes: seq<nat>)
    returns (rs: int, v: int, rest: nat, bits: int)
    requires h.Represents(sizes) && codeBuffer < 0x1_0000_0000 && r != 0 && r % 16 <= codeBits
    requires AcEntry(sizes, h.values[..], ShiftRight(codeBuffer, 32 - FAST_BITS), r)
    ensures rs >= 0 && rs % 16 > 0 && r / 16 % 16 == rs / 16 && r / 256 == v
    ensures rest == Rest(codeBuffer, r % 16) && bits == codeBits - r % 16
  {
    hide CanonicalCode.Front, High, Pow2, Rest, ShiftRight, ShiftLeft, Mask, AcEntry, Extend, Code, Next, Covers,
      CodeStarts;
    ghost var x := High(codeBuffer, 32);
    Pow2Words();
    FrontOfHigh(codeBuffer, 32);
    BufferBits(x, FAST_BITS);
    BufferBits(x, 16);
    ghost var i := FastAcAgrees(sizes, h.values[..], r, x);
    SmallCode(sizes, i);
    CoversIsStart(sizes, i, x, 16);
    RestTwice(x, sizes[i], h.values[i] % 16);
    RestBound(codeBuffer, sizes[i]);
    rs, rest, bits := Decode(h, codeBuffer, codeBits, sizes);
    v, rest, bits := ExtendReceive(rest, bits, rs % 16);
  }

  lemma SmallCode(sizes: seq<nat>, i: nat)
    requires Listed(sizes) && Fits(sizes) && i < |sizes|
    ensures 1 <= sizes[i] <= 16 && Code(sizes, i) < Pow2(sizes[i])
  {
    hide Code;
  }

  lemma RestBound(b: nat, n: nat)
    ensures Rest(b, n) < 0x1_0000_0000
  {
    hide Pow2;
    Pow2Words();
  }
}
