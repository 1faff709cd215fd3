/** The decoding tables of `stbi__huffman`, and the table that decodes a code and its magnitude bits in one step. */
module JpegHuffman {
  import opened Arithmetic
  import opened Bits
  import opened JpegCode

  const FAST_BITS := 9

  function Repeated(v: nat, n: nat): (s: seq<nat>)
    ensures |s| == n && forall k :: 0 <= k < n ==> s[k] == v
  {
    seq(n, _ => v)
  }

  /** The sizes of the first symbols, from the numbers of symbols of sizes 1 to n (section C.2). */
  function SizeList(count: seq<nat>, n: nat): seq<nat>
    requires n <= |count|
  {
    if n == 0 then [] else SizeList(count, n - 1) + Repeated(n, count[n - 1])
  }

  lemma {:induction false} SizesListed(count: seq<nat>, n: nat)
    requires n <= |count| <= 16
    ensures Listed(SizeList(count, n)) && forall i :: 0 <= i < |SizeList(count, n)| ==> SizeList(count, n)[i] <= n
  {
    if n > 0 {
      SizesListed(count, n - 1);
    }
  }

  lemma {:induction false} SizesGrow(count: seq<nat>, m: nat, n: nat)
    requires m <= n <= |count|
    ensures |SizeList(count, m)| <= |SizeList(count, n)|
    decreases n
  {
    if m < n { SizesGrow(count, m, n - 1); }
  }

  /** Symbol i has a code of at most 9 bits that starts the window. */
  ghost predicate FastCovers(sizes: seq<nat>, i: nat, w: nat)
    requires i < |sizes| && Listed(sizes)
  {
    sizes[i] <= FAST_BITS && Covers(sizes, i, FAST_BITS, w)
  }

  /** The fast entry of a window when the first n symbols have been entered: 255 stands for none. */
  ghost predicate FastEntry(sizes: seq<nat>, n: nat, w: nat, f: nat)
    requires n <= |sizes| && Listed(sizes)
  {
    || (f < n && FastCovers(sizes, f, w))
    || (f == 255 && forall i :: 0 <= i < n ==> !FastCovers(sizes, i, w))
  }

  ghost predicate FastEntries(sizes: seq<nat>, n: nat, fast: seq<Byte>)
    requires n <= |sizes| && Listed(sizes)
  {
    |fast| == 512 && forall w :: 0 <= w < 512 ==> FastEntry(sizes, n, w, fast[w])
  }

  /** The limits for codes of j bits. */
  ghost predicate LimitsOf(sizes: seq<nat>, j: nat, maxcode: nat, delta: int)
    requires Listed(sizes) && 1 <= j <= 16
  {
    && maxcode == Next(sizes, Within(sizes, |sizes|, j), 16)
    && delta == Within(sizes, |sizes|, j - 1) - Next(sizes, Within(sizes, |sizes|, j - 1), j)
  }

  class Huffman {
    const fast: array<Byte>
    const code: array<nat>
    const values: array<Byte>
    const size: array<nat>
    const maxcode: array<nat>
    const delta: array<int>

    constructor ()
      ensures Shape() && fresh(fast) && fresh(code) && fresh(values) && fresh(size) && fresh(maxcode) && fresh(delta)
    {
      fast, code, values := new Byte[512], new nat[256], new Byte[256];
      size, maxcode, delta := new nat[257], new nat[18], new int[17];
    }

    ghost predicate Shape() {
      && Sizes()
      && code != size && code != maxcode && size != maxcode && fast != values
    }

    ghost predicate Sizes() {
      && fast.Length == 512 && code.Length == 256 && values.Length == 256
      && size.Length == 257 && maxcode.Length == 18 && delta.Length == 17
    }

    /** The size list, with the zero behind it. */
    ghost predicate Sized(sizes: seq<nat>)
      reads size
    {
      Sizes() && |sizes| <= 256 && Listed(sizes) && size[..|sizes|] == sizes && size[|sizes|] == 0
    }

    ghost predicate Limits(sizes: seq<nat>, m: nat)
      requires Sizes() && m <= 17 && Listed(sizes)
      reads maxcode, delta
    {
      forall j {:trigger maxcode[j]} {:trigger delta[j]} :: 1 <= j < m ==> LimitsOf(sizes, j, maxcode[j], delta[j])
    }

    ghost predicate Codes(sizes: seq<nat>, n: nat)
      requires Sizes() && n <= |sizes| <= 256 && Listed(sizes)
      reads code
    {
      forall i :: 0 <= i < n ==> code[i] == Code(sizes, i) % 0x10000
    }

    /** The tables decode the code of the size list. */
    ghost predicate Represents(sizes: seq<nat>)
      reads fast, code, size, maxcode, delta
    {
      && Sized(sizes) && Fits(sizes)
      && Codes(sizes, |sizes|) && Limits(sizes, 17) && maxcode[17] == 0xffff_ffff &&
           FastEntries(sizes, |sizes|, fast[..])
    }

    /** `stbi__build_huffman`: the table is accepted exactly when every code fits in its number of bits. */
    method Build(count: seq<nat>) returns (ok: bool)
      requires Shape() && |count| == 16 && |SizeList(count, 16)| <= 256
      modifies fast, code, size, maxcode, delta
      ensures Listed(SizeList(count, 16))
      ensures ok <==> Fits(SizeList(count, 16))
      ensures ok ==> Represents(SizeList(count, 16))
    {
      hide Fits, Codes, Limits, FastEntries;
      SizesListed(count, 16);
      SetSizes(count);
      var k;
      ok, k := SetCodes(SizeList(count, 16));
      if ok {
        SetFast(SizeList(count, 16), k);
      }
    }

    method SetSizes(count: seq<nat>)
      requires Shape() && |count| == 16 && |SizeList(count, 16)| <= 256
      modifies size
      ensures Sized(SizeList(count, 16))
    {
      var k := 0;
      for i := 0 to 16
        invariant k == |SizeList(count, i)| <= 256 && size[..k] == SizeList(count, i)
      {
        SizesGrow(count, i + 1, 16);
        ghost var before := size[..k];
        for j := 0 to count[i]
          invariant k == |before| + j && |before| + count[i] <= 256 && size[..k] == before + Repeated(i + 1, j)
        {
          size[k] := i + 1;
          k := k + 1;
          assert size[..k] == before + Repeated(i + 1, j) + [i + 1];
        }
      }
      size[k] := 0;
      SizesListed(count, 16);
    }

    /** The codes of one size. */
    method SetCodesOfSize(ghost sizes: seq<nat>, j: nat, from: nat, first: nat) returns (k: nat, next: nat)
      requires Shape() && Sized(sizes) && 1 <= j <= 16 && from < |sizes| && size[from] == j && Codes(sizes, from)
      requires (from > 0 ==> sizes[from - 1] <= j) && first == Next(sizes, from, j)
      modifies code
      ensures from < k <= |sizes| && (forall i :: from <= i < k ==> sizes[i] == j) && (k < |sizes| ==> sizes[k] > j)
      ensures next == Next(sizes, k, j) && Codes(sizes, k)
    {
      hide Next, Code;
      k, next := from, first;
      while size[k] == j
        invariant from <= k <= |sizes| && (k > 0 ==> sizes[k - 1] <= j) && (forall i :: from <= i < k ==> sizes[i] == j)
        invariant next == Next(sizes, k, j) && Codes(sizes, k)
        invariant k == from ==> size[k] == j
        decreases |sizes| - k
      {
        assert size[..|sizes|][k] == sizes[k];
        OneSize(sizes, k, j);
        code[k] := next % 0x10000;
        k, next := k + 1, next + 1;
      }
      assert k < |sizes| ==> size[..|sizes|][k] == sizes[k];
    }

    /** The codes of size j, if there are any, and the check that they fit. */
    method SetSize(ghost sizes: seq<nat>, j: nat, m: nat, first: nat) returns (ok: bool, k: nat, next: nat)
      requires Shape() && Sized(sizes) && 1 <= j <= 16 && m == Within(sizes, |sizes|, j - 1)
      requires (m > 0 ==> sizes[m - 1] <= j) && first == Next(sizes, m, j) && Codes(sizes, m) && FitsBelow(sizes, m)
      modifies code
      ensures !ok ==> !Fits(sizes)
      ensures ok ==> k == Within(sizes, |sizes|, j) && next == Next(sizes, k, j) && (k > 0 ==> sizes[k - 1] <= j)
      ensures ok ==> Codes(sizes, k) && FitsBelow(sizes, k)
    {
      hide Next, Code, Within, FitsBelow, Codes, Fits, Pow2;
      k, next := m, first;
      AfterWithin(sizes, j - 1);
      assert k < |sizes| ==> size[..|sizes|][k] == sizes[k];
      if size[k] == j {
        k, next := SetCodesOfSize(sizes, j, k, next);
        LastOfSize(sizes, m, k, j);
        if next - 1 >= ShiftLeft(1, j) {
          return false, k, next;
        }
      }
      WithinIs(sizes, |sizes|, k, j);
      return true, k, next;
    }

    /** The loop over the sizes. */
    method SetCodes(ghost sizes: seq<nat>) returns (ok: bool, k: nat)
      requires Shape() && Sized(sizes)
      modifies code, maxcode, delta
      ensures ok <==> Fits(sizes)
      ensures ok ==> k == |sizes| && Codes(sizes, k) && Limits(sizes, 17) && maxcode[17] == 0xffff_ffff
    {
      hide Next, Code, Within, LimitsOf, FitsBelow, Codes;
      k := 0;
      var next := 0;
      CodesStart(sizes);
      NoCodes(sizes);
      for j := 1 to 17
        invariant k == Within(sizes, |sizes|, j - 1) && (k > 0 ==> sizes[k - 1] <= j) && next == Next(sizes, k, j)
        invariant Codes(sizes, k) && Limits(sizes, j) && FitsBelow(sizes, k)
      {
        delta[j] := k - next;
        ghost var m, first := k, next;
        ok, k, next := SetSize(sizes, j, k, next);
        if !ok {
          return;
        }
        NextShifted(sizes, k, j, 16 - j);
        maxcode[j] := ShiftLeft(next, 16 - j);
        LimitSet(sizes, j, m, first, k, next, maxcode[j]);
        NextDoubles(sizes, k, j);
        next := 2 * next;
      }
      maxcode[17] := 0xffff_ffff;
      AllWithin(sizes);
      return true, k;
    }

    /** The acceleration table. */
    method SetFast(ghost sizes: seq<nat>, k: nat)
      requires Shape() && Sized(sizes) && Fits(sizes) && k == |sizes| && Codes(sizes, k)
      modifies fast
      ensures FastEntries(sizes, k, fast[..])
    {
      hide Next, Code, Covers, FastEntries, Pow2;
      forall w | 0 <= w < 512 {
        fast[w] := 255;
      }
      NoneEntered(sizes, fast[..]);
      for i := 0 to k
        invariant FastEntries(sizes, i, fast[..])
      {
        assert size[..|sizes|][i] == sizes[i];
        var s := size[i];
        ghost var was := fast[..];
        if s <= FAST_BITS {
          CodeRange(sizes, i);
          var c := ShiftLeft(code[i], FAST_BITS - s);
          var m := ShiftLeft(1, FAST_BITS - s);
          for j := 0 to m
            invariant forall w :: 0 <= w < 512 ==> fast[w] == if c <= w < c + j then i else was[w]
          {
            fast[c + j] := i;
          }
        }
        SymbolEntered(sizes, i, was, fast[..]);
      }
    }

    lemma NoCodes(sizes: seq<nat>)
      requires Sized(sizes)
      ensures Codes(sizes, 0)
    {
    }
  }

  lemma CodesStart(sizes: seq<nat>)
    requires Listed(sizes)
    ensures Within(sizes, |sizes|, 0) == 0 && Next(sizes, 0, 1) == 0 && FitsBelow(sizes, 0)
  {
    WithinIs(sizes, |sizes|, 0, 0);
  }

  lemma OneSize(sizes: seq<nat>, k: nat, j: nat)
    requires k < |sizes| && Listed(sizes) && sizes[k] == j
    ensures (k > 0 ==> sizes[k - 1] <= j) && Code(sizes, k) == Next(sizes, k, j) &&
      Next(sizes, k + 1, j) == Next(sizes, k, j) + 1
  {
    assert Pow2(0) == 1;
  }

  lemma {:induction false} WithinIs(sizes: seq<nat>, n: nat, k: nat, j: nat)
    requires k <= n <= |sizes| && Listed(sizes) && (k > 0 ==> sizes[k - 1] <= j) && (k < |sizes| ==> sizes[k] > j)
    ensures Within(sizes, n, j) == k
  {
    if k < n {
      WithinIs(sizes, n - 1, k, j);
    }
  }

  lemma AfterWithin(sizes: seq<nat>, j: nat)
    requires Listed(sizes)
    ensures var k := Within(sizes, |sizes|, j); k < |sizes| ==> sizes[k] > j
  {
    var k := Within(sizes, |sizes|, j);
    if k < |sizes| { WithinExact(sizes, |sizes|, j, k); }
  }

  lemma AllWithin(sizes: seq<nat>)
    requires Listed(sizes)
    ensures Within(sizes, |sizes|, 16) == |sizes|
  {
    WithinIs(sizes, |sizes|, |sizes|, 16);
  }

  lemma LimitSet(sizes: seq<nat>, j: nat, m: nat, first: nat, k: nat, next: nat, limit: nat)
    requires Listed(sizes) && 1 <= j <= 16 && m == Within(sizes, |sizes|, j - 1) && k == Within(sizes, |sizes|, j)
    requires first == Next(sizes, m, j) && limit == Next(sizes, k, 16)
    ensures LimitsOf(sizes, j, limit, m - first)
  {
  }

  lemma NoneEntered(sizes: seq<nat>, fast: seq<Byte>)
    requires Listed(sizes) && |fast| == 512 && forall w :: 0 <= w < 512 ==> fast[w] == 255
    ensures FastEntries(sizes, 0, fast)
  {
  }

  /** The windows that start with the code of symbol i. */
  lemma CodeRange(sizes: seq<nat>, i: nat)
    requires i < |sizes| && Listed(sizes) && Fits(sizes) && sizes[i] <= FAST_BITS
    ensures Code(sizes, i) < 0x10000
    ensures ShiftLeft(Code(sizes, i), FAST_BITS - sizes[i]) + ShiftLeft(1, FAST_BITS - sizes[i]) ==
      Next(sizes, i + 1, FAST_BITS) <= 512
  {
    hide Next, Code;
    CoverStart(sizes, i, FAST_BITS);
    CoversEnd(sizes, i, FAST_BITS);
    Pow2Monotone(sizes[i], FAST_BITS);
    Pow2Values();
  }

  lemma SymbolEntered(sizes: seq<nat>, i: nat, was: seq<Byte>, now: seq<Byte>)
    requires i < |sizes| <= 256 && Listed(sizes) && FastEntries(sizes, i, was) && |now| == 512
    requires forall w :: 0 <= w < 512 ==> now[w] == if sizes[i] <= FAST_BITS &&
      ShiftLeft(Code(sizes, i), FAST_BITS - sizes[i]) <= w < Next(sizes, i + 1, FAST_BITS) then i else was[w]
    ensures FastEntries(sizes, i + 1, now)
  {
    hide Next, Code, Pow2;
    forall w | 0 <= w < 512 ensures FastEntry(sizes, i + 1, w, now[w]) {
      assert FastEntry(sizes, i, w, was[w]);
    }
  }

  /** The check after the codes of size j: only the last of them is looked at. */
  lemma LastOfSize(sizes: seq<nat>, m: nat, k: nat, j: nat)
    requires m < k <= |sizes| && Listed(sizes) && (forall i :: m <= i < k ==> sizes[i] == j) && FitsBelow(sizes, m)
    ensures Next(sizes, k, j) > 0
    ensures Next(sizes, k, j) - 1 < Pow2(j) ==> FitsBelow(sizes, k)
    ensures Next(sizes, k, j) - 1 >= Pow2(j) ==> !Fits(sizes)
  {
    hide Next, Code;
    OneSize(sizes, k - 1, j);
    forall i | m <= i < k ensures Code(sizes, i) < Next(sizes, k, j) {
      OneSize(sizes, i, j);
      CoversAscend(sizes, i + 1, k, j);
    }
  }
}
