/** The decoding tables of `stbi__zhuffman`: a fast table for codes of at most 9 bits and preshifted
    limits for the longer ones. */
module ZHuffman {
  import opened Arithmetic
  import opened Bits
  import opened CanonicalCode
  import opened BitReverse

  const FAST_BITS := 9

  /** The entry of the fast table for window j, when the first n symbols have been entered. */
  ghost predicate FastEntry(lens: Lengths, n: nat, j: nat, v: nat)
    requires n <= |lens|
  {
    if v == 0 then forall i :: 0 <= i < n ==> !FastStarts(lens, i, j)
    else exists i :: 0 <= i < n && FastStarts(lens, i, j) && v == lens[i] * 512 + i
  }

  ghost predicate FastEntries(lens: Lengths, n: nat, fast: seq<nat>)
    requires n <= |lens| && |fast| == 512
  {
    forall j :: 0 <= j < 512 ==> FastEntry(lens, n, j, fast[j])
  }

  /** Symbol i has a code of at most 9 bits, which starts the 9 bits of j. */
  ghost predicate FastStarts(lens: Lengths, i: nat, j: nat)
    requires i < |lens|
  {
    lens[i] <= FAST_BITS && Starts(lens, i, Low(j, FAST_BITS))
  }

  /** What the tables hold for the codes of length s. */
  ghost predicate LimitsOf(lens: Lengths, s: nat, first: nat, symbol: nat, end: nat)
    requires s <= 16
  {
    first == FirstCode(lens, s) && symbol == FirstSymbol(lens, s) && end == ShiftLeft(EndCode(lens, s), 16 - s)
  }

  class Table {
    const fast: array<nat>
    const firstCode: array<nat>
    const maxCode: array<nat>
    const firstSymbol: array<nat>
    const size: array<nat>
    const value: array<nat>
    ghost const Repr: set<object>

    constructor ()
      ensures Shape() && fresh(Repr)
    {
      fast, firstCode, maxCode := new nat[512], new nat[16], new nat[17];
      firstSymbol, size, value := new nat[16], new nat[288], new nat[288];
      Repr := {fast, firstCode, maxCode, firstSymbol, size, value};
    }

    ghost predicate Shape() {
      && Sizes() && Repr == {fast, firstCode, maxCode, firstSymbol, size, value}
      && fast != firstCode && fast != maxCode && fast != firstSymbol && fast != size && fast != value
      && firstCode != maxCode && firstCode != firstSymbol && firstCode != size && firstCode != value
      && maxCode != firstSymbol && maxCode != size && maxCode != value
      && firstSymbol != size && firstSymbol != value && size != value
    }

    ghost predicate Sizes() {
      && fast.Length == 512 && firstCode.Length == 16 && maxCode.Length == 17
      && firstSymbol.Length == 16 && size.Length == 288 && value.Length == 288
    }

    /** The limits for codes of each length below m. */
    ghost predicate Limits(lens: Lengths, m: nat)
      requires Sizes() && m <= 16
      reads firstCode, maxCode, firstSymbol
    {
      forall s {:trigger firstCode[s]} {:trigger maxCode[s]} {:trigger firstSymbol[s]} :: 1 <= s < m ==>
        LimitsOf(lens, s, firstCode[s], firstSymbol[s], maxCode[s])
    }

    /** The first n symbols are in the symbol tables. */
    ghost predicate Symbols(lens: Lengths, n: nat)
      requires Sizes() && n <= |lens| <= 288
      reads size, value
    {
      forall i :: 0 <= i < n && lens[i] > 0 ==>
        Index(lens, i) < 288 && size[Index(lens, i)] == lens[i] && value[Index(lens, i)] == i
    }

    ghost predicate Fast(lens: Lengths, n: nat)
      requires Sizes() && n <= |lens|
      reads fast
    {
      FastEntries(lens, n, fast[..])
    }

    /** The tables decode the canonical code of lens. */
    ghost predicate Represents(lens: Lengths)
      reads fast, firstCode, maxCode, firstSymbol, size, value
    {
      && Sizes() && Accepted(lens) && |lens| <= 288
      && Limits(lens, 16) && maxCode[16] == 0x10000 && Symbols(lens, |lens|) && Fast(lens, |lens|)
    }

    /** `stbi__zbuild_huffman`: accepts a list of code lengths exactly when the Kraft bound holds at every length. */
    method Build(lens: Lengths) returns (ok: bool)
      requires Shape() && |lens| <= 288
      modifies Repr
      ensures ok <==> Accepted(lens)
      ensures ok ==> Represents(lens)
    {
      var sizes := CountSizes(lens);
      ok := SizesFit(lens, sizes);
      if !ok {
        return;
      }
      var nextCode := new nat[16];
      ok := SetLimits(lens, sizes, nextCode);
      if !ok {
        return;
      }
      maxCode[16] := 0x10000;
      SetSymbols(lens, nextCode);
    }

    static method CountSizes(lens: Lengths) returns (sizes: array<nat>)
      ensures fresh(sizes) && sizes.Length == 17
      ensures sizes[0] == 0 && forall s {:trigger sizes[s]} :: 1 <= s <= 15 ==> sizes[s] == Count(lens, s)
    {
      sizes := new nat[17](_ => 0);
      for i := 0 to |lens|
        invariant forall s {:trigger sizes[s]} :: 0 <= s <= 15 ==> sizes[s] == CountUpTo(lens, i, s)
      {
        sizes[lens[i]] := sizes[lens[i]] + 1;
      }
      sizes[0] := 0;
    }

    static method SizesFit(lens: Lengths, sizes: array<nat>) returns (ok: bool)
      requires sizes.Length == 17 && forall s {:trigger sizes[s]} :: 1 <= s <= 15 ==> sizes[s] == Count(lens, s)
      ensures ok ==> forall s {:trigger Count(lens, s)} :: 1 <= s <= 15 ==> Count(lens, s) <= Pow2(s)
      ensures !ok ==> !Accepted(lens)
    {
      for i := 1 to 16
        invariant forall s {:trigger Count(lens, s)} :: 1 <= s < i ==> Count(lens, s) <= Pow2(s)
      {
        if sizes[i] > ShiftLeft(1, i) {
          assert EndCode(lens, i) > Pow2(i);
          return false;
        }
      }
      return true;
    }

    method SetLimits(lens: Lengths, sizes: array<nat>, nextCode: array<nat>) returns (ok: bool)
      requires Shape() && |lens| <= 288 && sizes.Length == 17 && nextCode.Length == 16
      requires sizes !in {firstCode, maxCode, firstSymbol, nextCode} && nextCode !in {firstCode, maxCode, firstSymbol}
      requires forall s {:trigger sizes[s]} :: 1 <= s <= 15 ==> sizes[s] == Count(lens, s)
      modifies firstCode, maxCode, firstSymbol, nextCode
      ensures ok <==> Accepted(lens)
      ensures ok ==>
        Limits(lens, 16) && forall s {:trigger nextCode[s]} :: 1 <= s <= 15 ==> nextCode[s] == FirstCode(lens, s)
    {
      hide FirstCode, FirstSymbol, ShiftLeft, Pow2, Count, AcceptedBelow;
      LimitStart(lens);
      var code, k := 0, 0;
      for i := 1 to 16
        invariant code == FirstCode(lens, i) && k == FirstSymbol(lens, i)
        invariant Limits(lens, i)
        invariant forall s {:trigger nextCode[s]} :: 1 <= s < i ==> nextCode[s] == FirstCode(lens, s)
        invariant AcceptedBelow(lens, i)
      {
        LimitStep(lens, i);
        nextCode[i] := code;
        firstCode[i] := code % 0x10000;
        firstSymbol[i] := k % 0x10000;
        code := code + sizes[i];
        if sizes[i] > 0 {
          if code - 1 >= ShiftLeft(1, i) {
            return false;
          }
        }
        maxCode[i] := ShiftLeft(code, 16 - i);
        assert LimitsOf(lens, i, firstCode[i], firstSymbol[i], maxCode[i]);
        code := ShiftLeft(code, 1);
        k := k + sizes[i];
      }
      return true;
    }

    method SetSymbols(lens: Lengths, nextCode: array<nat>)
      requires Shape() && Accepted(lens) && |lens| <= 288 && Limits(lens, 16)
      requires nextCode.Length == 16 && nextCode !in Repr
      requires forall s {:trigger nextCode[s]} :: 1 <= s <= 15 ==> nextCode[s] == FirstCode(lens, s)
      modifies fast, size, value, nextCode
      ensures Symbols(lens, |lens|) && Fast(lens, |lens|)
    {
      hide FirstCode, FirstSymbol, Accepted, FastEntries;
      forall j | 0 <= j < 512 {
        fast[j] := 0;
      }
      NothingEntered(lens, fast[..]);
      for i := 0 to |lens|
        invariant forall s {:trigger nextCode[s]} :: 1 <= s <= 15 ==>
          nextCode[s] == FirstCode(lens, s) + CountUpTo(lens, i, s)
        invariant Symbols(lens, i) && Fast(lens, i)
      {
        var s := lens[i];
        NotEntered(lens, i, fast[..]);
        if s > 0 {
          var c := nextCode[s] - firstCode[s] + firstSymbol[s];
          IndexBound(lens, i);
          SetSymbol(lens, i, c);
          if s <= FAST_BITS {
            SetFast(lens, i, nextCode[s]);
          }
          nextCode[s] := nextCode[s] + 1;
        }
      }
    }

    method SetSymbol(lens: Lengths, i: nat, c: nat)
      requires Shape() && i < |lens| <= 288 && lens[i] > 0 && c == Index(lens, i) < 288 && Symbols(lens, i)
      modifies size, value
      ensures Symbols(lens, i + 1)
    {
      hide Index;
      size[c] := lens[i];
      value[c] := i;
      forall j | 0 <= j < i && lens[j] > 0 ensures Index(lens, j) != c {
        IndexInjective(lens, i, j);
      }
    }

    /** Enters symbol i for every window that its code starts. */
    method SetFast(lens: Lengths, i: nat, code: nat)
      requires Shape() && Accepted(lens) && i < |lens| <= 288 && 0 < lens[i] <= FAST_BITS && code == CodeValue(lens, i)
      requires Fast(lens, i)
      modifies fast
      ensures Fast(lens, i + 1)
    {
      hide FastEntry, ReverseBits, CodeValue, Accepted;
      var s := lens[i];
      var entry := (s * 512 + i) % 0x10000;
      var j := ReverseBits(code, s);
      ghost var was, r, p := fast[..], j, ShiftLeft(1, s);
      ReversedCode(code, s);
      NoneReached(j, p);
      while j < 512
        invariant j % p == r
        invariant forall m :: 0 <= m < 512 ==> fast[m] == if Reached(m, j, r, p) then entry else was[m]
      {
        fast[j] := entry;
        NextMultiple(j, r, p);
        j := j + ShiftLeft(1, s);
      }
      EnterSymbol(lens, i, was, fast[..]);
    }
  }

  /** The windows below j that the loop has filled: those congruent to r. */
  predicate Reached(m: nat, j: nat, r: nat, p: nat)
    requires p > 0
  {
    m < j && m % p == r
  }

  lemma EnterSymbol(lens: Lengths, i: nat, was: seq<nat>, now: seq<nat>)
    requires Accepted(lens) && i < |lens| <= 288 && 0 < lens[i] <= FAST_BITS && |was| == |now| == 512
    requires FastEntries(lens, i, was)
    requires forall j :: 0 <= j < 512 ==>
      now[j] == if j % Pow2(lens[i]) == ReverseBits(CodeValue(lens, i), lens[i]) then lens[i] * 512 + i else was[j]
    ensures FastEntries(lens, i + 1, now)
  {
    forall j | 0 <= j < 512 ensures FastEntry(lens, i + 1, j, now[j]) {
      assert FastEntry(lens, i, j, was[j]);
      StartsWindow(lens, i, j);
    }
  }

  /** A symbol without a short code does not concern the fast table. */
  lemma NotEntered(lens: Lengths, i: nat, fast: seq<nat>)
    requires i < |lens| && |fast| == 512 && FastEntries(lens, i, fast)
    ensures lens[i] == 0 || lens[i] > FAST_BITS ==> FastEntries(lens, i + 1, fast)
  {
    forall j | 0 <= j < 512 ensures lens[i] == 0 || lens[i] > FAST_BITS ==> FastEntry(lens, i + 1, j, fast[j]) {
      assert FastEntry(lens, i, j, fast[j]);
    }
  }

  lemma LimitStart(lens: Lengths)
    ensures FirstCode(lens, 1) == FirstSymbol(lens, 1) == 0 && AcceptedBelow(lens, 1)
  {
  }

  lemma NothingEntered(lens: Lengths, fast: seq<nat>)
    requires |fast| == 512 && forall j :: 0 <= j < 512 ==> fast[j] == 0
    ensures FastEntries(lens, 0, fast)
  {
  }

  /** One round of the loop over the lengths: nothing is truncated, and a length without codes cannot overflow. */
  lemma LimitStep(lens: Lengths, s: nat)
    requires 1 <= s <= 15 && |lens| <= 288
    requires AcceptedBelow(lens, s)
    ensures FirstCode(lens, s) < 0x10000 && FirstSymbol(lens, s) < 0x10000
    ensures Count(lens, s) > 0 && EndCode(lens, s) - 1 >= ShiftLeft(1, s) ==> !Accepted(lens)
    ensures !(Count(lens, s) > 0 && EndCode(lens, s) - 1 >= ShiftLeft(1, s)) ==> AcceptedBelow(lens, s + 1)
    ensures ShiftLeft(EndCode(lens, s), 1) == FirstCode(lens, s + 1)
    ensures FirstSymbol(lens, s) + Count(lens, s) == FirstSymbol(lens, s + 1)
  {
    assert s > 1 ==> EndCode(lens, s - 1) <= Pow2(s - 1);
    Pow2Monotone(s, 15);
    Pow2Values();
    UsedSymbols(lens, |lens|, s);
    assert EndCode(lens, s) == FirstCode(lens, s) + Count(lens, s);
  }

  lemma NextMultiple(j: nat, r: nat, p: nat)
    requires p > 0 && j % p == r
    ensures (j + p) % p == r
    ensures forall m :: Reached(m, j + p, r, p) <==> Reached(m, j, r, p) || m == j
  {
    assert (j / p + 1) * p + r == j + p;
    Digits(j / p + 1, r, p);
    forall m: nat ensures Reached(m, j + p, r, p) <==> Reached(m, j, r, p) || m == j {
      if j < m < j + p { Incongruent(j, m, p); }
    }
  }

  lemma Incongruent(j: nat, m: nat, p: nat)
    requires j < m < j + p
    ensures m % p != j % p
  {
    var a, b := m / p, j / p;
    assert m == a * p + m % p && j == b * p + j % p;
    if m % p == j % p {
      assert (a - b) * p == a * p - b * p;
      SmallMultiple(a - b, p);
    }
  }

  lemma NoneReached(r: nat, p: nat)
    requires r < p
    ensures r % p == r && forall m :: !Reached(m, r, r, p)
  {
    Digits(0, r, p);
    forall m: nat | m < r ensures m % p == m {
      Digits(0, m, p);
    }
  }

  /** The windows that a code of at most 9 bits starts are those whose low bits are the reversed code. */
  lemma StartsWindow(lens: Lengths, i: nat, j: nat)
    requires Accepted(lens) && i < |lens| && 0 < lens[i] <= FAST_BITS
    ensures FastStarts(lens, i, j) <==> j % Pow2(lens[i]) == ReverseBits(CodeValue(lens, i), lens[i])
  {
    var s, r := lens[i], ReverseBits(CodeValue(lens, i), lens[i]);
    ReversedCode(CodeValue(lens, i), s);
    LowSplit(j, s, FAST_BITS - s);
    assert Low(j, FAST_BITS)[..s] == Low(Mask(j, s), s);
    if Low(r, s) == Low(Mask(j, s), s) {
      LowInjective(r, Mask(j, s), s);
    }
  }
}
