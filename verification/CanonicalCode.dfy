/** The canonical Huffman code of a list of code lengths (section 3.2.2 of RFC 1951). */
module CanonicalCode {
  import opened Arithmetic
  import opened Bits

  /** Code lengths; 0 means that the symbol is not used. */
  type Lengths = s: seq<nat> | forall i :: 0 <= i < |s| ==> s[i] <= 15

  /** How many of the first n symbols have codes of length s. */
  function CountUpTo(lens: Lengths, n: nat, s: nat): (c: nat)
    requires n <= |lens|
    ensures c <= n
  {
    if n == 0 then 0 else CountUpTo(lens, n - 1, s) + (if lens[n - 1] == s then 1 else 0)
  }

  function Count(lens: Lengths, s: nat): nat {
    CountUpTo(lens, |lens|, s)
  }

  /** The first code of length s, step 2 of section 3.2.2. */
  function FirstCode(lens: Lengths, s: nat): nat {
    if s <= 1 then 0 else 2 * (FirstCode(lens, s - 1) + Count(lens, s - 1))
  }

  /** One more than the last code of length s. */
  function EndCode(lens: Lengths, s: nat): nat {
    FirstCode(lens, s) + Count(lens, s)
  }

  /** The number of used symbols with codes shorter than s. */
  function FirstSymbol(lens: Lengths, s: nat): nat {
    if s <= 1 then 0 else FirstSymbol(lens, s - 1) + Count(lens, s - 1)
  }

  /** The codes of every length fit in that many bits: the Kraft bound, length by length. */
  ghost predicate Accepted(lens: Lengths) {
    AcceptedBelow(lens, 16)
  }

  ghost predicate AcceptedBelow(lens: Lengths, m: nat) {
    forall s {:trigger EndCode(lens, s)} :: 1 <= s < m ==> EndCode(lens, s) <= Pow2(s)
  }

  /** Step 3 of section 3.2.2: symbols of one length get consecutive codes, in symbol order. */
  function CodeValue(lens: Lengths, i: nat): nat
    requires i < |lens|
  {
    FirstCode(lens, lens[i]) + CountUpTo(lens, i, lens[i])
  }

  /** The code of symbol i as it appears in the stream, its most significant bit first. */
  function Code(lens: Lengths, i: nat): (c: seq<bool>)
    requires i < |lens|
    ensures |c| == lens[i]
  {
    High(CodeValue(lens, i), lens[i])
  }

  /** Symbol i is used, and its code starts the bits x. */
  predicate Starts(lens: Lengths, i: nat, x: seq<bool>)
    requires i < |lens|
  {
    lens[i] > 0 && Code(lens, i) <= x
  }

  /** The first s bits of x as a number, the first bit most significant. */
  function Front(x: seq<bool>, s: nat): nat
    requires s <= |x|
  {
    if s == 0 then 0 else 2 * Front(x, s - 1) + (if x[s - 1] then 1 else 0)
  }

  // ---------- Counting ----------

  lemma {:induction false} CountMonotone(lens: Lengths, m: nat, n: nat, s: nat)
    requires m <= n <= |lens|
    ensures CountUpTo(lens, m, s) <= CountUpTo(lens, n, s)
    decreases n
  {
    if m < n { CountMonotone(lens, m, n - 1, s); }
  }

  lemma RankBelowCount(lens: Lengths, i: nat)
    requires i < |lens|
    ensures CountUpTo(lens, i, lens[i]) < Count(lens, lens[i])
  {
    CountMonotone(lens, i + 1, |lens|, lens[i]);
  }

  lemma {:induction false} RankGrows(lens: Lengths, i: nat, j: nat)
    requires i < |lens| && j <= |lens|
    ensures i < j ==> CountUpTo(lens, i, lens[i]) < CountUpTo(lens, j, lens[i])
    decreases j
  {
    if i + 1 < j { RankGrows(lens, i, j - 1); }
  }

  lemma RankInjective(lens: Lengths, i: nat, j: nat)
    requires i < |lens| && j < |lens| && lens[i] == lens[j]
    requires CountUpTo(lens, i, lens[i]) == CountUpTo(lens, j, lens[j])
    ensures i == j
  {
    RankGrows(lens, i, j);
    RankGrows(lens, j, i);
  }

  /** The symbol of length s and rank r. */
  lemma {:induction false} SymbolAt(lens: Lengths, n: nat, s: nat, r: nat) returns (i: nat)
    requires n <= |lens| && r < CountUpTo(lens, n, s)
    ensures i < n && lens[i] == s && CountUpTo(lens, i, s) == r
  {
    if lens[n - 1] == s && CountUpTo(lens, n - 1, s) == r {
      i := n - 1;
    } else {
      i := SymbolAt(lens, n - 1, s, r);
    }
  }

  lemma {:induction false} FirstSymbolMonotone(lens: Lengths, s: nat, t: nat)
    requires 1 <= s < t
    ensures FirstSymbol(lens, s) + Count(lens, s) <= FirstSymbol(lens, t)
    decreases t
  {
    if s + 1 < t { FirstSymbolMonotone(lens, s, t - 1); }
  }

  /** The table index of a used symbol. */
  function Index(lens: Lengths, i: nat): nat
    requires i < |lens|
  {
    FirstSymbol(lens, lens[i]) + CountUpTo(lens, i, lens[i])
  }

  lemma IndexInjective(lens: Lengths, i: nat, j: nat)
    requires i < |lens| && j < |lens| && lens[i] > 0 && lens[j] > 0
    ensures Index(lens, i) == Index(lens, j) ==> i == j
  {
    RankBelowCount(lens, i);
    RankBelowCount(lens, j);
    if lens[i] < lens[j] {
      FirstSymbolMonotone(lens, lens[i], lens[j]);
    } else if lens[j] < lens[i] {
      FirstSymbolMonotone(lens, lens[j], lens[i]);
    } else if Index(lens, i) == Index(lens, j) {
      RankInjective(lens, i, j);
    }
  }

  /** Every table index is below the number of symbols. */
  lemma IndexBound(lens: Lengths, i: nat)
    requires i < |lens| && lens[i] > 0
    ensures Index(lens, i) < |lens|
  {
    RankBelowCount(lens, i);
    FirstSymbolMonotone(lens, lens[i], 16);
    UsedSymbols(lens, |lens|, 16);
  }

  function FirstSymbolUpTo(lens: Lengths, n: nat, s: nat): nat
    requires n <= |lens|
  {
    if s <= 1 then 0 else FirstSymbolUpTo(lens, n, s - 1) + CountUpTo(lens, n, s - 1)
  }

  lemma {:induction false} UsedSymbols(lens: Lengths, n: nat, s: nat)
    requires n <= |lens|
    ensures FirstSymbolUpTo(lens, n, s) <= n
    ensures n == |lens| ==> FirstSymbolUpTo(lens, n, s) == FirstSymbol(lens, s)
    decreases n, s
  {
    if n > 0 {
      UsedSymbols(lens, n - 1, s);
      OneMore(lens, n - 1, s);
    } else {
      NoneUsed(lens, s);
    }
    if n == |lens| { AllUsed(lens, s); }
  }

  lemma {:induction false} NoneUsed(lens: Lengths, s: nat)
    ensures FirstSymbolUpTo(lens, 0, s) == 0
  {
    if s > 1 { NoneUsed(lens, s - 1); }
  }

  lemma {:induction false} AllUsed(lens: Lengths, s: nat)
    ensures FirstSymbolUpTo(lens, |lens|, s) == FirstSymbol(lens, s)
  {
    if s > 1 { AllUsed(lens, s - 1); }
  }

  lemma {:induction false} OneMore(lens: Lengths, n: nat, s: nat)
    requires n < |lens|
    ensures FirstSymbolUpTo(lens, n + 1, s) == FirstSymbolUpTo(lens, n, s) + (if 1 <= lens[n] < s then 1 else 0)
  {
    if s > 1 { OneMore(lens, n, s - 1); }
  }

  // ---------- The Kraft inequality ----------

  /** The shares of the first n symbols of all sequences of 15 bits: 2^-length each, in units of 2^-15. */
  function KraftSum(lens: Lengths, n: nat): nat
    requires n <= |lens|
  {
    if n == 0 then 0 else KraftSum(lens, n - 1) + (if lens[n - 1] == 0 then 0 else Pow2(15 - lens[n - 1]))
  }

  /** The end of the codes of length s if there were only the first n symbols. */
  function EndUpTo(lens: Lengths, n: nat, s: nat): nat
    requires n <= |lens|
  {
    CountUpTo(lens, n, s) + if s <= 1 then 0 else 2 * EndUpTo(lens, n, s - 1)
  }

  lemma {:induction false} EndOfAll(lens: Lengths, s: nat)
    requires s >= 1
    ensures EndUpTo(lens, |lens|, s) == EndCode(lens, s)
  {
    if s > 1 { EndOfAll(lens, s - 1); }
  }

  lemma {:induction false} NextShare(lens: Lengths, n: nat, s: nat)
    requires n < |lens| && s >= 1
    ensures EndUpTo(lens, n + 1, s) == EndUpTo(lens, n, s) + (if 1 <= lens[n] <= s then Pow2(s - lens[n]) else 0)
  {
    if s > 1 { NextShare(lens, n, s - 1); }
  }

  lemma {:induction false} Shares(lens: Lengths, n: nat)
    requires n <= |lens|
    ensures EndUpTo(lens, n, 15) == KraftSum(lens, n)
  {
    if n > 0 {
      Shares(lens, n - 1);
      NextShare(lens, n - 1, 15);
    } else {
      NoShares(lens, 15);
    }
  }

  lemma {:induction false} NoShares(lens: Lengths, s: nat)
    requires s >= 1
    ensures EndUpTo(lens, 0, s) == 0
  {
    if s > 1 { NoShares(lens, s - 1); }
  }

  lemma {:induction false} EndGrows(lens: Lengths, s: nat, t: nat)
    requires 1 <= s <= t && EndCode(lens, t) <= Pow2(t)
    ensures EndCode(lens, s) <= Pow2(s)
    decreases t
  {
    if s < t {
      assert EndCode(lens, t) >= 2 * EndCode(lens, t - 1);
      EndGrows(lens, s, t - 1);
    }
  }

  /** Length lists are accepted exactly when they satisfy the Kraft inequality. */
  lemma Kraft(lens: Lengths)
    ensures Accepted(lens) <==> KraftSum(lens, |lens|) <= Pow2(15)
  {
    EndOfAll(lens, 15);
    Shares(lens, |lens|);
    assert EndCode(lens, 15) == KraftSum(lens, |lens|);
    if EndCode(lens, 15) <= Pow2(15) {
      forall s {:trigger EndCode(lens, s)} | 1 <= s < 16 ensures EndCode(lens, s) <= Pow2(s) {
        EndGrows(lens, s, 15);
      }
    }
  }

  // ---------- Decoding ----------

  lemma {:induction false} FrontIsReverse(x: seq<bool>, s: nat)
    requires s <= |x|
    ensures Front(x, s) < Pow2(s)
    ensures High(Front(x, s), s) == x[..s]
    decreases s
  {
    if s > 0 {
      FrontIsReverse(x, s - 1);
      var v, f := Front(x, s), Front(x, s - 1);
      assert v / 2 == f && v % 2 == (if x[s - 1] then 1 else 0);
      assert Low(v, s) == [x[s - 1]] + Low(f, s - 1);
      assert Reverse(Low(v, s)) == Reverse(Low(f, s - 1)) + [x[s - 1]];
    }
  }

  /** A code starts the bits x exactly when the first bits of x, read as a number, are its value. */
  lemma StartsIsFront(lens: Lengths, i: nat, x: seq<bool>)
    requires i < |lens| && Accepted(lens) && lens[i] > 0
    ensures Starts(lens, i, x) <==> lens[i] <= |x| && Front(x, lens[i]) == CodeValue(lens, i)
  {
    var s := lens[i];
    RankBelowCount(lens, i);
    assert EndCode(lens, s) <= Pow2(s);
    if s <= |x| {
      FrontIsReverse(x, s);
      if High(CodeValue(lens, i), s) == x[..s] {
        HighInjective(CodeValue(lens, i), Front(x, s), s);
      }
    }
  }

  lemma HighInjective(a: nat, b: nat, k: nat)
    requires a < Pow2(k) && b < Pow2(k) && High(a, k) == High(b, k)
    ensures a == b
  {
    forall i | 0 <= i < k ensures Low(a, k)[i] == Low(b, k)[i] {
      assert High(a, k)[k - 1 - i] == Low(a, k)[i] && High(b, k)[k - 1 - i] == Low(b, k)[i];
    }
    LowInjective(a, b, k);
  }

  /** Once the bits read are below the end of the codes of that length, they stay below the first code of every greater
      length. */
  lemma {:induction false} StaysBelow(lens: Lengths, x: seq<bool>, s: nat, t: nat)
    requires 1 <= s < t <= |x| && Front(x, s) < EndCode(lens, s)
    ensures Front(x, t) < FirstCode(lens, t)
    decreases t
  {
    if s + 1 < t { StaysBelow(lens, x, s, t - 1); }
  }

  /** While the bits read are not below the end of the codes of that length, they are at least the first code of the
      next. */
  lemma {:induction false} StaysAbove(lens: Lengths, x: seq<bool>, s: nat)
    requires 1 <= s <= |x|
    requires forall t :: 1 <= t < s ==> Front(x, t) >= EndCode(lens, t)
    ensures Front(x, s) >= FirstCode(lens, s)
  {
    if s > 1 {
      assert Front(x, s - 1) >= EndCode(lens, s - 1);
    }
  }

  /** The codes are prefix-free: at most one of them starts a given sequence of bits. */
  lemma UniqueStart(lens: Lengths, i: nat, j: nat, x: seq<bool>)
    requires Accepted(lens) && i < |lens| && j < |lens|
    requires Starts(lens, i, x) && Starts(lens, j, x)
    ensures i == j
  {
    StartsIsFront(lens, i, x);
    StartsIsFront(lens, j, x);
    RankBelowCount(lens, i);
    RankBelowCount(lens, j);
    if lens[i] < lens[j] {
      StaysBelow(lens, x, lens[i], lens[j]);
    } else if lens[j] < lens[i] {
      StaysBelow(lens, x, lens[j], lens[i]);
    } else {
      RankInjective(lens, i, j);
    }
  }

  /** Some code of length s starts x exactly when the first s bits of x lie between the first code and the end. */
  lemma StartOfLength(lens: Lengths, x: seq<bool>, s: nat) returns (i: nat)
    requires Accepted(lens) && 1 <= s <= 15 && s <= |x|
    requires FirstCode(lens, s) <= Front(x, s) < EndCode(lens, s)
    ensures i < |lens| && lens[i] == s && Starts(lens, i, x)
    ensures Index(lens, i) == FirstSymbol(lens, s) + Front(x, s) - FirstCode(lens, s)
  {
    i := SymbolAt(lens, |lens|, s, Front(x, s) - FirstCode(lens, s));
    StartsIsFront(lens, i, x);
  }

  /** A code no longer than m starts x exactly when the first m bits of x are below the end of the codes of length m. */
  lemma {:induction false} StartWithin(lens: Lengths, x: seq<bool>, m: nat)
    requires Accepted(lens) && 1 <= m <= 15 && m <= |x|
    ensures Front(x, m) < EndCode(lens, m) <==> exists i :: 0 <= i < |lens| && lens[i] <= m && Starts(lens, i, x)
  {
    if Front(x, m) < EndCode(lens, m) {
      var i := Shortest(lens, x, m);
    }
    if i :| 0 <= i < |lens| && lens[i] <= m && Starts(lens, i, x) {
      StartsIsFront(lens, i, x);
      RankBelowCount(lens, i);
      if lens[i] < m { StaysBelow(lens, x, lens[i], m); }
    }
  }

  lemma {:induction false} Shortest(lens: Lengths, x: seq<bool>, m: nat) returns (i: nat)
    requires Accepted(lens) && 1 <= m <= 15 && m <= |x| && Front(x, m) < EndCode(lens, m)
    ensures i < |lens| && lens[i] <= m && Starts(lens, i, x)
    decreases m
  {
    if m > 1 && Front(x, m - 1) < EndCode(lens, m - 1) {
      i := Shortest(lens, x, m - 1);
    } else {
      i := StartOfLength(lens, x, m);
    }
  }
}
