/** The Huffman codes of JPEG (Annex C of ITU-T T.81), for a list of code sizes in the order of the symbols. */
module JpegCode {
  import opened Arithmetic
  import opened Bits
  import opened CanonicalCode

  /** HUFFSIZE: sizes from 1 to 16, in ascending order. */
  ghost predicate Listed(sizes: seq<nat>) {
    && (forall i :: 0 <= i < |sizes| ==> 1 <= sizes[i] <= 16)
    && forall i, j :: 0 <= i <= j < |sizes| ==> sizes[i] <= sizes[j]
  }

  /** The code after those of the first k symbols, for a size j that is not below theirs (section C.2). */
  ghost function Next(sizes: seq<nat>, k: nat, j: nat): nat
    requires k <= |sizes| && Listed(sizes) && (k > 0 ==> sizes[k - 1] <= j)
    decreases k, 0
  {
    if k == 0 then 0 else (Code(sizes, k - 1) + 1) * Pow2(j - sizes[k - 1])
  }

  /** HUFFCODE: the code of a symbol as a number of sizes[i] bits. */
  ghost function Code(sizes: seq<nat>, i: nat): nat
    requires i < |sizes| && Listed(sizes)
    decreases i, 1
  {
    Next(sizes, i, sizes[i])
  }

  /** Every code fits in its number of bits. */
  ghost predicate Fits(sizes: seq<nat>)
    requires Listed(sizes)
  {
    FitsBelow(sizes, |sizes|)
  }

  ghost predicate FitsBelow(sizes: seq<nat>, n: nat)
    requires Listed(sizes) && n <= |sizes|
  {
    forall i :: 0 <= i < n ==> Code(sizes, i) < Pow2(sizes[i])
  }

  /** The number v of n bits starts with the code of symbol i. */
  ghost predicate Covers(sizes: seq<nat>, i: nat, n: nat, v: nat)
    requires i < |sizes| && Listed(sizes) && sizes[i] <= n
  {
    Code(sizes, i) * Pow2(n - sizes[i]) <= v < Next(sizes, i + 1, n)
  }

  /** The bits x start with the code of symbol i. */
  ghost predicate CodeStarts(sizes: seq<nat>, i: nat, x: seq<bool>)
    requires i < |sizes| && Listed(sizes)
  {
    High(Code(sizes, i), sizes[i]) <= x
  }

  lemma NextDoubles(sizes: seq<nat>, k: nat, j: nat)
    requires k <= |sizes| && Listed(sizes) && (k > 0 ==> sizes[k - 1] <= j)
    ensures Next(sizes, k, j + 1) == 2 * Next(sizes, k, j)
  {
    if k > 0 {
      TimesTwice(Code(sizes, k - 1) + 1, Pow2(j - sizes[k - 1]));
    }
  }

  lemma {:induction false} NextShifted(sizes: seq<nat>, k: nat, j: nat, n: nat)
    requires k <= |sizes| && Listed(sizes) && (k > 0 ==> sizes[k - 1] <= j)
    ensures Next(sizes, k, j + n) == Next(sizes, k, j) * Pow2(n)
    decreases n
  {
    hide Next;
    if n > 0 {
      NextShifted(sizes, k, j, n - 1);
      NextDoubles(sizes, k, j + (n - 1));
      TimesTwice(Next(sizes, k, j), Pow2(n - 1));
    }
  }

  /** The codes lie next to each other: each one covers the numbers from where the one before it ends. */
  lemma CoverStart(sizes: seq<nat>, i: nat, n: nat)
    requires i < |sizes| && Listed(sizes) && sizes[i] <= n
    ensures i > 0 ==> sizes[i - 1] <= n
    ensures Code(sizes, i) * Pow2(n - sizes[i]) == Next(sizes, i, n)
    ensures Next(sizes, i + 1, n) == Next(sizes, i, n) + Pow2(n - sizes[i])
  {
    NextShifted(sizes, i, sizes[i], n - sizes[i]);
    OneMoreTimes(Code(sizes, i), Pow2(n - sizes[i]));
  }

  lemma OneMoreTimes(a: nat, p: nat)
    ensures (a + 1) * p == a * p + p
  {
  }

  lemma {:induction false} CoversAscend(sizes: seq<nat>, i: nat, j: nat, n: nat)
    requires i <= j <= |sizes| && Listed(sizes) && (j > 0 ==> sizes[j - 1] <= n)
    ensures i > 0 ==> sizes[i - 1] <= n
    ensures Next(sizes, i, n) <= Next(sizes, j, n)
    decreases j
  {
    hide Next;
    if i < j {
      CoverStart(sizes, j - 1, n);
      CoversAscend(sizes, i, j - 1, n);
    }
  }

  /** The codes are prefix-free: at most one of them starts a number of n bits. */
  lemma OneCovers(sizes: seq<nat>, i: nat, j: nat, n: nat, v: nat)
    requires i < |sizes| && j < |sizes| && Listed(sizes) && sizes[i] <= n && sizes[j] <= n && Covers(sizes, i, n, v) &&
      Covers(sizes, j, n, v)
    ensures i == j
  {
    hide Next, Code;
    CoverStart(sizes, i, n);
    CoverStart(sizes, j, n);
    if i < j { CoversAscend(sizes, i + 1, j, n); }
    if j < i { CoversAscend(sizes, j + 1, i, n); }
  }

  /** Up to where the first codes reach, every number is covered. */
  lemma {:induction false} SomeCovers(sizes: seq<nat>, n: nat, v: nat) returns (i: nat)
    requires n <= |sizes| && Listed(sizes) && (n > 0 ==> sizes[n - 1] <= 16) && v < Next(sizes, n, 16)
    ensures i < n && Covers(sizes, i, 16, v)
  {
    hide Next;
    if n == 0 {
      NoNext(sizes, 16);
      assert false;
    } else {
      CoverStart(sizes, n - 1, 16);
      if v >= Next(sizes, n - 1, 16) {
        i := n - 1;
      } else {
        i := SomeCovers(sizes, n - 1, v);
      }
    }
  }

  lemma NoNext(sizes: seq<nat>, j: nat)
    requires Listed(sizes)
    ensures Next(sizes, 0, j) == 0
  {
  }

  /** Codes that fit end within the bits there are. */
  lemma CoversEnd(sizes: seq<nat>, i: nat, n: nat)
    requires i < |sizes| && Listed(sizes) && sizes[i] <= n && Code(sizes, i) < Pow2(sizes[i])
    ensures Next(sizes, i + 1, n) <= Pow2(n)
  {
    hide Code;
    var s := sizes[i];
    MulMonotone(Code(sizes, i) + 1, Pow2(s), Pow2(n - s));
    Pow2Add(s, n - s);
  }

  /** Symbols of one size have consecutive codes. */
  lemma {:induction false} Consecutive(sizes: seq<nat>, m: nat, i: nat, s: nat)
    requires m <= i <= |sizes| && Listed(sizes) && (m > 0 ==> sizes[m - 1] <= s) &&
      forall k :: m <= k < i ==> sizes[k] == s
    ensures Next(sizes, i, s) == Next(sizes, m, s) + (i - m)
    decreases i
  {
    if m < i {
      CoverStart(sizes, i - 1, s);
      Consecutive(sizes, m, i - 1, s);
    }
  }

  /** With so many codes, some of them are long. */
  lemma {:induction false} CoverAtLeast(sizes: seq<nat>, k: nat, s: nat)
    requires k <= |sizes| && Listed(sizes) && s <= 16 && (k > 0 ==> sizes[k - 1] <= s)
    ensures k * Pow2(16 - s) <= Next(sizes, k, 16)
    decreases k
  {
    if k > 0 {
      hide Next;
      CoverStart(sizes, k - 1, 16);
      CoverAtLeast(sizes, k - 1, s);
      Pow2Monotone(16 - s, 16 - sizes[k - 1]);
      OneMoreTimes(k - 1, Pow2(16 - s));
    }
  }

  /** A code of at most 9 bits covers a number of 16 bits exactly when it covers the first 9 of them. */
  lemma NineOfSixteen(sizes: seq<nat>, i: nat, v: nat)
    requires i < |sizes| && Listed(sizes) && sizes[i] <= 9
    ensures Covers(sizes, i, 9, v / 128) <==> Covers(sizes, i, 16, v)
  {
    hide Next, Code, Pow2;
    CoverStart(sizes, i, 9);
    CoverStart(sizes, i, 16);
    NextShifted(sizes, i, 9, 7);
    NextShifted(sizes, i + 1, 9, 7);
    Pow2Values();
    Scaled(Next(sizes, i, 9), Next(sizes, i + 1, 9), v);
  }

  lemma Scaled(a: nat, b: nat, v: nat)
    ensures a * 128 <= v < b * 128 <==> a <= v / 128 < b
  {
  }

  /** How many symbols have codes of at most j bits. */
  ghost function Within(sizes: seq<nat>, n: nat, j: nat): (k: nat)
    requires n <= |sizes|
    ensures k <= n && (k > 0 ==> sizes[k - 1] <= j)
  {
    if n == 0 then 0 else if sizes[n - 1] <= j then n else Within(sizes, n - 1, j)
  }

  lemma {:induction false} WithinExact(sizes: seq<nat>, n: nat, j: nat, i: nat)
    requires n <= |sizes| && Listed(sizes) && i < n
    ensures i < Within(sizes, n, j) <==> sizes[i] <= j
  {
    if sizes[n - 1] > j && i < n - 1 {
      WithinExact(sizes, n - 1, j, i);
    }
  }

  // ---------- Bits as numbers ----------

  /** The first a + b bits as a number. */
  lemma {:induction false} FrontSplit(x: seq<bool>, a: nat, b: nat)
    requires a + b <= |x|
    ensures Front(x, a + b) == Front(x, a) * Pow2(b) + Front(x[a..], b)
    decreases b
  {
    if b > 0 {
      FrontSplit(x, a, b - 1);
      TimesTwice(Front(x, a), Pow2(b - 1));
    }
  }

  lemma {:induction false} FrontPrefix(x: seq<bool>, y: seq<bool>, n: nat)
    requires n <= |x| && n <= |y| && x[..n] == y[..n]
    ensures Front(x, n) == Front(y, n)
  {
    if n > 0 {
      assert x[..n - 1] == x[..n][..n - 1] && y[..n - 1] == y[..n][..n - 1];
      assert x[n - 1] == x[..n][n - 1] && y[n - 1] == y[..n][n - 1];
      FrontPrefix(x, y, n - 1);
    }
  }

  lemma QuotientIs(a: nat, f: nat, r: nat, p: nat)
    requires r < p
    ensures a * p <= f * p + r < a * p + p <==> a == f
  {
    CellsApart(a, f, p);
  }

  /** A code starts a sequence of bits exactly when it covers the number that its first n bits are. */
  lemma CoversIsStart(sizes: seq<nat>, i: nat, x: seq<bool>, n: nat)
    requires i < |sizes| && Listed(sizes) && sizes[i] <= n <= |x| && Code(sizes, i) < Pow2(sizes[i])
    ensures Covers(sizes, i, n, Front(x, n)) <==> CodeStarts(sizes, i, x)
    ensures CodeStarts(sizes, i, x) <==> Front(x, sizes[i]) == Code(sizes, i)
  {
    hide Code, Front, High, Pow2;
    var s, c := sizes[i], Code(sizes, i);
    FrontSplit(x, s, n - s);
    FrontIsReverse(x[s..], n - s);
    QuotientIs(c, Front(x, s), Front(x[s..], n - s), Pow2(n - s));
    OneMoreTimes(c, Pow2(n - s));
    StartIsFront(c, s, x);
  }

  lemma StartIsFront(c: nat, s: nat, x: seq<bool>)
    requires s <= |x| && c < Pow2(s)
    ensures High(c, s) <= x <==> Front(x, s) == c
  {
    hide Front, High, Pow2;
    FrontIsReverse(x, s);
    if High(c, s) <= x {
      HighInjective(c, Front(x, s), s);
    }
  }

  // ---------- Values ----------

  /** EXTEND (section F.2.2.1): v, which was received as t bits, as a number with a sign. */
  function Extend(v: nat, t: nat): int
    requires t > 0
  {
    if v < Pow2(t - 1) then v - Pow2(t) + 1 else v
  }
}
