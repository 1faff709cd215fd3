/** Binomial coefficients, and the combinatorial number system: subsets as sums of binomial coefficients. */
module Combinatorics {
  import opened Arithmetic

  /** Pascal's triangle. */
  function Choose(n: nat, k: nat): nat {
    if k == 0 then 1 else if n == 0 then 0 else Choose(n - 1, k - 1) + Choose(n - 1, k)
  }

  /** n * (n - 1) * ... * (n - k + 1) */
  function Falling(n: nat, k: nat): (r: nat)
    requires k <= n
    ensures r > 0
  {
    if k == 0 then 1 else Positive(n, Falling(n - 1, k - 1)); n * Falling(n - 1, k - 1)
  }

  function Factorial(k: nat): (r: nat)
    ensures r > 0
  {
    if k == 0 then 1 else Positive(k, Factorial(k - 1)); k * Factorial(k - 1)
  }

  lemma Positive(a: nat, b: nat)
    requires a > 0 && b > 0
    ensures a * b > 0
  {
  }

  lemma {:induction false} TooFew(n: nat, k: nat)
    requires n < k
    ensures Choose(n, k) == 0
  {
    if n > 0 {
      TooFew(n - 1, k - 1);
      TooFew(n - 1, k);
    }
  }

  /** The last factor of a falling product. */
  lemma {:induction false} LastFactor(n: nat, k: nat)
    requires k < n
    ensures Falling(n, k + 1) == Falling(n, k) * (n - k)
  {
    if k > 0 {
      LastFactor(n - 1, k - 1);
      MulAssociative(n, Falling(n - 1, k - 1), n - k);
    } else {
      assert Falling(n, 1) == n * Falling(n - 1, 0);
    }
  }

  lemma MulAssociative(a: nat, b: nat, c: nat)
    ensures a * (b * c) == (a * b) * c
  {
  }

  lemma {:induction false} FallingIsChoose(n: nat, k: nat)
    requires k <= n
    ensures Falling(n, k) == Choose(n, k) * Factorial(k)
  {
    if k > 0 {
      FallingIsChoose(n - 1, k - 1);
      if k <= n - 1 {
        FallingIsChoose(n - 1, k);
        LastFactor(n - 1, k - 1);
      } else {
        TooFew(n - 1, k);
      }
      PascalStep(n, k, Falling(n - 1, k - 1), Choose(n - 1, k - 1), Choose(n - 1, k), Factorial(k - 1), Factorial(k));
    }
  }

  lemma PascalStep(n: nat, k: nat, f: nat, c: nat, d: nat, g: nat, h: nat)
    requires k <= n && f == c * g && h == k * g && f * (n - k) == d * h
    ensures n * f == (c + d) * h
  {
    Swap(k, c, g);
    assert n * f == f * (n - k) + k * f;
    assert (c + d) * h == c * h + d * h;
  }

  lemma Swap(a: nat, b: nat, c: nat)
    ensures a * (b * c) == b * (a * c)
  {
  }

  lemma {:induction false} ChooseMonotone(m: nat, n: nat, k: nat)
    requires m <= n
    ensures Choose(m, k) <= Choose(n, k)
  {
    if m < n { ChooseMonotone(m, n - 1, k); }
  }

  /** Products of fewer and smaller factors are smaller. */
  lemma {:induction false} FallingMonotone(m: nat, j: nat, n: nat, k: nat)
    requires j <= m <= n && j <= k <= n
    ensures Falling(m, j) <= Falling(n, k)
  {
    if j > 0 {
      FallingMonotone(m - 1, j - 1, n - 1, k - 1);
      MulBoth(m, n, Falling(m - 1, j - 1), Falling(n - 1, k - 1));
    }
  }

  lemma MulBoth(a: nat, b: nat, c: nat, d: nat)
    requires a <= b && c <= d
    ensures a * c <= b * d
  {
    MulMonotone(a, b, c);
    MulMonotone(c, d, b);
  }

  // ---------- The combinatorial number system ----------

  ghost predicate Descending(e: seq<nat>) {
    forall i, j :: 0 <= i < j < |e| ==> e[i] > e[j]
  }

  ghost predicate Under(e: seq<nat>, n: nat) {
    forall i :: 0 <= i < |e| ==> e[i] < n
  }

  /** The sum of binomial coefficients that stands for a descending sequence. */
  function Rank(e: seq<nat>): nat {
    if e == [] then 0 else Choose(e[0], |e|) + Rank(e[1..])
  }

  lemma {:induction false} RankBound(e: seq<nat>, n: nat)
    requires Descending(e) && Under(e, n)
    ensures Rank(e) < Choose(n, |e|)
  {
    if e != [] {
      RankBound(e[1..], e[0]);
      assert Choose(e[0] + 1, |e|) == Choose(e[0], |e| - 1) + Choose(e[0], |e|);
      ChooseMonotone(e[0] + 1, n, |e|);
    }
  }

  lemma {:induction false} RankInjective(a: seq<nat>, b: seq<nat>)
    requires Descending(a) && Descending(b) && |a| == |b| && Rank(a) == Rank(b)
    ensures a == b
  {
    if a != [] {
      HeadDecides(a, b);
      HeadDecides(b, a);
      RankInjective(a[1..], b[1..]);
      assert a == [a[0]] + a[1..] && b == [b[0]] + b[1..];
    }
  }

  /** A smaller largest element means a smaller sum. */
  lemma HeadDecides(a: seq<nat>, b: seq<nat>)
    requires Descending(a) && Descending(b) && |a| == |b| > 0
    ensures a[0] < b[0] ==> Rank(a) < Rank(b)
  {
    if a[0] < b[0] {
      RankBound(a[1..], a[0]);
      assert Choose(a[0] + 1, |a|) == Choose(a[0], |a| - 1) + Choose(a[0], |a|);
      ChooseMonotone(a[0] + 1, b[0], |a|);
    }
  }

  /** The first difference decides. */
  predicate Precedes(a: seq<nat>, b: seq<nat>) {
    a != [] && b != [] && (a[0] < b[0] || (a[0] == b[0] && Precedes(a[1..], b[1..])))
  }

  lemma {:induction false} RankOrder(a: seq<nat>, b: seq<nat>)
    requires Descending(a) && Descending(b) && |a| == |b|
    ensures Rank(a) < Rank(b) <==> Precedes(a, b)
  {
    if a != [] {
      HeadDecides(a, b);
      HeadDecides(b, a);
      RankOrder(a[1..], b[1..]);
    }
  }

  /** Every number below Choose(n, k) is the sum for a descending sequence of k numbers below n. */
  lemma {:induction false} Unrank(n: nat, k: nat, r: nat) returns (e: seq<nat>)
    requires r < Choose(n, k)
    ensures |e| == k && Descending(e) && Under(e, n) && Rank(e) == r
    decreases n
  {
    if k == 0 {
      e := [];
    } else if r < Choose(n - 1, k) {
      e := Unrank(n - 1, k, r);
    } else {
      var rest := Unrank(n - 1, k - 1, r - Choose(n - 1, k));
      e := [n - 1] + rest;
      assert e[1..] == rest;
    }
  }
}
