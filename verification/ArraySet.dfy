/** Arrays indexed by subsets: every k-element subset of 0..len-1 has a slot of its own. */
module ArraySet {
  import opened Arithmetic
  import opened Bits
  import opened Combinatorics

  const WORD := 0x1_0000_0000_0000_0000

  /** `binomial`, in 64-bit arithmetic: right exactly when the product that it starts with does not overflow. */
  method Binomial(n: nat, k: nat) returns (res: nat)
    requires n < WORD - 1 && k < WORD
    ensures n < k ==> res == Choose(n, k) == 0
    ensures k <= n ==> (res == Choose(n, k) <==> Falling(n, k) < WORD)
    ensures res < WORD
  {
    if n < k {
      TooFew(n, k);
      return 0;
    }
    hide Choose, Falling, Factorial;
    FirstFactors(n - k + 1, 1);
    res := 1;
    var i := n - k + 1;
    while i <= n
      invariant n - k + 1 <= i <= n + 1
      invariant res == Falling(i - 1, i - 1 - (n - k)) % WORD
    {
      ProductModulo(Falling(i - 1, i - 1 - (n - k)), i, WORD);
      FirstFactors(i, i - (n - k));
      res := res * i % WORD;
      i := i + 1;
    }
    ghost var x := res;
    res := DivideByFactorial(res, k);
    QuotientDecides(x, Choose(n, k), Factorial(k), n, k);
  }

  /** For the pairs out of 2^32 + 1 the product overflows, although the coefficient itself fits: the result is wrong. */
  lemma BinomialOverflows()
    ensures Choose(0x1_0000_0001, 2) < WORD <= Falling(0x1_0000_0001, 2)
  {
    hide Choose;
    assert Falling(0x1_0000_0001, 2) == 0x1_0000_0001 * Falling(0x1_0000_0000, 1) == 0x1_0000_0001 * 0x1_0000_0000;
    FallingIsChoose(0x1_0000_0001, 2);
    assert Factorial(2) == 2;
  }

  /** The second loop: the divisions by 2 to k, one after the other. */
  method DivideByFactorial(x: nat, k: nat) returns (res: nat)
    ensures res == x / Factorial(k) <= x
  {
    hide Factorial;
    SmallFactorials();
    res := x;
    var i := 2;
    while i <= k
      invariant 2 <= i && (i <= k + 1 || k < 2) && res == x / Factorial(if i <= k then i - 1 else k) <= x
    {
      DivideTwice(x, Factorial(i - 1), i);
      NextFactorial(i);
      Smaller(res, i);
      res := res / i;
      i := i + 1;
    }
  }

  lemma NextFactorial(k: nat)
    requires k > 0
    ensures Factorial(k) == k * Factorial(k - 1)
  {
  }

  lemma Smaller(x: nat, i: nat)
    requires i > 0
    ensures 0 <= x / i <= x
  {
    Quotient(x, i);
    MulMonotone(1, i, x / i);
  }

  lemma FirstFactors(n: nat, k: nat)
    requires 0 < k <= n
    ensures Falling(n, k) == n * Falling(n - 1, k - 1) && Falling(n - 1, 0) == 1 && Factorial(k) == k * Factorial(k - 1)
  {
  }

  lemma SmallFactorials()
    ensures Factorial(0) == Factorial(1) == 1
  {
  }

  lemma ProductModulo(a: nat, b: nat, m: nat)
    requires m > 0
    ensures a % m * b % m == b * a % m
  {
    Quotient(a, m);
    var q, r := a / m, a % m;
    Quotient(r * b, m);
    assert (q * b + r * b / m) * m + r * b % m == b * a by {
      assert q * b * m == q * m * b;
    }
    Digits(q * b + r * b / m, r * b % m, m);
  }

  lemma DivideTwice(x: nat, a: nat, b: nat)
    requires a > 0 && b > 0
    ensures b * a > 0 && x / a / b == x / (b * a)
  {
    Quotient(x, a);
    Quotient(x / a, b);
    var q, r := x / a / b, x / a % b;
    assert x == q * (b * a) + (r * a + x % a) by {
      assert (q * b + r) * a == q * b * a + r * a;
    }
    MulMonotone(r + 1, b, a);
    Positive(b, a);
    Digits(q, r * a + x % a, b * a);
  }

  /** The result of the divisions is the coefficient only if nothing was lost before. */
  lemma QuotientDecides(x: nat, c: nat, f: nat, n: nat, k: nat)
    requires k <= n && c == Choose(n, k) && f == Factorial(k) && x == Falling(n, k) % WORD
    ensures x / f == c <==> Falling(n, k) < WORD
  {
    FallingIsChoose(n, k);
    Digits(c, 0, f);
    if Falling(n, k) < WORD {
      assert x == c * f;
    } else {
      Quotient(x, f);
      assert x < c * f;
      if x / f >= c { MulMonotone(c, x / f, f); }
    }
  }

  // ---------- Sorting ----------

  ghost predicate Ascends(s: seq<nat>) {
    forall i, j :: 0 <= i < j < |s| ==> s[i] <= s[j]
  }

  function InsertSorted(x: nat, s: seq<nat>): (r: seq<nat>)
    ensures multiset(r) == multiset(s) + multiset{x} && |r| == |s| + 1
  {
    if s == [] || x <= s[0] then
      assert multiset([x] + s) == multiset(s) + multiset{x};
      [x] + s
    else
      assert s == [s[0]] + s[1..];
      [s[0]] + InsertSorted(x, s[1..])
  }

  lemma {:induction false} InsertAscends(x: nat, s: seq<nat>)
    requires Ascends(s)
    ensures Ascends(InsertSorted(x, s))
  {
    if s != [] && x > s[0] {
      InsertAscends(x, s[1..]);
      var r := InsertSorted(x, s[1..]);
      forall i | 0 <= i < |r| ensures s[0] <= r[i] {
        assert r[i] in multiset(r);
        assert r[i] == x || r[i] in s[1..];
      }
    }
  }

  /** `std::sort` */
  function Sorted(s: seq<nat>): (r: seq<nat>)
    ensures Ascends(r) && multiset(r) == multiset(s) && |r| == |s|
  {
    if s == [] then [] else
      assert s == [s[0]] + s[1..];
      InsertAscends(s[0], Sorted(s[1..]));
      InsertSorted(s[0], Sorted(s[1..]))
  }

  ghost predicate Distinct(s: seq<nat>) {
    forall i, j :: 0 <= i < j < |s| ==> s[i] != s[j]
  }

  /** The elements in the order in which they are summed. */
  function Largest(idx: seq<nat>): (e: seq<nat>)
    ensures |e| == |idx|
  {
    Reverse(Sorted(idx))
  }

  lemma {:induction false} ReverseMultiset<T>(s: seq<T>)
    ensures multiset(Reverse(s)) == multiset(s)
  {
    if s != [] {
      ReverseMultiset(s[1..]);
      assert s == [s[0]] + s[1..];
    }
  }

  lemma {:induction false} DistinctCount(s: seq<nat>)
    ensures Distinct(s) <==> forall x :: multiset(s)[x] <= 1
  {
    if s != [] {
      DistinctCount(s[1..]);
      assert s == [s[0]] + s[1..];
      assert multiset(s) == multiset{s[0]} + multiset(s[1..]);
      if Distinct(s) {
        assert Distinct(s[1..]);
        assert s[0] !in s[1..];
      }
      if forall x :: multiset(s)[x] <= 1 {
        assert forall x :: multiset(s[1..])[x] <= multiset(s)[x];
        assert s[0] !in multiset(s[1..]);
      }
    }
  }

  lemma ReverseDescends(s: seq<nat>)
    requires Ascends(s) && Distinct(s)
    ensures Descending(Reverse(s))
  {
    forall i, j | 0 <= i < j < |s| ensures Reverse(s)[i] > Reverse(s)[j] {
      assert s[|s| - 1 - j] <= s[|s| - 1 - i] && s[|s| - 1 - j] != s[|s| - 1 - i];
    }
  }

  lemma LargestDescends(idx: seq<nat>)
    requires Distinct(idx)
    ensures Descending(Largest(idx)) && multiset(Largest(idx)) == multiset(idx)
  {
    hide Descending, Distinct, Ascends, Reverse, Sorted;
    var s := Sorted(idx);
    ReverseMultiset(s);
    DistinctCount(idx);
    DistinctCount(s);
    ReverseDescends(s);
  }

  lemma FirstIsLargest(s: seq<nat>, x: nat)
    requires Descending(s) && x in multiset(s)
    ensures s != [] && x <= s[0]
  {
    assert x in s;
  }

  lemma TailMultiset(s: seq<nat>)
    requires s != []
    ensures s == [s[0]] + s[1..] && multiset(s[1..]) == multiset(s) - multiset{s[0]}
  {
    assert s == [s[0]] + s[1..];
  }

  lemma {:induction false} DescendingUnique(a: seq<nat>, b: seq<nat>)
    requires Descending(a) && Descending(b) && multiset(a) == multiset(b)
    ensures a == b
  {
    if a != [] {
      assert a[0] in multiset(a);
      FirstIsLargest(b, a[0]);
      assert b[0] in multiset(b);
      FirstIsLargest(a, b[0]);
      TailMultiset(a);
      TailMultiset(b);
      DescendingUnique(a[1..], b[1..]);
    } else {
      assert |multiset(b)| == 0;
    }
  }

  // ---------- Slots ----------

  /** Distinct elements below len. */
  ghost predicate Subset(idx: seq<nat>, len: nat) {
    Distinct(idx) && Under(idx, len)
  }

  function Slot(idx: seq<nat>): nat {
    Rank(Largest(idx))
  }

  lemma SameElements(a: seq<nat>, b: seq<nat>)
    requires Distinct(a) && Distinct(b)
    ensures multiset(a) == multiset(b) <==> forall x :: x in a <==> x in b
  {
    DistinctCount(a);
    DistinctCount(b);
    if forall x :: x in a <==> x in b {
      forall x ensures multiset(a)[x] == multiset(b)[x] {
        assert x in a <==> x in multiset(a);
        assert x in b <==> x in multiset(b);
      }
    } else {
      var x :| x in a <==> x !in b;
      assert x in a <==> x in multiset(a);
      assert x in b <==> x in multiset(b);
    }
  }

  /** Two subsets have the same slot exactly when they are the same subset, in whatever order their elements are
      given. */
  lemma SlotsDiffer(a: seq<nat>, b: seq<nat>)
    requires Distinct(a) && Distinct(b) && |a| == |b|
    ensures Slot(a) == Slot(b) <==> forall x :: x in a <==> x in b
  {
    LargestDescends(a);
    LargestDescends(b);
    SameElements(a, b);
    if Slot(a) == Slot(b) {
      RankInjective(Largest(a), Largest(b));
    }
    if multiset(a) == multiset(b) {
      DescendingUnique(Largest(a), Largest(b));
    }
  }

  /** The slots are in the order of the largest elements, then of the second largest, and so on. */
  lemma SlotOrder(a: seq<nat>, b: seq<nat>)
    requires Distinct(a) && Distinct(b) && |a| == |b|
    ensures Slot(a) < Slot(b) <==> Precedes(Largest(a), Largest(b))
  {
    LargestDescends(a);
    LargestDescends(b);
    RankOrder(Largest(a), Largest(b));
  }

  lemma SlotBound(idx: seq<nat>, len: nat)
    requires Subset(idx, len)
    ensures Slot(idx) < Choose(len, |idx|)
  {
    LargestDescends(idx);
    var e := Largest(idx);
    forall i | 0 <= i < |e| ensures e[i] < len {
      LargestUnder(idx, len, i);
    }
    RankBound(e, len);
  }

  /** Every slot belongs to a subset. */
  lemma SlotReached(len: nat, k: nat, slot: nat) returns (idx: seq<nat>)
    requires slot < Choose(len, k)
    ensures |idx| == k && Subset(idx, len) && Slot(idx) == slot
  {
    idx := Unrank(len, k, slot);
    LargestDescends(idx);
    DescendingUnique(idx, Largest(idx));
  }

  class Array<T> {
    const vec: array<T>
    const elements: nat
    /** The size of the set whose subsets are the indices. */
    ghost const len: nat

    ghost predicate Valid() {
      elements < WORD && len < WORD - 1 && (elements <= len ==> Falling(len, elements) < WORD) &&
        vec.Length == Choose(len, elements)
    }

    constructor (elements: nat, len: nat, value: T)
      requires elements < WORD && len < WORD - 1 && (elements <= len ==> Falling(len, elements) < WORD)
      ensures Valid() && fresh(vec) && this.elements == elements && this.len == len
      ensures forall i :: 0 <= i < vec.Length ==> vec[i] == value
    {
      this.elements, this.len := elements, len;
      var n := Binomial(len, elements);
      vec := new T[n](_ => value);
    }

    /** `operator[]`: the slot of a subset. */
    method At(idx: seq<nat>) returns (slot: nat)
      requires Valid() && |idx| == elements && Subset(idx, len)
      ensures slot == Slot(idx) < vec.Length
    {
      hide Largest, Subset, Choose, Falling;
      var elemVec := Largest(idx);
      Room(idx, len);
      slot := 0;
      for i := 0 to elements
        invariant slot + Rank(elemVec[i..]) == Slot(idx)
      {
        var b := Summand(idx, elemVec, i);
        slot := (slot + b) % WORD;
      }
    }

    method Summand(ghost idx: seq<nat>, elemVec: seq<nat>, i: nat) returns (b: nat)
      requires Valid() && |idx| == elements && Subset(idx, len) && elemVec == Largest(idx) && i < elements
      ensures Rank(elemVec[i..]) == b + Rank(elemVec[i + 1..])
    {
      hide Largest, Subset, Choose, Falling;
      FewerElements(idx, len, i);
      b := Binomial(elemVec[i], elements - i);
      assert elemVec[i..][1..] == elemVec[i + 1..];
    }
  }

  /** There are no more slots than the array has room for. */
  lemma Room(idx: seq<nat>, len: nat)
    requires Subset(idx, len) && (|idx| <= len ==> Falling(len, |idx|) < WORD)
    ensures Slot(idx) < Choose(len, |idx|) < WORD
  {
    hide Choose, Falling, Factorial, Slot;
    SlotBound(idx, len);
    if |idx| <= len {
      FallingIsChoose(len, |idx|);
      MulMonotone(1, Factorial(|idx|), Choose(len, |idx|));
    } else {
      TooFew(len, |idx|);
    }
  }

  /** No summand overflows when the number of slots was computed without overflow. */
  lemma FewerElements(idx: seq<nat>, len: nat, i: nat)
    requires Subset(idx, len) && i < |idx| && (|idx| <= len ==> Falling(len, |idx|) < WORD)
    ensures Largest(idx)[i] < len && (|idx| - i <= Largest(idx)[i] ==> Falling(Largest(idx)[i], |idx| - i) < WORD)
  {
    hide Choose, Falling;
    LargestUnder(idx, len, i);
    SlotBound(idx, len);
    if |idx| > len { TooFew(len, |idx|); }
    if |idx| - i <= Largest(idx)[i] {
      FallingMonotone(Largest(idx)[i], |idx| - i, len, |idx|);
    }
  }

  lemma LargestUnder(idx: seq<nat>, len: nat, i: nat)
    requires Subset(idx, len) && i < |idx|
    ensures Largest(idx)[i] < len
  {
    hide Largest, Descending, Distinct;
    LargestDescends(idx);
    assert Largest(idx)[i] in multiset(Largest(idx));
    assert Largest(idx)[i] in idx;
  }

  // ---------- Iteration ----------

  /** The index that `operator++` of the iterator increments. In unsigned arithmetic, one less than 0 is the greatest
      number. */
  function Pivot(e: seq<nat>, i: nat): (p: nat)
    requires i < |e|
    ensures p <= i
  {
    if i == 0 || e[i - 1] == 0 || e[i] < e[i - 1] - 1 then i else Pivot(e, i - 1)
  }

  /** The elements after the increment: those behind the pivot start again, in ascending order. */
  function Successor(e: seq<nat>): (r: seq<nat>)
    ensures |r| == |e|
  {
    if e == [] then [] else Restart(e, Pivot(e, |e| - 1))
  }

  function Restart(e: seq<nat>, p: nat): (r: seq<nat>)
    requires p < |e|
    ensures |r| == |e| && forall j :: 0 <= j < |e| ==>
      r[j] == if j < p then e[j] else if j == p then e[p] + 1 else j - p - 1
  {
    seq(|e|, j requires 0 <= j < |e| => if j < p then e[j] else if j == p then e[p] + 1 else j - p - 1)
  }

  class Iterator {
    const elemVec: array<nat>

    /** `begin` */
    constructor (elements: nat)
      ensures elemVec[..] == First(elements) && fresh(elemVec)
    {
      elemVec := new nat[elements](i => if i < elements then elements - i - 1 else 0);
    }

    /** `operator++` */
    method Increment()
      modifies elemVec
      ensures elemVec[..] == Successor(old(elemVec[..]))
    {
      var i := elemVec.Length - 1;
      while i != -1
        invariant -1 <= i < elemVec.Length && elemVec[..] == old(elemVec[..])
        invariant i >= 0 ==> Pivot(elemVec[..], elemVec.Length - 1) == Pivot(elemVec[..], i)
        invariant i == -1 ==> elemVec.Length == 0
      {
        if i == 0 || elemVec[i - 1] == 0 || elemVec[i] < elemVec[i - 1] - 1 {
          elemVec[i] := elemVec[i] + 1;
          for j := i + 1 to elemVec.Length
            invariant forall m :: 0 <= m < j ==>
              elemVec[m] == if m < i then old(elemVec[m]) else if m == i then old(elemVec[m]) + 1 else m - i - 1
          {
            elemVec[j] := j - i - 1;
          }
          return;
        }
        i := i - 1;
      }
    }
  }

  function First(k: nat): (e: seq<nat>)
    ensures |e| == k && forall i :: 0 <= i < k ==> e[i] == k - i - 1
  {
    seq(k, i => k - i - 1)
  }

  /** The iterator starts at slot 0. */
  lemma {:induction false} FirstSlot(k: nat)
    ensures Descending(First(k)) && Rank(First(k)) == 0
  {
    if k > 0 {
      TooFew(k - 1, k);
      assert First(k)[1..] == First(k - 1);
      FirstSlot(k - 1);
    }
  }

  lemma {:induction false} ChooseOne(n: nat)
    ensures Choose(n, 1) == n
  {
    if n > 0 { ChooseOne(n - 1); }
  }

  lemma RankOne(x: nat)
    ensures Rank([x]) == x
  {
    ChooseOne(x);
  }

  lemma RankTwo(x: nat, y: nat)
    ensures Rank([x, y]) == Choose(x, 2) + y
  {
    assert [x, y][1..] == [y];
    RankOne(y);
  }

  /** How many elements stand behind the one that the iterator increments. */
  function Behind(e: seq<nat>): nat
    requires e != []
  {
    |e| - 1 - Pivot(e, |e| - 1)
  }

  /** The step leads to a subset, and to the one with the next slot. */
  ghost predicate StepRight(e: seq<nat>) {
    Descending(Successor(e)) && Rank(Successor(e)) == Rank(e) + 1
  }

  /** For subsets of any size, the step is right exactly when at most one element stands behind the one that it
      increments. */
  lemma StepExactly(e: seq<nat>)
    requires Descending(e) && e != []
    ensures StepRight(e) <==> Behind(e) <= 1
  {
    hide Rank, Descending, Pivot, Successor;
    if Behind(e) <= 1 {
      StepDescends(e);
      var p := Pivot(e, |e| - 1);
      SamePrefixRank(e, Successor(e), p);
      LastRanks(e, p);
    } else {
      StepFails(e);
    }
  }

  lemma StepDescends(e: seq<nat>)
    requires Descending(e) && e != [] && Behind(e) <= 1
    ensures Descending(Successor(e)) && Successor(e)[..Pivot(e, |e| - 1)] == e[..Pivot(e, |e| - 1)]
  {
    hide Rank, Pivot;
    PivotRoom(e, |e| - 1);
  }

  /** Behind the incremented element come 0, 1 and so on. */
  lemma StepFails(e: seq<nat>)
    requires Descending(e) && e != [] && Behind(e) > 1
    ensures !Descending(Successor(e))
  {
    hide Rank, Pivot;
    var p, r := Pivot(e, |e| - 1), Successor(e);
    assert r[p + 1] == 0 && r[p + 2] == 1;
  }

  /** There is room to increment the pivot, and none for the element behind it. */
  lemma {:induction false} PivotRoom(e: seq<nat>, i: nat)
    requires Descending(e) && i < |e|
    ensures var p := Pivot(e, i);
      (p > 0 ==> e[p] + 1 < e[p - 1]) && (p < i ==> e[p + 1] + 1 == e[p])
  {
    if Pivot(e, i) < i { PivotRoom(e, i - 1); }
  }

  lemma {:induction false} SamePrefixRank(e: seq<nat>, r: seq<nat>, p: nat)
    requires p <= |e| == |r| && e[..p] == r[..p]
    ensures Rank(e) - Rank(e[p..]) == Rank(r) - Rank(r[p..])
  {
    if p == 0 {
      assert e[0..] == e && r[0..] == r;
    } else {
      assert e[0] == e[..p][0] == r[..p][0] == r[0];
      assert e[1..][..p - 1] == e[..p][1..] == r[..p][1..] == r[1..][..p - 1];
      assert e[1..][p - 1..] == e[p..] && r[1..][p - 1..] == r[p..];
      SamePrefixRank(e[1..], r[1..], p - 1);
    }
  }

  /** The last element or the last two, before and after the step. */
  lemma LastElements(e: seq<nat>, p: nat)
    requires Descending(e) && e != [] && p == Pivot(e, |e| - 1)
    ensures p + 1 == |e| ==> e[p..] == [e[p]] && Successor(e)[p..] == [e[p] + 1]
    ensures p + 2 == |e| ==> e[p] == e[p + 1] + 1 && e[p..] == [e[p], e[p + 1]] && Successor(e)[p..] == [e[p] + 1, 0]
  {
    hide Pivot, Descending;
    PivotRoom(e, |e| - 1);
  }

  lemma LastRanks(e: seq<nat>, p: nat)
    requires Descending(e) && e != [] && p == Pivot(e, |e| - 1) && Behind(e) <= 1
    ensures Rank(Successor(e)[p..]) == Rank(e[p..]) + 1
  {
    hide Rank, Pivot, Choose, Descending, Successor;
    LastElements(e, p);
    if p + 1 == |e| {
      StepOfOne(e[p..], Successor(e)[p..], e[p]);
    } else {
      StepOfTwo(e[p..], Successor(e)[p..], e[p], e[p + 1]);
    }
  }

  lemma StepOfOne(s: seq<nat>, next: seq<nat>, x: nat)
    requires s == [x] && next == [x + 1]
    ensures Rank(next) == Rank(s) + 1
  {
    hide Rank;
    RankOne(x);
    RankOne(x + 1);
  }

  lemma StepOfTwo(s: seq<nat>, next: seq<nat>, x: nat, y: nat)
    requires s == [x, y] && x == y + 1 && next == [x + 1, 0]
    ensures Rank(next) == Rank(s) + 1
  {
    hide Rank, Choose;
    RankTwo(x, y);
    RankTwo(x + 1, 0);
    NextPair(x);
  }

  lemma NextPair(x: nat)
    ensures Choose(x + 1, 2) == x + Choose(x, 2)
  {
    ChooseOne(x);
  }

  /** Hence the iterator goes from every subset to the one with the next slot exactly when subsets have at most two
      elements. */
  lemma IteratorOrder(k: nat)
    requires k > 0
    ensures (forall e :: Descending(e) && |e| == k ==> StepRight(e)) <==> k <= 2
    ensures k > 2 ==> Descending(First(k)) && !StepRight(First(k))
  {
    hide StepRight;
    if k <= 2 {
      forall e | Descending(e) && |e| == k ensures StepRight(e) {
        StepExactly(e);
      }
    } else {
      FirstPivot(k, k - 1);
      assert Descending(First(k));
      StepExactly(First(k));
    }
  }

  lemma {:induction false} FirstPivot(k: nat, i: nat)
    requires i < k
    ensures Pivot(First(k), i) == 0
  {
    if i > 0 { FirstPivot(k, i - 1); }
  }
}
