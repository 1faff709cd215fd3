/** Triangular probing: the n-th probe is the n-th triangular number away from the first, modulo a power of two. */
module Probing {
  import opened Arithmetic

  function Triangle(j: nat): nat {
    if j == 0 then 0 else Triangle(j - 1) + j
  }

  /** The group that probe j examines. */
  function Group(start: nat, n: nat, j: nat): (g: nat)
    requires n > 0
    ensures g < n
  {
    (start + Triangle(j)) % n
  }

  /** Adding a number before or after reduction makes no difference. */
  lemma AddModulo(a: nat, b: nat, n: nat)
    requires n > 0
    ensures (a % n + b) % n == (a + b) % n
  {
    Quotient(a, n);
    Quotient(a % n + b, n);
    var q, r := (a % n + b) / n, (a % n + b) % n;
    assert (a / n + q) * n + r == a + b;
    Digits(a / n + q, r, n);
  }

  /** The increment of a probe. */
  lemma NextGroup(start: nat, n: nat, j: nat)
    requires n > 0
    ensures (Group(start, n, j) + (j + 1)) % n == Group(start, n, j + 1)
  {
    AddModulo(start + Triangle(j), j + 1, n);
  }

  lemma {:induction false} DoubleTriangle(j: nat)
    ensures 2 * Triangle(j) == j * (j + 1)
  {
    if j > 0 {
      DoubleTriangle(j - 1);
      assert j * (j + 1) == (j - 1) * j + 2 * j;
    }
  }

  /** An odd factor does not contribute to divisibility by a power of two. */
  lemma {:induction false} OddFactor(u: nat, v: nat, q: nat, k: nat)
    requires u % 2 == 1 && u * v == q * Pow2(k)
    ensures v % Pow2(k) == 0
    decreases k
  {
    if k > 0 {
      TimesEven(q, Pow2(k - 1), Pow2(k));
      OddTimes(u, v);
      TimesEven(u, v / 2, v);
      OddFactor(u, v / 2, q, k - 1);
      Doubled(v / 2, Pow2(k - 1));
    }
  }

  lemma TimesEven(u: nat, w: nat, v: nat)
    requires v == 2 * w
    ensures u * v == 2 * (u * w)
  {
  }

  lemma OddTimes(u: nat, v: nat)
    requires u % 2 == 1
    ensures u * v % 2 == v % 2
  {
    assert u * v == 2 * (u / 2 * v) + v;
  }

  lemma Doubled(w: nat, p: nat)
    requires p > 0 && w % p == 0
    ensures 2 * w % (2 * p) == 0
  {
    Quotient(w, p);
    assert w / p * (2 * p) == 2 * w;
    Digits(w / p, 0, 2 * p);
  }

  lemma EqualRemainders(a: nat, b: nat, n: nat) returns (q: nat)
    requires n > 0 && a <= b && a % n == b % n
    ensures b - a == q * n
  {
    Quotient(a, n);
    Quotient(b, n);
    var d := b / n - a / n;
    assert d * n == b - a;
    if d < 0 { NegativeMultiple(d, n); }
    q := d;
  }

  /** Two numbers below a power of two, one odd and one even, do not have a product divisible by it. */
  lemma OddEvenProduct(u: nat, v: nat, k: nat, q: nat)
    requires 0 < u < Pow2(k) && 0 < v < Pow2(k) && u % 2 != v % 2
    ensures u * v != q * Pow2(k)
  {
    Digits(0, v, Pow2(k));
    Digits(0, u, Pow2(k));
    if u * v == q * Pow2(k) {
      if u % 2 == 1 { OddFactor(u, v, q, k); } else { OddFactor(v, u, q, k); }
    }
  }

  lemma TrianglesDiffer(m: nat, a: nat, b: nat, q: nat)
    requires a < b < Pow2(m)
    ensures Triangle(b) - Triangle(a) != q * Pow2(m)
  {
    hide Triangle;
    DoubleTriangle(a);
    DoubleTriangle(b);
    Difference(a, b);
    OddEvenProduct(b - a, a + b + 1, m + 1, q);
    TimesEven(q, Pow2(m), Pow2(m + 1));
  }

  lemma Difference(a: nat, b: nat)
    ensures (b - a) * (a + b + 1) == b * (b + 1) - a * (a + 1)
  {
  }

  /** The first n probes examine different groups, when n is a power of two. */
  lemma ProbesDiffer(start: nat, m: nat, a: nat, b: nat)
    requires a < b < Pow2(m)
    ensures Group(start, Pow2(m), a) != Group(start, Pow2(m), b)
  {
    if Group(start, Pow2(m), a) == Group(start, Pow2(m), b) {
      TriangleGrows(a, b);
      var q := EqualRemainders(start + Triangle(a), start + Triangle(b), Pow2(m));
      TrianglesDiffer(m, a, b, q);
    }
  }

  lemma {:induction false} TriangleGrows(a: nat, b: nat)
    requires a <= b
    ensures Triangle(a) <= Triangle(b)
  {
    if a < b { TriangleGrows(a, b - 1); }
  }

  // ---------- The probes reach every group ----------

  ghost function Probed(start: nat, n: nat, j: nat): (s: set<nat>)
    requires n > 0
  {
    set i | 0 <= i < j :: Group(start, n, i)
  }

  lemma {:induction false} ProbedCount(start: nat, m: nat, j: nat)
    requires j <= Pow2(m)
    ensures |Probed(start, Pow2(m), j)| == j
  {
    var n := Pow2(m);
    if j > 0 {
      ProbedCount(start, m, j - 1);
      var g := Group(start, n, j - 1);
      assert Probed(start, n, j) == Probed(start, n, j - 1) + {g};
      if g in Probed(start, n, j - 1) {
        var i :| 0 <= i < j - 1 && Group(start, n, i) == g;
        ProbesDiffer(start, m, i, j - 1);
      }
    }
  }

  ghost function Below(n: nat): (s: set<nat>)
    ensures |s| == n && forall i: nat :: i in s <==> i < n
  {
    if n == 0 then {} else Below(n - 1) + {n - 1}
  }

  lemma SubsetEqual<T>(s: set<T>, t: set<T>)
    requires s <= t && |s| == |t|
    ensures s == t
  {
    assert t == s + (t - s);
  }

  /** Every group is examined by exactly one of the first n probes. */
  lemma ProbeOf(start: nat, m: nat, g: nat) returns (j: nat)
    requires g < Pow2(m)
    ensures j < Pow2(m) && Group(start, Pow2(m), j) == g
    ensures forall i :: 0 <= i < Pow2(m) && Group(start, Pow2(m), i) == g ==> i == j
  {
    var n := Pow2(m);
    ProbedCount(start, m, n);
    SubsetEqual(Probed(start, n, n), Below(n));
    assert g in Probed(start, n, n);
    j :| 0 <= j < n && Group(start, n, j) == g;
    forall i | 0 <= i < n && Group(start, n, i) == g ensures i == j {
      if i < j { ProbesDiffer(start, m, i, j); }
      if j < i { ProbesDiffer(start, m, j, i); }
    }
  }

  /** With twice as many groups, the way to a key that is not in its first group can be another: here the second probe
      leads from group 1 to group 0 of two, but to group 2 of four, although the first group stays the same. */
  lemma WayChanges(start: nat)
    requires start % 4 == 1
    ensures Group(start, 2, 0) == Group(start, 4, 0) == 1 && Group(start, 2, 1) == 0 && Group(start, 4, 1) == 2
  {
    var q := start / 4;
    Digits(2 * q, 1, 2);
    Digits(2 * q + 1, 0, 2);
    Digits(q, 2, 4);
    assert Triangle(1) == 1;
  }
}
