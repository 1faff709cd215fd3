/** Concatenations regrouped, which solvers see only when told to look. */
module Sequences {

  /** The first part of the middle goes to the left, or the last part to the right. */
  lemma SplitMiddle<T>(a: seq<T>, b: seq<T>, x: seq<T>, c: seq<T>, d: seq<T>)
    ensures a + (b + x + c) + d == a + b + (x + c + d)
    ensures a + (b + x + c) + d == (a + b + x) + c + d
  {
  }

  /** Both parts around x go outwards, with x and without it. */
  lemma SplitAround<T>(a: seq<T>, p: seq<T>, x: T, q: seq<T>, b: seq<T>)
    ensures a + (p + [x] + q) + b == (a + p) + [x] + (q + b)
    ensures a + (p + q) + b == (a + p) + (q + b)
  {
  }

  /** What comes before the middle, with x in between and without it. */
  lemma JoinRight<T>(b: seq<T>, x: T, m: seq<T>, a: seq<T>)
    ensures b + m + a == b + (m + a) && b + ([x] + m) + a == b + [x] + (m + a)
  {
  }

  /** From x above y to y above x. */
  lemma Rotation<T>(a: seq<T>, x: T, b: seq<T>, y: T, c: seq<T>)
    ensures a + [x] + (b + [y] + c) == (a + [x] + b) + [y] + c
  {
  }
}
