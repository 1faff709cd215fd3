/** The order in which the pixels of a GIF frame are painted. */
module GifOrder {
  import opened Arithmetic
  import opened Bits
  import opened GifRaster

  // ---------- Every row once ----------

  /** The rows that are painted from a position on. */
  function Rows(f: Frame, c: Cursor): seq<nat>
    requires c.step > 0
    decreases c.parse, f.bottom - c.row
  {
    if c.row < f.bottom then [c.row] + Rows(f, c.(row := c.row + c.step))
    else if c.parse > 0 then Rows(f, NextPass(f, c))
    else []
  }

  /** How often the row at distance d from the top belongs to one of the last n passes. */
  function InLastPasses(n: nat, d: int): nat {
    if n == 0 then 0 else InLastPasses(n - 1, d) + (if d % Pow2(n) == Pow2(n) / 2 then 1 else 0)
  }

  /** Whether row r is among those that the current pass still paints. */
  predicate InThisPass(c: Cursor, r: nat) {
    c.step > 0 && r >= c.row && (r - c.row) % c.step == 0
  }

  lemma {:induction false} RowsCount(f: Frame, c: Cursor, r: nat)
    requires c.step > 0 && f.top <= r
    ensures multiset(Rows(f, c))[r] == if r >= f.bottom then 0
      else (if InThisPass(c, r) then 1 else 0) + InLastPasses(c.parse, r - f.top)
    decreases c.parse, f.bottom - c.row
  {
    hide InLastPasses, NextPass;
    if c.row < f.bottom {
      var next := c.(row := c.row + c.step);
      RowsCount(f, next, r);
      NextInPass(c, r);
      assert Rows(f, c) == [c.row] + Rows(f, next);
    } else if c.parse > 0 {
      var next := PassBegin(f, c);
      SkipToPass(f, c);
      RowsCount(f, next, r);
      if r < f.bottom { LastPass(f, c, r); }
    } else {
      NoPasses(r - f.top);
    }
  }

  /** The first position of the next pass. */
  function PassBegin(f: Frame, c: Cursor): Cursor
    requires c.parse > 0
  {
    Cursor(c.x, f.top + Pow2(c.parse) / 2, Pow2(c.parse), c.parse - 1)
  }

  lemma SkipToPass(f: Frame, c: Cursor)
    requires c.step > 0 && c.row >= f.bottom && c.parse > 0
    ensures Rows(f, c) == Rows(f, PassBegin(f, c))
  {
    assert NextPass(f, c) == NextPass(f, PassBegin(f, c));
    RowsSkip(f, PassBegin(f, c));
  }

  lemma LastPass(f: Frame, c: Cursor, r: nat)
    requires c.step > 0 && f.top <= r < f.bottom <= c.row && c.parse > 0
    ensures !InThisPass(c, r)
    ensures InLastPasses(c.parse, r - f.top) == (if InThisPass(PassBegin(f, c), r) then 1 else 0) +
      InLastPasses(c.parse - 1, r - f.top)
  {
    PassResidue(c.parse, r - f.top);
  }

  lemma NoPasses(d: int)
    ensures InLastPasses(0, d) == 0
  {
  }

  lemma {:induction false} RowsSkip(f: Frame, c: Cursor)
    requires c.step > 0
    ensures Rows(f, NextPass(f, c)) == Rows(f, c)
  {
  }

  lemma NextInPass(c: Cursor, r: nat)
    requires c.step > 0
    ensures InThisPass(c, r) <==> r == c.row || InThisPass(c.(row := c.row + c.step), r)
  {
    var d, m := r - c.row, c.step;
    if 0 < d {
      assert d - m == (d / m - 1) * m + d % m;
      Digits(d / m - 1, d % m, m);
      if d < m { Digits(0, d, m); }
    }
  }

  lemma PassResidue(n: nat, d: nat)
    requires n > 0
    ensures d % Pow2(n) == Pow2(n) / 2 <==> d >= Pow2(n) / 2 && (d - Pow2(n) / 2) % Pow2(n) == 0
  {
    Residue(d, Pow2(n), Pow2(n) / 2);
  }

  lemma Residue(d: nat, m: nat, h: nat)
    requires h < m
    ensures d % m == h <==> d >= h && (d - h) % m == 0
  {
    Quotient(d, m);
    if d % m == h {
      Digits(d / m, 0, m);
      MulMonotone(0, d / m, m);
    } else if d >= h && (d - h) % m == 0 {
      Quotient(d - h, m);
      DigitsUnique(d / m, d % m, (d - h) / m, h, m);
    }
  }

  function Start(f: Frame, interlaced: bool): Cursor {
    Cursor(f.left, f.top, if interlaced then 8 else 1, if interlaced then 3 else 0)
  }

  /** An interlaced frame, like one that is not, has every row once. */
  lemma EveryRowOnce(f: Frame, interlaced: bool, r: nat)
    requires f.top <= r
    ensures multiset(Rows(f, Start(f, interlaced)))[r] == if r < f.bottom then 1 else 0
  {
    hide Rows, InLastPasses;
    RowsCount(f, Start(f, interlaced), r);
    if interlaced { FourPasses(r - f.top); } else { NoPasses(r - f.top); }
  }

  /** Every row belongs to exactly one of the four passes of an interlaced frame. */
  lemma FourPasses(d: nat)
    ensures (if d % 8 == 0 then 1 else 0) + InLastPasses(3, d) == 1
  {
    hide InLastPasses, Pow2;
    NoPasses(d);
    OnePass(1, d, 2);
    OnePass(2, d, 4);
    OnePass(3, d, 8);
    Residues(d);
  }

  lemma OnePass(n: nat, d: nat, m: nat)
    requires 0 < n <= 3 && m == (if n == 1 then 2 else if n == 2 then 4 else 8)
    ensures InLastPasses(n, d) == InLastPasses(n - 1, d) + (if d % m == m / 2 then 1 else 0)
  {
    assert Pow2(1) == 2 && Pow2(2) == 4 && Pow2(3) == 8;
  }

  lemma Residues(d: nat)
    ensures (if d % 8 == 0 then 1 else 0) + (if d % 8 == 4 then 1 else 0) + (if d % 4 == 2 then 1 else 0) +
      (if d % 2 == 1 then 1 else 0) == 1
  {
    var q, r := d / 8, d % 8;
    Digits(2 * q + r / 4, r % 4, 4);
    Digits(4 * q + r / 2, r % 2, 2);
    assert d % 4 == r % 4 && d % 2 == r % 2;
    assert r in {0, 1, 2, 3, 4, 5, 6, 7};
  }

  lemma {:induction false} RowsWithin(f: Frame, c: Cursor, r: nat)
    requires c.step > 0 && c.row >= f.top && r in Rows(f, c)
    ensures f.top <= r < f.bottom
    decreases c.parse, f.bottom - c.row
  {
    if c.row < f.bottom {
      if r != c.row { RowsWithin(f, c.(row := c.row + c.step), r); }
    } else if c.parse > 0 {
      SkipToPass(f, c);
      RowsWithin(f, PassBegin(f, c), r);
    }
  }

  // ---------- Which row comes when ----------

  /** Every so many rows, down to the bottom. */
  function Spaced(from: nat, step: nat, bottom: nat): seq<nat>
    requires step > 0
    decreases bottom - from
  {
    if from >= bottom then [] else [from] + Spaced(from + step, step, bottom)
  }

  /** The rows of the current pass come first. */
  lemma {:induction false} PassFirst(f: Frame, c: Cursor)
    requires c.step > 0
    ensures Rows(f, c) == Spaced(c.row, c.step, f.bottom) + LaterRows(f, c)
    decreases f.bottom - c.row
  {
    hide NextPass, LaterRows;
    if c.row < f.bottom {
      PassFirst(f, c.(row := c.row + c.step));
      SameLaterRows(f, c, c.row + c.step);
    } else {
      NoneLeft(f, c);
    }
  }

  function LaterRows(f: Frame, c: Cursor): seq<nat> {
    if c.parse > 0 then Rows(f, PassBegin(f, c)) else []
  }

  lemma SameLaterRows(f: Frame, c: Cursor, row: nat)
    ensures LaterRows(f, c.(row := row)) == LaterRows(f, c)
  {
  }

  lemma NoneLeft(f: Frame, c: Cursor)
    requires c.step > 0 && c.row >= f.bottom
    ensures Rows(f, c) == LaterRows(f, c) == [] + LaterRows(f, c)
  {
    if c.parse > 0 { SkipToPass(f, c); }
  }

  /** The passes after the first one. */
  lemma PassStarts(f: Frame, c: Cursor)
    requires 0 < c.parse <= 3
    ensures PassBegin(f, c) == if c.parse == 3 then Cursor(c.x, f.top + 4, 8, 2)
      else if c.parse == 2 then Cursor(c.x, f.top + 2, 4, 1) else Cursor(c.x, f.top + 1, 2, 0)
  {
    assert Pow2(3) == 8 && Pow2(2) == 4 && Pow2(1) == 2;
  }

  /** The rows come from top to bottom, or, interlaced, in the four passes of appendix E of GIF89a: every eighth row
      from the first, every eighth from the fifth, every fourth from the third, and every second from the second. */
  lemma RowsInOrder(f: Frame)
    ensures Rows(f, Start(f, false)) == Spaced(f.top, 1, f.bottom)
    ensures Rows(f, Start(f, true)) ==
      Spaced(f.top, 8, f.bottom) +
      (Spaced(f.top + 4, 8, f.bottom) + (Spaced(f.top + 2, 4, f.bottom) + Spaced(f.top + 1, 2, f.bottom)))
  {
    hide Rows, Spaced, PassBegin;
    var first, second := Start(f, true), Cursor(f.left, f.top + 4, 8, 2);
    var third, fourth := Cursor(f.left, f.top + 2, 4, 1), Cursor(f.left, f.top + 1, 2, 0);
    PassStarts(f, first);
    PassStarts(f, second);
    PassStarts(f, third);
    PassFirst(f, Start(f, false));
    PassFirst(f, first);
    PassFirst(f, second);
    PassFirst(f, third);
    PassFirst(f, fourth);
  }

  // ---------- Every pixel once ----------

  /** The positions that are painted from a position on, until the frame is full. */
  function Order(f: Frame, c: Cursor): seq<(nat, nat)>
    requires c.step > 0 && f.left <= c.x
    decreases c.parse, f.bottom - c.row, f.right - c.x
  {
    if c.row >= f.bottom then [] else [(c.x, c.row)] + Order(f, NextPosition(f, c))
  }

  /** The rows after the current one. */
  function RestRows(f: Frame, c: Cursor): seq<nat>
    requires c.step > 0
  {
    Rows(f, c.(row := c.row + c.step))
  }

  lemma {:induction false} RowsIgnoreX(f: Frame, c: Cursor, x: nat)
    requires c.step > 0
    ensures Rows(f, c.(x := x)) == Rows(f, c)
    decreases c.parse, f.bottom - c.row
  {
    if c.row < f.bottom {
      RowsIgnoreX(f, c.(row := c.row + c.step), x);
    } else if c.parse > 0 {
      SkipToPass(f, c);
      SkipToPass(f, c.(x := x));
      RowsIgnoreX(f, PassBegin(f, c), x);
    }
  }

  /** The end of a row: the rest of the order begins with the next row, if there is one. */
  lemma NextRowStarts(f: Frame, c: Cursor)
    requires c.step > 0 && c.x + 1 >= f.right
    ensures NextPosition(f, c).step > 0 && NextPosition(f, c).x == f.left
    ensures var next := NextPosition(f, c);
            RestRows(f, c) == if next.row < f.bottom then [next.row] + RestRows(f, next) else []
  {
    hide NextPass;
    var over := c.(x := f.left, row := c.row + c.step);
    RowsSkip(f, over);
    RowsIgnoreX(f, c.(row := c.row + c.step), f.left);
  }

  /** The positions of a row, from the left. */
  function Across(f: Frame, x: nat, r: nat): seq<(nat, nat)>
    decreases f.right - x
  {
    if x >= f.right then [] else [(x, r)] + Across(f, x + 1, r)
  }

  function AcrossAll(f: Frame, rows: seq<nat>): seq<(nat, nat)> {
    if rows == [] then [] else Across(f, f.left, rows[0]) + AcrossAll(f, rows[1..])
  }

  lemma {:induction false} OrderFrom(f: Frame, c: Cursor)
    requires c.step > 0 && c.row < f.bottom && f.left <= c.x < f.right
    ensures Order(f, c) == Across(f, c.x, c.row) + AcrossAll(f, RestRows(f, c))
    decreases c.parse, f.bottom - c.row, f.right - c.x
  {
    hide NextPass, Rows;
    var next := NextPosition(f, c);
    if c.x + 1 < f.right {
      RowsIgnoreX(f, c.(row := c.row + c.step), c.x + 1);
      OrderFrom(f, next);
    } else {
      NextRowStarts(f, c);
      if next.row < f.bottom {
        OrderFrom(f, next);
        assert RestRows(f, c)[1..] == RestRows(f, next);
      }
    }
  }

  /** The rows are painted one after the other, each from the left to the right. */
  lemma OrderByRows(f: Frame, interlaced: bool)
    requires f.left < f.right && f.top < f.bottom
    ensures Order(f, Start(f, interlaced)) == AcrossAll(f, Rows(f, Start(f, interlaced)))
  {
    hide NextPass;
    var c := Start(f, interlaced);
    OrderFrom(f, c);
    assert Rows(f, c)[1..] == RestRows(f, c);
  }

  /** A position of the current row comes if it is not behind, and a position of another row comes once for each time
      that row comes. */
  lemma {:induction false} OrderCount(f: Frame, c: Cursor, x: nat, r: nat)
    requires c.step > 0 && c.row < f.bottom && f.left <= c.x < f.right && f.left <= x < f.right
    ensures multiset(Order(f, c))[(x, r)] == (if r == c.row && x >= c.x then 1 else 0) + multiset(RestRows(f, c))[r]
    decreases c.parse, f.bottom - c.row, f.right - c.x
  {
    hide NextPass, Rows;
    var next := NextPosition(f, c);
    assert Order(f, c) == [(c.x, c.row)] + Order(f, next);
    if c.x + 1 < f.right {
      RowsIgnoreX(f, c.(row := c.row + c.step), c.x + 1);
      OrderCount(f, next, x, r);
    } else {
      NextRowStarts(f, c);
      if next.row < f.bottom {
        OrderCount(f, next, x, r);
      }
    }
  }

  lemma {:induction false} OrderLength(f: Frame, c: Cursor)
    requires c.step > 0 && c.row < f.bottom && f.left <= c.x < f.right
    ensures |Order(f, c)| == f.right - c.x + (f.right - f.left) * |RestRows(f, c)|
    decreases c.parse, f.bottom - c.row, f.right - c.x
  {
    hide NextPass, Rows;
    var next := NextPosition(f, c);
    if c.x + 1 < f.right {
      RowsIgnoreX(f, c.(row := c.row + c.step), c.x + 1);
      OrderLength(f, next);
    } else {
      NextRowStarts(f, c);
      if next.row < f.bottom {
        OrderLength(f, next);
        var rest := RestRows(f, next);
        assert RestRows(f, c) == [next.row] + rest;
        assert (f.right - f.left) * (1 + |rest|) == (f.right - f.left) + (f.right - f.left) * |rest|;
      }
    }
  }

  lemma {:induction false} OrderWithin(f: Frame, c: Cursor, k: nat)
    requires c.step > 0 && f.left <= c.x && (c.row < f.bottom ==> c.x < f.right) && f.left < f.right &&
      k < |Order(f, c)|
    ensures f.left <= Order(f, c)[k].0 < f.right
    decreases k
  {
    if k > 0 {
      assert NextPosition(f, c).x == if c.x + 1 < f.right then c.x + 1 else f.left;
      OrderWithin(f, NextPosition(f, c), k - 1);
    }
  }

  // ---------- What is painted ----------

  /** The index of a position in the image. */
  function Index(f: Frame, p: (nat, nat)): nat {
    p.1 * f.width + p.0
  }

  /** No position from number k on, up to n, is the pixel i. */
  ghost predicate Spares(f: Frame, order: seq<(nat, nat)>, k: nat, n: nat, i: nat) {
    forall j :: k <= j < n && j < |order| ==> Index(f, order[j]) != i
  }

  /** Pixels that do not come in the order stay as they are. */
  lemma {:induction false} Unpainted(f: Frame, c: Canvas, symbols: seq<Byte>, i: nat)
    requires Fits(f, c) && c.cursor.step > 0 && f.left <= c.cursor.x && i < |c.pixels|
    requires Spares(f, Order(f, c.cursor), 0, |symbols|, i)
    ensures |PutAll(f, c, symbols).pixels| == |c.pixels|
    ensures PutAll(f, c, symbols).pixels[i] == c.pixels[i] && PutAll(f, c, symbols).history[i] == c.history[i]
    decreases |symbols|
  {
    hide NextPosition;
    if symbols != [] {
      if c.cursor.row < f.bottom {
        Later(f, c, symbols, 0, i);
        assert Index(f, Order(f, c.cursor)[0]) != i;
      } else {
        assert Order(f, c.cursor) == [];
      }
      Unpainted(f, Put(f, c, symbols[0]), symbols[1..], i);
    }
  }

  /** What comes after the next position is what comes from the next position on. */
  lemma Later(f: Frame, c: Canvas, symbols: seq<Byte>, k: nat, i: nat)
    requires Fits(f, c) && c.cursor.step > 0 && f.left <= c.cursor.x && c.cursor.row < f.bottom && symbols != []
    ensures Put(f, c, symbols[0]).cursor == NextPosition(f, c.cursor) && NextPosition(f, c.cursor).step > 0 &&
      f.left <= NextPosition(f, c.cursor).x
    ensures Order(f, c.cursor) == [(c.cursor.x, c.cursor.row)] + Order(f, NextPosition(f, c.cursor))
    ensures Spares(f, Order(f, c.cursor), k, |symbols|, i) ==>
              Spares(f, Order(f, NextPosition(f, c.cursor)), if k > 0 then k - 1 else 0, |symbols| - 1, i)
  {
    hide NextPass;
    var order, rest := Order(f, c.cursor), Order(f, NextPosition(f, c.cursor));
    forall j | 0 <= j < |rest| ensures order[j + 1] == rest[j] {
    }
    if Spares(f, order, k, |symbols|, i) {
      forall j | (if k > 0 then k - 1 else 0) <= j < |symbols| - 1 && j < |rest| ensures Index(f, rest[j]) != i {
        assert Index(f, order[j + 1]) != i;
      }
    }
  }

  /** A symbol is painted at its position in the order, and stays if the position does not come again. */
  lemma {:induction false} Painted(f: Frame, c: Canvas, symbols: seq<Byte>, k: nat)
    requires Fits(f, c) && c.cursor.step > 0 && f.left <= c.cursor.x && k < |symbols| && k < |Order(f, c.cursor)|
    requires Index(f, Order(f, c.cursor)[k]) < |c.pixels|
    requires Spares(f, Order(f, c.cursor), 0, k, Index(f, Order(f, c.cursor)[k]))
    requires Spares(f, Order(f, c.cursor), k + 1, |symbols|, Index(f, Order(f, c.cursor)[k]))
    ensures |PutAll(f, c, symbols).pixels| == |c.pixels|
    ensures var i := Index(f, Order(f, c.cursor)[k]);
            && PutAll(f, c, symbols).history[i] == 1
            && PutAll(f, c, symbols).pixels[i] == if f.colours[symbols[k]].a > 128 then f.colours[symbols[k]]
                 else c.pixels[i]
    decreases |symbols|
  {
    hide NextPosition;
    var i := Index(f, Order(f, c.cursor)[k]);
    Later(f, c, symbols, k + 1, i);
    var next := Put(f, c, symbols[0]);
    if k == 0 {
      Unpainted(f, next, symbols[1..], i);
    } else {
      assert Order(f, c.cursor)[k] == Order(f, next.cursor)[k - 1];
      assert Spares(f, Order(f, next.cursor), 0, k - 1, i) by {
        forall j | 0 <= j < k - 1 && j < |Order(f, next.cursor)| ensures Index(f, Order(f, next.cursor)[j]) != i {
          assert Index(f, Order(f, c.cursor)[j + 1]) != i;
        }
      }
      assert Index(f, Order(f, c.cursor)[0]) != i;
      Painted(f, next, symbols[1..], k - 1);
    }
  }

  lemma SameIndex(f: Frame, p: (nat, nat), q: (nat, nat))
    requires p.0 < f.width && q.0 < f.width && Index(f, p) == Index(f, q)
    ensures p == q
  {
    DigitsUnique(p.1, p.0, q.1, q.0, f.width);
  }

  lemma OnlyPlace<T>(s: seq<T>, e: T) returns (k: nat)
    requires multiset(s)[e] == 1
    ensures k < |s| && s[k] == e && forall j :: 0 <= j < |s| && s[j] == e ==> j == k
  {
    assert e in s;
    k :| 0 <= k < |s| && s[k] == e;
    assert s == s[..k] + [e] + s[k + 1..];
    assert multiset(s[..k])[e] == 0 && multiset(s[k + 1..])[e] == 0;
    assert e !in s[..k] && e !in s[k + 1..];
    forall j | 0 <= j < |s| && j != k ensures s[j] != e {
      assert s[j] == if j < k then s[..k][j] else s[k + 1..][j - (k + 1)];
    }
  }

  function Range(top: nat, n: nat): (s: seq<nat>)
    ensures |s| == n
  {
    if n == 0 then [] else Range(top, n - 1) + [top + n - 1]
  }

  lemma {:induction false} RangeCount(top: nat, n: nat, r: nat)
    ensures multiset(Range(top, n))[r] == if top <= r < top + n then 1 else 0
  {
    if n > 0 { RangeCount(top, n - 1, r); }
  }

  /** As many rows as the frame has. */
  lemma RowsTotal(f: Frame, interlaced: bool)
    requires f.top <= f.bottom
    ensures |Rows(f, Start(f, interlaced))| == f.bottom - f.top
  {
    hide Rows;
    var rows, range := Rows(f, Start(f, interlaced)), Range(f.top, f.bottom - f.top);
    var a: multiset<nat>, b: multiset<nat> := multiset(rows), multiset(range);
    forall r: nat ensures a[r] == b[r] {
      RangeCount(f.top, f.bottom - f.top, r);
      if r >= f.top {
        EveryRowOnce(f, interlaced, r);
      } else if r in a {
        RowsWithin(f, Start(f, interlaced), r);
      }
    }
    assert a == b && |a| == |rows| && |b| == |range|;
  }

  /** As many symbols as the frame has pixels fill it: each pixel has the colour of exactly one of them, or keeps the
      colour that it had if that symbol is transparent. */
  lemma FrameFilled(f: Frame, c: Canvas, symbols: seq<Byte>, interlaced: bool, x: nat, r: nat) returns (k: nat)
    requires Fits(f, c) && c.cursor == Start(f, interlaced) && |symbols| == (f.right - f.left) * (f.bottom - f.top)
    requires f.left <= x < f.right && f.top <= r < f.bottom
    ensures |Order(f, c.cursor)| == |symbols| && Index(f, (x, r)) < |c.pixels| == |PutAll(f, c, symbols).pixels|
    ensures k < |symbols| && Order(f, c.cursor)[k] == (x, r)
    ensures forall j :: 0 <= j < |symbols| && Order(f, c.cursor)[j] == (x, r) ==> j == k
    ensures PutAll(f, c, symbols).history[Index(f, (x, r))] == 1
    ensures PutAll(f, c, symbols).pixels[Index(f, (x, r))] ==
            if f.colours[symbols[k]].a > 128 then f.colours[symbols[k]] else c.pixels[Index(f, (x, r))]
  {
    hide Order, Rows, PutAll, NextPosition, Index, Spares;
    FullLength(f, c.cursor, interlaced);
    assert multiset(Order(f, c.cursor))[(x, r)] == 1 by {
      OrderCount(f, c.cursor, x, r);
      FirstRowFirst(f, c.cursor);
      EveryRowOnce(f, interlaced, r);
    }
    k := OnlyPlace(Order(f, c.cursor), (x, r));
    IndexBound(f, c, x, r);
    OnlyPainted(f, c.cursor, |symbols|, k);
    Painted(f, c, symbols, k);
  }

  lemma IndexBound(f: Frame, c: Canvas, x: nat, r: nat)
    requires Fits(f, c) && f.left <= x < f.right && f.top <= r < f.bottom
    ensures Index(f, (x, r)) == r * f.width + x < |c.pixels|
  {
    MulMonotone(r + 1, f.bottom, f.width);
    assert (r + 1) * f.width == r * f.width + f.width;
  }

  /** A position that comes once in the order is not the pixel of any other symbol. */
  lemma OnlyPainted(f: Frame, c: Cursor, n: nat, k: nat)
    requires c.step > 0 && f.left <= c.x < f.right <= f.width && n == |Order(f, c)| && k < n
    requires forall j :: 0 <= j < n && j != k ==> Order(f, c)[j] != Order(f, c)[k]
    ensures Spares(f, Order(f, c), 0, k, Index(f, Order(f, c)[k])) &&
      Spares(f, Order(f, c), k + 1, n, Index(f, Order(f, c)[k]))
  {
    hide Index, Order;
    OrderWithin(f, c, k);
    forall j | 0 <= j < n && j != k ensures Index(f, Order(f, c)[j]) != Index(f, Order(f, c)[k]) {
      OrderWithin(f, c, j);
      if Index(f, Order(f, c)[j]) == Index(f, Order(f, c)[k]) { SameIndex(f, Order(f, c)[j], Order(f, c)[k]); }
    }
  }

  lemma FirstRowFirst(f: Frame, c: Cursor)
    requires c.step > 0 && c.row < f.bottom
    ensures Rows(f, c) == [c.row] + RestRows(f, c)
  {
  }

  lemma FullLength(f: Frame, c: Cursor, interlaced: bool)
    requires c == Start(f, interlaced) && f.left < f.right && f.top < f.bottom
    ensures |Order(f, c)| == (f.right - f.left) * (f.bottom - f.top)
  {
    hide Order, Rows;
    OrderLength(f, c);
    FirstRowFirst(f, c);
    RowsTotal(f, interlaced);
    var w, n := f.right - f.left, |RestRows(f, c)|;
    assert w * (n + 1) == w + w * n;
  }
}
