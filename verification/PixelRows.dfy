/** Rows of pixels as sequences of equal cells, and the columns of bytes in them. */
module PixelRows {
  import opened Arithmetic
  import opened Bits

  /** Bytes lo to hi of each of the first n cells of w bytes. */
  function Columns(row: seq<Byte>, lo: nat, hi: nat, w: nat, n: nat): (s: seq<Byte>)
    requires lo <= hi <= w && n * w <= |row|
    ensures |s| == n * (hi - lo)
  {
    if n == 0 then [] else
      Step(n, w);
      Step(n, hi - lo);
      Columns(row, lo, hi, w, n - 1) + row[(n - 1) * w + lo..(n - 1) * w + hi]
  }

  lemma Step(n: nat, w: nat)
    requires n > 0
    ensures n * w == (n - 1) * w + w && (n - 1) * w >= 0
  {
  }

  lemma NoColumns(row: seq<Byte>, lo: nat, hi: nat, w: nat)
    requires lo <= hi <= w
    ensures Columns(row, lo, hi, w, 0) == [] == Opaque(0) && Swapped([]) == []
  {
  }

  /** One more cell. */
  lemma NextColumn(row: seq<Byte>, lo: nat, hi: nat, w: nat, n: nat, at: nat)
    requires lo <= hi <= w && at == n * w && at + w <= |row|
    ensures (n + 1) * w == at + w
    ensures Columns(row, lo, hi, w, n + 1) == Columns(row, lo, hi, w, n) + row[at + lo..at + hi]
  {
    Step(n + 1, w);
  }

  /** Columns depend on no byte after their last cell. */
  lemma {:induction false} ColumnsPrefix(row: seq<Byte>, row': seq<Byte>, lo: nat, hi: nat, w: nat, n: nat, at: nat)
    requires lo <= hi <= w && n * w <= at <= |row| && at <= |row'| && row[..at] == row'[..at]
    ensures Columns(row, lo, hi, w, n) == Columns(row', lo, hi, w, n)
  {
    if n > 0 {
      Step(n, w);
      var m := (n - 1) * w;
      ColumnsPrefix(row, row', lo, hi, w, n - 1, at);
      assert row[m + lo..m + hi] == row[..at][m + lo..m + hi];
      assert row'[m + lo..m + hi] == row'[..at][m + lo..m + hi];
    }
  }

  /** A byte of another column is changed. */
  lemma {:induction false} ColumnsKept(row: seq<Byte>, lo: nat, hi: nat, w: nat, n: nat, i: nat, c: nat, at: nat,
                                       v: Byte)
    requires lo <= hi <= w && n * w <= |row| && c < w && !(lo <= c < hi) && at == i * w && at + c < |row|
    ensures Columns(row[at + c := v], lo, hi, w, n) == Columns(row, lo, hi, w, n)
  {
    if n > 0 {
      Step(n, w);
      ColumnsKept(row, lo, hi, w, n - 1, i, c, at, v);
      CellsApart(n - 1, i, w);
      var m := (n - 1) * w;
      Unchanged(row, m + lo, m + hi, at + c, v);
    }
  }

  lemma Unchanged(s: seq<Byte>, lo: nat, hi: nat, k: nat, v: Byte)
    requires lo <= hi <= |s| && k < |s| && !(lo <= k < hi)
    ensures s[k := v][lo..hi] == s[lo..hi]
  {
  }

  lemma SliceOfFirst(s: seq<Byte>, t: seq<Byte>, a: nat, b: nat)
    requires a <= b <= |s|
    ensures (s + t)[a..b] == s[a..b]
  {
  }

  lemma SliceOfSecond(s: seq<Byte>, t: seq<Byte>)
    ensures (s + t)[|s|..|s| + |t|] == t
  {
  }

  /** The bytes of one cell. */
  lemma {:induction false} ColumnsOfCell(row: seq<Byte>, lo: nat, hi: nat, w: nat, n: nat, i: nat, at: nat, k: nat)
    requires lo <= hi <= w && n * w <= |row| && i < n && at == i * w && k == i * (hi - lo)
    ensures at + w <= n * w && k + (hi - lo) <= n * (hi - lo)
    ensures row[at + lo..at + hi] == Columns(row, lo, hi, w, n)[k..k + (hi - lo)]
    decreases n
  {
    Step(n, w);
    Step(n, hi - lo);
    var d, m := hi - lo, (n - 1) * w;
    if i < n - 1 {
      ColumnsOfCell(row, lo, hi, w, n - 1, i, at, k);
      SliceOfFirst(Columns(row, lo, hi, w, n - 1), row[m + lo..m + hi], k, k + d);
    } else {
      SliceOfSecond(Columns(row, lo, hi, w, n - 1), row[m + lo..m + hi]);
    }
  }

  /** All the bytes of cells of width w. */
  lemma {:induction false} WholeCells(row: seq<Byte>, w: nat, n: nat)
    requires n * w <= |row|
    ensures Columns(row, 0, w, w, n) == row[..n * w]
  {
    if n > 0 {
      Step(n, w);
      WholeCells(row, w, n - 1);
    }
  }

  /** n bytes of 255. */
  function Opaque(n: nat): (s: seq<Byte>)
    ensures |s| == n && forall k :: 0 <= k < n ==> s[k] == 255
  {
    seq(n, _ => 255)
  }

  /** A cell is filled whose bytes from lo to hi are s and whose bytes from hi on start with t. */
  lemma FillCell(was: seq<Byte>, row: seq<Byte>, lo: nat, hi: nat, w: nat, n: nat, at: nat)
    requires lo <= hi <= w && at == n * w && at + w <= |was| == |row| && was[..at] == row[..at]
    ensures Columns(row, lo, hi, w, n + 1) == Columns(was, lo, hi, w, n) + row[at + lo..at + hi]
  {
    ColumnsPrefix(was, row, lo, hi, w, n, at);
    NextColumn(row, lo, hi, w, n, at);
  }

  /** Two columns of opaque bytes side by side. */
  lemma {:induction false} OpaquePairs(row: seq<Byte>, lo: nat, w: nat, n: nat)
    requires lo + 2 <= w && n * w <= |row|
    requires Columns(row, lo, lo + 1, w, n) == Opaque(n) && Columns(row, lo + 1, lo + 2, w, n) == Opaque(n)
    ensures Columns(row, lo, lo + 2, w, n) == Opaque(2 * n)
  {
    if n > 0 {
      Step(n, w);
      var m := (n - 1) * w;
      var a, b := Columns(row, lo, lo + 1, w, n - 1), Columns(row, lo + 1, lo + 2, w, n - 1);
      assert Opaque(n)[..n - 1] == Opaque(n - 1);
      assert Opaque(n)[n - 1] == 255;
      assert a == (a + row[m + lo..m + lo + 1])[..n - 1];
      assert b == (b + row[m + lo + 1..m + lo + 2])[..n - 1];
      OpaquePairs(row, lo, w, n - 1);
    }
  }

  lemma CellBounds(i: nat, n: nat, w: nat)
    requires i < n
    ensures i * w + w <= n * w
  {
    CellsApart(i, n, w);
  }

  lemma SubSlice(s: seq<Byte>, a: nat, b: nat, c: nat, d: nat)
    requires a <= b <= |s| && c <= d <= b - a
    ensures s[a..b][c..d] == s[a + c..a + d]
  {
    forall k | 0 <= k < d - c ensures s[a..b][c..d][k] == s[a + c..a + d][k] {
      assert s[a..b][c + k] == s[a + (c + k)];
    }
  }

  /** A change within lo to hi leaves what is around it. */
  lemma Framed(s: seq<Byte>, t: seq<Byte>, lo: nat, hi: nat, a: nat, b: nat)
    requires a <= lo <= hi <= b <= |s| == |t| && s[..lo] == t[..lo] && s[hi..] == t[hi..]
    ensures s[..a] == t[..a] && s[b..] == t[b..] && s[a..b][..lo - a] == t[a..b][..lo - a]
  {
    assert s[..a] == s[..lo][..a] && t[..a] == t[..lo][..a];
    assert s[b..] == s[hi..][b - hi..] && t[b..] == t[hi..][b - hi..];
    assert s[a..b][..lo - a] == s[..lo][a..] && t[a..b][..lo - a] == t[..lo][a..];
  }

  lemma OpaqueNext(n: nat)
    ensures Opaque(n) + [255] == Opaque(n + 1)
  {
  }

  // ---------- The order of bytes ----------

  predicate Even(n: nat) {
    n % 2 == 0
  }

  /** The byte that byte i of a number of sixteen bits is exchanged with. */
  function Partner(i: nat): (k: nat) {
    if Even(i) then i + 1 else i - 1
  }

  /** The two bytes of each number of sixteen bits exchanged. */
  function Swapped(s: seq<Byte>): (r: seq<Byte>)
    ensures |r| == |s| && forall i :: 0 <= i < |s| ==> r[i] == if Partner(i) < |s| then s[Partner(i)] else s[i]
  {
    seq(|s|, i requires 0 <= i < |s| => if Partner(i) < |s| then s[Partner(i)] else s[i])
  }

  lemma SwappedSlice(s: seq<Byte>, a: nat, b: nat)
    requires Even(a) && Even(b) && a <= b <= |s|
    ensures Swapped(s)[a..b] == Swapped(s[a..b])
  {
    hide Swapped;
    forall i | 0 <= i < b - a ensures Swapped(s)[a..b][i] == Swapped(s[a..b])[i] {
      PartnerWithin(a, b, i);
    }
  }

  lemma PartnerWithin(a: nat, b: nat, i: nat)
    requires Even(a) && Even(b) && a + i < b
    ensures Partner(a + i) == a + Partner(i) < b
  {
  }

  lemma SwappedConcat(s: seq<Byte>, t: seq<Byte>)
    requires Even(|s|) && Even(|t|)
    ensures Swapped(s + t) == Swapped(s) + Swapped(t)
  {
    hide Swapped, Even;
    BothEven(|s|, |t|);
    SwappedSlice(s + t, 0, |s|);
    SwappedSlice(s + t, |s|, |s| + |t|);
    Halves(s, t);
    var all := Swapped(s + t);
    assert all == all[0..|s|] + all[|s|..|s| + |t|];
  }

  lemma BothEven(m: nat, n: nat)
    requires Even(m) && Even(n)
    ensures Even(0) && Even(m + n)
  {
  }

  lemma Halves(s: seq<Byte>, t: seq<Byte>)
    ensures (s + t)[0..|s|] == s && (s + t)[|s|..|s| + |t|] == t
  {
  }

  lemma EvenMultiple(n: nat, w: nat)
    requires Even(w)
    ensures 0 <= n * w && Even(n * w)
  {
    assert n * w == 2 * (n * (w / 2));
  }

  /** Cells of whole numbers have their columns at even places. */
  lemma EvenColumns(n: nat, w: nat, lo: nat, hi: nat)
    requires lo <= hi && Even(lo) && Even(hi) && Even(w)
    ensures 0 <= n * w && Even(n * w + lo) && Even(n * w + hi) && Even(hi - lo) && 0 <= n * (hi - lo) &&
      Even(n * (hi - lo))
  {
    hide Even;
    EvenMultiple(n, w);
    BothEven(n * w, lo);
    BothEven(n * w, hi);
    EvenDifference(lo, hi);
    EvenMultiple(n, hi - lo);
  }

  lemma EvenDifference(lo: nat, hi: nat)
    requires lo <= hi && Even(lo) && Even(hi)
    ensures Even(hi - lo)
  {
  }

  /** Columns of whole numbers are exchanged by themselves. */
  lemma {:induction false} SwappedColumns(row: seq<Byte>, lo: nat, hi: nat, w: nat, n: nat)
    requires lo <= hi <= w && n * w <= |row| && Even(lo) && Even(hi) && Even(w)
    ensures Columns(Swapped(row), lo, hi, w, n) == Swapped(Columns(row, lo, hi, w, n))
  {
    hide Swapped, Even, Columns;
    if n == 0 {
      NoColumns(row, lo, hi, w);
      NoColumns(Swapped(row), lo, hi, w);
    } else {
      Step(n, w);
      EvenColumns(n - 1, w, lo, hi);
      var m := (n - 1) * w;
      SwappedColumns(row, lo, hi, w, n - 1);
      NextColumn(row, lo, hi, w, n - 1, m);
      NextColumn(Swapped(row), lo, hi, w, n - 1, m);
      SwappedSlice(row, m + lo, m + hi);
      var before, cell := Columns(row, lo, hi, w, n - 1), row[m + lo..m + hi];
      SwappedConcat(before, cell);
      assert Columns(row, lo, hi, w, n) == before + cell;
      assert Columns(Swapped(row), lo, hi, w, n) == Swapped(before) + Swapped(cell);
    }
  }

  /** One more number is exchanged. */
  lemma SwappedNext(was: seq<Byte>, now: seq<Byte>, k: nat)
    requires Even(k) && k + 1 < |was| && now == Swapped(was)[..k] + was[k..]
    ensures |now| == |was| && now[k] == was[k] && now[k + 1] == was[k + 1]
    ensures now[k := was[k + 1]][k + 1 := was[k]] == Swapped(was)[..k + 2] + was[k + 2..]
  {
    hide Swapped;
    assert Partner(k) == k + 1 && Partner(k + 1) == k;
  }

  lemma SwappedOpaque(n: nat)
    ensures Swapped(Opaque(n)) == Opaque(n)
  {
  }
}
