/** The row loops of `stbi__create_png_image_raw`. */
module PngRows {
  import opened Bits
  import opened PixelRows
  import opened PngFilter

  /** A filter that does not look at the row above gives the same prediction whatever is there. */
  lemma PredictIgnores(f: Filter, a: Byte, b: Byte, c: Byte, b': Byte, c': Byte)
    requires NeedsPrior(f) ==> b == b' && c == c'
    ensures Predict(f, a, b, c) == Predict(f, a, b', c') && PredictFirst(f, b) == PredictFirst(f, b')
  {
  }

  /** The next byte of a row, from the bytes at the places where the loops look for the neighbours. */
  lemma RestoreNext(f: Filter, raw: seq<Byte>, prior: seq<Byte>, fb: nat, n: nat, left: Byte, up: Byte, upLeft: Byte)
    requires 0 < fb <= n < |raw| == |prior| && left == Restore(f, raw, prior, fb, n)[n - fb]
    requires NeedsPrior(f) ==> up == prior[n] && upLeft == prior[n - fb]
    ensures Restore(f, raw, prior, fb, n + 1) ==
      Restore(f, raw, prior, fb, n) + [(raw[n] + Predict(f, left, up, upLeft)) % 256]
  {
    PredictIgnores(f, left, up, upLeft, prior[n], prior[n - fb]);
  }

  /** The bytes of the first pixel of a row. */
  method FirstPixel(out: array<Byte>, raw: seq<Byte>, filter: Filter, base: nat, priorBase: int, fb: nat,
                    ghost prior: seq<Byte>)
    requires fb <= |raw| == |prior| && base + fb <= out.Length
    requires NeedsPrior(filter) ==>
      0 <= priorBase && priorBase + fb <= base && out[priorBase..priorBase + fb] == prior[..fb]
    modifies out
    ensures out[base..base + fb] == Restore(filter, raw, prior, fb, fb)
    ensures out[..base] == old(out[..base]) && out[base + fb..] == old(out[base + fb..])
  {
    for k := 0 to fb
      invariant out[base..base + k] == Restore(filter, raw, prior, fb, k)
      invariant out[..base] == old(out[..base]) && out[base + fb..] == old(out[base + fb..])
    {
      var up := if NeedsPrior(filter) then out[priorBase + k] else 0;
      assert NeedsPrior(filter) ==> up == prior[k] by {
        if NeedsPrior(filter) {
          assert out[..base][priorBase + k] == old(out[..base])[priorBase + k];
          assert old(out[priorBase..priorBase + fb])[k] == prior[..fb][k];
        }
      }
      out[base + k] := (raw[k] + PredictFirst(filter, up)) % 256;
      assert PredictFirst(filter, up) == PredictFirst(filter, prior[k]);
      assert out[base..base + k + 1] == out[base..base + k] + [out[base + k]];
    }
  }

  /** The rest of a row whose pixels have as many bytes in the output as in the input. */
  method PlainRow(out: array<Byte>, raw: seq<Byte>, filter: Filter, base: nat, priorBase: int, fb: nat,
                  ghost prior: seq<Byte>)
    requires 0 < fb <= |raw| == |prior| && base + |raw| <= out.Length
    requires NeedsPrior(filter) ==>
      0 <= priorBase && priorBase + |raw| <= base && out[priorBase..priorBase + |raw|] == prior
    requires out[base..base + fb] == Restore(filter, raw, prior, fb, fb)
    modifies out
    ensures out[base..base + |raw|] == Restore(filter, raw, prior, fb, |raw|)
    ensures out[..base] == old(out[..base]) && out[base + |raw|..] == old(out[base + |raw|..])
  {
    hide Restore, Predict;
    for k := fb to |raw|
      invariant out[base..base + k] == Restore(filter, raw, prior, fb, k)
      invariant out[..base] == old(out[..base]) && out[base + |raw|..] == old(out[base + |raw|..])
    {
      var left := out[base + k - fb];
      var up := if NeedsPrior(filter) then out[priorBase + k] else 0;
      var upLeft := if NeedsPrior(filter) then out[priorBase + k - fb] else 0;
      assert NeedsPrior(filter) ==> up == prior[k] && upLeft == prior[k - fb] by {
        if NeedsPrior(filter) {
          assert out[..base][priorBase + k] == old(out[..base])[priorBase + k];
          assert out[..base][priorBase + k - fb] == old(out[..base])[priorBase + k - fb];
          assert old(out[priorBase..priorBase + |raw|])[k] == prior[k];
          assert old(out[priorBase..priorBase + |raw|])[k - fb] == prior[k - fb];
        }
      }
      assert left == out[base..base + k][k - fb];
      out[base + k] := (raw[k] + Predict(filter, left, up, upLeft)) % 256;
      RestoreNext(filter, raw, prior, fb, k, left, up, upLeft);
      assert out[base..base + k + 1] == out[base..base + k] + [out[base + k]];
    }
  }

  // ---------- Rows that get an alpha channel ----------

  /** What the method for one pixel relies on: the pixel to the left is done, and the row above is there. */
  ghost predicate PixelReady(all: seq<Byte>, raw: seq<Byte>, filter: Filter, prior: seq<Byte>, cur: nat, priorCur: int,
                             fb: nat, ob: nat, at: nat)
    requires fb <= at && at + fb <= |raw| == |prior| && 0 < fb <= ob <= cur && cur + fb <= |all|
  {
    && all[cur - ob..cur - ob + fb] == Restore(filter, raw, prior, fb, at)[at - fb..]
    && (NeedsPrior(filter) ==>
          && ob <= priorCur && priorCur + fb <= cur
          && all[priorCur..priorCur + fb] == prior[at..at + fb]
          && all[priorCur - ob..priorCur - ob + fb] == prior[at - fb..at])
  }

  /** A byte before the pixel that is written, as a byte of the slice it was in. */
  lemma Kept(all: seq<Byte>, was: seq<Byte>, cur: nat, from: nat, k: nat, n: nat)
    requires cur <= |all| == |was| && all[..cur] == was[..cur] && from + k < cur && k < n && from + n <= |was|
    ensures all[from + k] == was[from..from + n][k]
  {
    assert all[from + k] == all[..cur][from + k] == was[..cur][from + k];
  }

  /** The neighbours of byte k of the pixel. */
  lemma PixelNeighbours(all: seq<Byte>, was: seq<Byte>, raw: seq<Byte>, filter: Filter, prior: seq<Byte>, cur: nat,
                        priorCur: int, fb: nat, ob: nat, at: nat, k: nat)
    requires fb <= at && at + fb <= |raw| == |prior| && 0 < fb <= ob <= cur && cur + fb <= |all| == |was|
    requires PixelReady(was, raw, filter, prior, cur, priorCur, fb, ob, at) && all[..cur] == was[..cur] && k < fb
    ensures all[cur + k - ob] == Restore(filter, raw, prior, fb, at)[at + k - fb]
    ensures NeedsPrior(filter) ==>
      ob <= priorCur && priorCur + fb <= cur && all[priorCur + k] == prior[at + k] &&
      all[priorCur + k - ob] == prior[at + k - fb]
  {
    hide Restore, NeedsPrior;
    Kept(all, was, cur, cur - ob, k, fb);
    TailAt(Restore(filter, raw, prior, fb, at), at - fb, k);
    if NeedsPrior(filter) {
      Kept(all, was, cur, priorCur, k, fb);
      Kept(all, was, cur, priorCur - ob, k, fb);
      SliceAt(prior, at, at + fb, k);
      SliceAt(prior, at - fb, at, k);
    }
  }

  lemma TailAt(s: seq<Byte>, from: nat, k: nat)
    requires from + k < |s|
    ensures s[from..][k] == s[from + k]
  {
  }

  lemma SliceAt(s: seq<Byte>, from: nat, to: nat, k: nat)
    requires from + k < to <= |s|
    ensures s[from..to][k] == s[from + k]
  {
  }

  /** The colour bytes of a pixel after the first, when pixels are longer in the output. */
  method AlphaPixel(out: array<Byte>, raw: seq<Byte>, filter: Filter, cur: nat, priorCur: int, fb: nat, ob: nat,
                    at: nat, ghost prior: seq<Byte>)
    requires fb <= at && at + fb <= |raw| == |prior| && 0 < fb <= ob <= cur && cur + fb <= out.Length
    requires PixelReady(out[..], raw, filter, prior, cur, priorCur, fb, ob, at)
    modifies out
    ensures Restore(filter, raw, prior, fb, at) + out[cur..cur + fb] == Restore(filter, raw, prior, fb, at + fb)
    ensures out[..cur] == old(out[..cur]) && out[cur + fb..] == old(out[cur + fb..])
  {
    hide Restore, Predict, NeedsPrior, PixelReady;
    ghost var was, done := out[..], Restore(filter, raw, prior, fb, at);
    assert done + out[cur..cur] == done;
    for k := 0 to fb
      invariant done + out[cur..cur + k] == Restore(filter, raw, prior, fb, at + k)
      invariant out[..cur] == was[..cur] && out[cur + fb..] == was[cur + fb..]
    {
      PixelNeighbours(out[..], was, raw, filter, prior, cur, priorCur, fb, ob, at, k);
      var left := out[cur + k - ob];
      var up := if NeedsPrior(filter) then out[priorCur + k] else 0;
      var upLeft := if NeedsPrior(filter) then out[priorCur + k - ob] else 0;
      assert left == (done + out[cur..cur + k])[at + k - fb];
      out[cur + k] := (raw[at + k] + Predict(filter, left, up, upLeft)) % 256;
      RestoreNext(filter, raw, prior, fb, at + k, left, up, upLeft);
      assert done + out[cur..cur + k + 1] == (done + out[cur..cur + k]) + [out[cur + k]];
    }
  }

  /** The row above as the loops find it, with the same number of bytes for each pixel. */
  ghost predicate Above(all: seq<Byte>, filter: Filter, base: nat, priorBase: int, fb: nat, ob: nat, x: nat,
                        prior: seq<Byte>)
    requires fb <= ob
  {
    NeedsPrior(filter) ==>
      && 0 <= priorBase && priorBase + x * ob <= base <= |all| && x * ob >= 0
      && Columns(all[priorBase..priorBase + x * ob], 0, fb, ob, x) == prior
  }

  lemma AboveKept(all: seq<Byte>, was: seq<Byte>, filter: Filter, base: nat, priorBase: int, fb: nat, ob: nat, x: nat,
                  prior: seq<Byte>)
    requires fb <= ob && base <= |all| == |was| && all[..base] == was[..base] &&
      Above(was, filter, base, priorBase, fb, ob, x, prior)
    ensures Above(all, filter, base, priorBase, fb, ob, x, prior)
  {
    hide Columns;
    if NeedsPrior(filter) {
      SubSlice(all, 0, base, priorBase, priorBase + x * ob);
      SubSlice(was, 0, base, priorBase, priorBase + x * ob);
    }
  }

  /** The first n of the x pixels of a row have their colours and the first byte of their alpha. */
  ghost predicate PixelsDone(all: seq<Byte>, raw: seq<Byte>, filter: Filter, prior: seq<Byte>, base: nat, fb: nat,
                             ob: nat, x: nat, n: nat)
    requires fb < ob && |raw| == |prior|
  {
    && 0 <= n * fb <= |raw| && 0 <= n * ob <= x * ob && base + x * ob <= |all|
    && Columns(all[base..base + x * ob], 0, fb, ob, n) == Restore(filter, raw, prior, fb, n * fb)
    && Columns(all[base..base + x * ob], fb, fb + 1, ob, n) == Opaque(n)
  }

  /** A pixel after the first. */
  method NextPixel(out: array<Byte>, raw: seq<Byte>, filter: Filter, cur: nat, priorCur: int, fb: nat, ob: nat, at: nat,
                   ghost base: nat, ghost priorBase: int, ghost x: nat, ghost n: nat, ghost prior: seq<Byte>)
    requires 0 < fb < ob && 0 < n < x && |raw| == |prior| == x * fb
    requires cur == base + n * ob && priorCur == priorBase + n * ob && at == n * fb
    requires Above(out[..], filter, base, priorBase, fb, ob, x, prior)
    requires PixelsDone(out[..], raw, filter, prior, base, fb, ob, x, n)
    modifies out
    ensures PixelsDone(out[..], raw, filter, prior, base, fb, ob, x, n + 1)
    ensures out[..base] == old(out[..base]) && out[base + x * ob..] == old(out[base + x * ob..])
  {
    hide PixelsDone, Above, Restore, Columns, Opaque, NeedsPrior, PixelReady;
    ghost var all := out[..];
    ReadyPixel(all, raw, filter, prior, base, priorBase, fb, ob, x, n);
    AlphaPixel(out, raw, filter, cur, priorCur, fb, ob, at, prior);
    ghost var colours := out[cur..cur + fb];
    out[cur + fb] := 255;
    PixelDone(all, out[..], raw, filter, prior, base, fb, ob, x, n, colours);
  }

  /** The pixels of a row after the first. */
  method AlphaPixels(out: array<Byte>, raw: seq<Byte>, filter: Filter, base: nat, priorBase: int, fb: nat, ob: nat,
                     x: nat, ghost prior: seq<Byte>)
    requires 0 < fb < ob && x > 0 && |raw| == |prior| == x * fb
    requires Above(out[..], filter, base, priorBase, fb, ob, x, prior)
    requires PixelsDone(out[..], raw, filter, prior, base, fb, ob, x, 1)
    modifies out
    ensures PixelsDone(out[..], raw, filter, prior, base, fb, ob, x, x)
    ensures out[..base] == old(out[..base]) && out[base + x * ob..] == old(out[base + x * ob..])
  {
    hide PixelsDone, Above, Restore, Columns, Opaque, NeedsPrior;
    var cur, priorCur, at := base + ob, priorBase + ob, fb;
    ghost var n := 1;
    assert base + x * ob <= |out[..]| by { PixelsFit(out[..], raw, filter, prior, base, fb, ob, x, 1); }
    var i := x - 1;
    while i >= 1
      invariant 0 <= i && n + i == x && n >= 1
      invariant cur == base + n * ob && priorCur == priorBase + n * ob && at == n * fb
      invariant PixelsDone(out[..], raw, filter, prior, base, fb, ob, x, n)
      invariant out[..base] == old(out[..base]) && out[base + x * ob..] == old(out[base + x * ob..])
    {
      AboveKept(out[..], old(out[..]), filter, base, priorBase, fb, ob, x, prior);
      NextPixel(out, raw, filter, cur, priorCur, fb, ob, at, base, priorBase, x, n, prior);
      Step(n + 1, ob);
      Step(n + 1, fb);
      i, cur, at, priorCur := i - 1, cur + ob, at + fb, priorCur + ob;
      n := n + 1;
    }
  }

  lemma PixelsFit(all: seq<Byte>, raw: seq<Byte>, filter: Filter, prior: seq<Byte>, base: nat, fb: nat, ob: nat, x: nat,
                  n: nat)
    requires fb < ob && |raw| == |prior| && PixelsDone(all, raw, filter, prior, base, fb, ob, x, n)
    ensures x * ob >= 0 && base + x * ob <= |all|
  {
  }

  /** The bytes to the left of pixel n. */
  lemma LeftCell(all: seq<Byte>, raw: seq<Byte>, filter: Filter, prior: seq<Byte>, base: nat, fb: nat, ob: nat, x: nat,
                 n: nat)
    requires 0 < fb < ob && 0 < n < x && |raw| == |prior| == x * fb &&
      PixelsDone(all, raw, filter, prior, base, fb, ob, x, n)
    ensures n * ob >= ob && n * fb >= fb && n * ob + ob <= x * ob && n * fb + fb <= x * fb && base + x * ob <= |all|
    ensures all[base + n * ob - ob..base + n * ob - ob + fb] == Restore(filter, raw, prior, fb, n * fb)[n * fb - fb..]
  {
    hide Columns, Restore, Opaque;
    Step(n, ob);
    Step(n, fb);
    CellBounds(n, x, ob);
    CellBounds(n, x, fb);
    var c := n * ob;
    ColumnsOfCell(all[base..base + x * ob], 0, fb, ob, n, n - 1, c - ob, n * fb - fb);
    SubSlice(all, base, base + x * ob, c - ob, c - ob + fb);
  }

  /** The pixel above and the one to its left. */
  lemma PriorCells(all: seq<Byte>, filter: Filter, prior: seq<Byte>, base: nat, priorBase: int, fb: nat, ob: nat,
                   n: nat, x: nat)
    requires 0 < fb < ob && 0 < n < x && |prior| == x * fb
    requires Above(all, filter, base, priorBase, fb, ob, x, prior)
    ensures NeedsPrior(filter) ==>
      var p := priorBase + n * ob;
      && n * ob >= ob && n * fb >= fb && n * fb + fb <= |prior| && base <= |all|
      && ob <= p && p + fb <= base
      && all[p..p + fb] == prior[n * fb..n * fb + fb] && all[p - ob..p - ob + fb] == prior[n * fb - fb..n * fb]
  {
    hide Columns;
    if NeedsPrior(filter) {
      Step(n, ob);
      Step(n, fb);
      CellBounds(n, x, ob);
      CellBounds(n, x, fb);
      var before, c := all[priorBase..priorBase + x * ob], n * ob;
      ColumnsOfCell(before, 0, fb, ob, x, n, c, n * fb);
      ColumnsOfCell(before, 0, fb, ob, x, n - 1, c - ob, n * fb - fb);
      SubSlice(all, priorBase, priorBase + x * ob, c, c + fb);
      SubSlice(all, priorBase, priorBase + x * ob, c - ob, c - ob + fb);
    }
  }

  lemma ReadyPixel(all: seq<Byte>, raw: seq<Byte>, filter: Filter, prior: seq<Byte>, base: nat, priorBase: int, fb: nat,
                   ob: nat, x: nat, n: nat)
    requires 0 < fb < ob && 0 < n < x && |raw| == |prior| == x * fb
    requires PixelsDone(all, raw, filter, prior, base, fb, ob, x, n) &&
      Above(all, filter, base, priorBase, fb, ob, x, prior)
    ensures n * ob >= ob && n * fb >= fb && n * ob + ob <= x * ob && n * fb + fb <= x * fb && base + x * ob <= |all|
    ensures PixelReady(all, raw, filter, prior, base + n * ob, priorBase + n * ob, fb, ob, n * fb)
  {
    hide PixelsDone, Above, Restore, Columns, NeedsPrior;
    LeftCell(all, raw, filter, prior, base, fb, ob, x, n);
    PriorCells(all, filter, prior, base, priorBase, fb, ob, n, x);
  }

  /** One more pixel of a row is done. */
  lemma PixelDone(was: seq<Byte>, all: seq<Byte>, raw: seq<Byte>, filter: Filter, prior: seq<Byte>, base: nat, fb: nat,
                  ob: nat, x: nat, n: nat, colours: seq<Byte>)
    requires 0 < fb < ob && n < x && |raw| == |prior| == x * fb &&
      PixelsDone(was, raw, filter, prior, base, fb, ob, x, n)
    requires n * ob >= 0 && n * ob + ob <= x * ob && n * fb >= 0 && n * fb + fb <= x * fb &&
      base + x * ob <= |all| == |was|
    requires var cur := base + n * ob;
      && all[..cur] == was[..cur] && all[cur + fb + 1..] == was[cur + fb + 1..] && all[cur..cur + fb] == colours &&
           all[cur + fb] == 255
    requires Restore(filter, raw, prior, fb, n * fb) + colours == Restore(filter, raw, prior, fb, n * fb + fb)
    ensures PixelsDone(all, raw, filter, prior, base, fb, ob, x, n + 1)
    ensures all[..base] == was[..base] && all[base + x * ob..] == was[base + x * ob..]
  {
    hide Columns, Restore, Opaque;
    var c, end := n * ob, base + x * ob;
    CellWritten(was, all, base, end, c, fb, colours);
    FillCell(was[base..end], all[base..end], 0, fb, ob, n, c);
    FillCell(was[base..end], all[base..end], fb, fb + 1, ob, n, c);
    OpaqueNext(n);
    Step(n + 1, fb);
    Step(n + 1, ob);
  }

  /** The bytes of a row around and in the cell that has been written. */
  lemma CellWritten(was: seq<Byte>, all: seq<Byte>, base: nat, end: nat, c: nat, fb: nat, colours: seq<Byte>)
    requires base <= end <= |all| == |was| && base + c + fb + 1 <= end
    requires all[..base + c] == was[..base + c] && all[base + c + fb + 1..] == was[base + c + fb + 1..]
    requires all[base + c..base + c + fb] == colours && all[base + c + fb] == 255
    ensures all[base..end][..c] == was[base..end][..c]
    ensures all[base..end][c..c + fb] == colours && all[base..end][c + fb..c + fb + 1] == [255]
    ensures all[..base] == was[..base] && all[end..] == was[end..]
  {
    Framed(all, was, base + c, base + c + fb + 1, base, end);
    SubSlice(all, base, end, c, c + fb);
  }

  /** A finished row: its colour bytes are row, and every other byte of its n pixels is opaque alpha. */
  ghost predicate RowAt(all: seq<Byte>, base: nat, fb: nat, ob: nat, n: nat, row: seq<Byte>)
    requires fb <= ob
  {
    && 0 <= n * ob && base + n * ob <= |all|
    && Columns(all[base..base + n * ob], 0, fb, ob, n) == row
    && Columns(all[base..base + n * ob], fb, ob, ob, n) == Opaque(n * (ob - fb))
  }

  lemma RowKept(was: seq<Byte>, all: seq<Byte>, end: nat, base: nat, fb: nat, ob: nat, n: nat, row: seq<Byte>)
    requires fb <= ob && RowAt(was, base, fb, ob, n, row) && base + n * ob <= end <= |all| == |was| &&
      all[..end] == was[..end]
    ensures RowAt(all, base, fb, ob, n, row)
  {
    hide Columns;
    SubSlice(all, 0, end, base, base + n * ob);
    SubSlice(was, 0, end, base, base + n * ob);
  }

  /** Exchanging the bytes of sixteen-bit samples leaves alpha opaque. */
  lemma SwappedRow(all: seq<Byte>, base: nat, fb: nat, ob: nat, n: nat, row: seq<Byte>)
    requires fb <= ob && RowAt(all, base, fb, ob, n, row) && Even(base) && Even(fb) && Even(ob)
    ensures RowAt(Swapped(all), base, fb, ob, n, Swapped(row))
  {
    hide Columns, Swapped, Opaque, Even;
    EvenMultiple(n, ob);
    BothEven(base, n * ob);
    SwappedSlice(all, base, base + n * ob);
    var cells := all[base..base + n * ob];
    SwappedColumns(cells, 0, fb, ob, n);
    SwappedColumns(cells, fb, ob, ob, n);
    SwappedOpaque(n * (ob - fb));
  }

  /** The pass that sets the second alpha byte of 16-bit pixels. */
  method SetLowBytes(out: array<Byte>, raw: seq<Byte>, filter: Filter, ghost prior: seq<Byte>, base: nat, fb: nat,
                     ob: nat, x: nat)
    requires ob == fb + 2 && |raw| == |prior| == x * fb && PixelsDone(out[..], raw, filter, prior, base, fb, ob, x, x)
    modifies out
    ensures RowAt(out[..], base, fb, ob, x, Restore(filter, raw, prior, fb, |raw|))
    ensures out[..base] == old(out[..base]) && out[base + x * ob..] == old(out[base + x * ob..])
  {
    hide PixelsDone, RowAt, Restore, Columns, Opaque;
    PixelsFit(out[..], raw, filter, prior, base, fb, ob, x, x);
    var cur := base;
    NoLowBytes(out[..], base, fb, ob, x);
    for i := 0 to x
      invariant cur == base + i * ob
      invariant PixelsDone(out[..], raw, filter, prior, base, fb, ob, x, x)
      invariant LowBytesSet(out[..], base, fb, ob, x, i)
      invariant out[..base] == old(out[..base]) && out[base + x * ob..] == old(out[base + x * ob..])
    {
      ghost var was := out[..];
      CellBounds(i, x, ob);
      Step(i + 1, ob);
      out[cur + fb + 1] := 255;
      assert out[..] == was[cur + fb + 1 := 255];
      LowByteSet(was, raw, filter, prior, base, fb, ob, x, i);
      Framed(was, out[..], cur + fb + 1, cur + fb + 2, base, base + x * ob);
      cur := cur + ob;
    }
    AllAlpha(out[..], raw, filter, prior, base, fb, ob, x);
  }

  ghost predicate LowBytesSet(all: seq<Byte>, base: nat, fb: nat, ob: nat, x: nat, i: nat) {
    ob == fb + 2 && 0 <= i * ob <= x * ob && base + x * ob <= |all| &&
      Columns(all[base..base + x * ob], fb + 1, fb + 2, ob, i) == Opaque(i)
  }

  lemma NoLowBytes(all: seq<Byte>, base: nat, fb: nat, ob: nat, x: nat)
    requires ob == fb + 2 && 0 <= x * ob && base + x * ob <= |all|
    ensures LowBytesSet(all, base, fb, ob, x, 0)
  {
  }

  lemma LowByteSet(was: seq<Byte>, raw: seq<Byte>, filter: Filter, prior: seq<Byte>, base: nat, fb: nat, ob: nat,
                   x: nat, i: nat)
    requires ob == fb + 2 && i < x && |raw| == |prior| && 0 <= i * ob && i * ob + ob <= x * ob && base + x * ob <= |was|
    requires PixelsDone(was, raw, filter, prior, base, fb, ob, x, x) && LowBytesSet(was, base, fb, ob, x, i)
    ensures PixelsDone(was[base + i * ob + fb + 1 := 255], raw, filter, prior, base, fb, ob, x, x)
    ensures LowBytesSet(was[base + i * ob + fb + 1 := 255], base, fb, ob, x, i + 1)
  {
    hide Restore, Columns, Opaque;
    var at, end := i * ob, base + x * ob;
    var row, all := was[base..end], was[base + at + fb + 1 := 255];
    assert all[base..end] == row[at + fb + 1 := 255];
    ColumnsKept(row, 0, fb, ob, x, i, fb + 1, at, 255);
    ColumnsKept(row, fb, fb + 1, ob, x, i, fb + 1, at, 255);
    assert row[..at] == row[at + fb + 1 := 255][..at];
    FillCell(row, row[at + fb + 1 := 255], fb + 1, fb + 2, ob, i, at);
    assert row[at + fb + 1 := 255][at + fb + 1..at + fb + 2] == [255];
    OpaqueNext(i);
    Step(i + 1, ob);
  }

  lemma AllAlpha(all: seq<Byte>, raw: seq<Byte>, filter: Filter, prior: seq<Byte>, base: nat, fb: nat, ob: nat, x: nat)
    requires ob == fb + 2 && |raw| == |prior| == x * fb
    requires PixelsDone(all, raw, filter, prior, base, fb, ob, x, x) && LowBytesSet(all, base, fb, ob, x, x)
    ensures RowAt(all, base, fb, ob, x, Restore(filter, raw, prior, fb, |raw|))
  {
    hide Restore, Columns, Opaque;
    OpaquePairs(all[base..base + x * ob], fb, ob, x);
    assert x * (ob - fb) == 2 * x;
  }

  lemma OneAlpha(all: seq<Byte>, raw: seq<Byte>, filter: Filter, prior: seq<Byte>, base: nat, fb: nat, ob: nat, x: nat)
    requires ob == fb + 1 && |raw| == |prior| == x * fb && PixelsDone(all, raw, filter, prior, base, fb, ob, x, x)
    ensures RowAt(all, base, fb, ob, x, Restore(filter, raw, prior, fb, |raw|))
  {
  }

  /** A row without alpha is the bytes themselves. */
  lemma NoAlpha(all: seq<Byte>, base: nat, fb: nat, n: nat, row: seq<Byte>)
    requires 0 <= n * fb && base + n * fb <= |all|
    ensures RowAt(all, base, fb, fb, n, row) <==> all[base..base + n * fb] == row
  {
    WholeCells(all[base..base + n * fb], fb, n);
    Nothing(all[base..base + n * fb], fb, fb, n);
    assert all[base..base + n * fb][..n * fb] == all[base..base + n * fb];
  }

  lemma Nothing(row: seq<Byte>, lo: nat, w: nat, n: nat)
    requires lo <= w && n * w <= |row|
    ensures Columns(row, lo, lo, w, n) == Opaque(n * (lo - lo)) == []
  {
  }

  /** The first pixel of a row is one of its n pixels. */
  lemma FirstDone(all: seq<Byte>, raw: seq<Byte>, filter: Filter, prior: seq<Byte>, base: nat, fb: nat, ob: nat, x: nat)
    requires 0 < fb < ob && x > 0 && |raw| == |prior| == x * fb && 0 <= x * ob && base + x * ob <= |all|
    requires ob <= x * ob && fb <= x * fb && all[base..base + fb] == Restore(filter, raw, prior, fb, fb) &&
      all[base + fb] == 255
    ensures PixelsDone(all, raw, filter, prior, base, fb, ob, x, 1)
  {
    hide Restore;
    var row := all[base..base + x * ob];
    FillCell(row, row, 0, fb, ob, 0, 0);
    FillCell(row, row, fb, fb + 1, ob, 0, 0);
    SubSlice(all, base, base + x * ob, 0, fb);
    assert row[fb] == all[base + fb];
    assert row[fb..fb + 1] == [255];
    assert Opaque(1) == [255];
    assert [] + row[0..fb] == row[0..fb];
  }

  /** The bytes above the first pixel, and above the whole row when there is no alpha. */
  lemma AboveFirst(all: seq<Byte>, filter: Filter, base: nat, priorBase: int, fb: nat, ob: nat, n: nat,
                   prior: seq<Byte>)
    requires 0 < fb <= ob && n > 0 && Above(all, filter, base, priorBase, fb, ob, n, prior) && |prior| == n * fb
    ensures NeedsPrior(filter) ==>
      0 <= priorBase && priorBase + fb <= base <= |all| && fb <= |prior| &&
      all[priorBase..priorBase + fb] == prior[..fb]
    ensures NeedsPrior(filter) && fb == ob ==>
      priorBase + |prior| <= base && all[priorBase..priorBase + |prior|] == prior
  {
    hide Columns;
    if NeedsPrior(filter) {
      var row := all[priorBase..priorBase + n * ob];
      CellBounds(0, n, ob);
      CellBounds(0, n, fb);
      ColumnsOfCell(row, 0, fb, ob, n, 0, 0, 0);
      SubSlice(all, priorBase, priorBase + n * ob, 0, fb);
      if fb == ob {
        WholeCells(row, fb, n);
      }
    }
  }

  /** One row: its filter, its first pixel, and the loops for the rest. */
  method UnfilterRow(out: array<Byte>, raw: seq<Byte>, filter: Filter, base: nat, priorBase: int, fb: nat, ob: nat,
                     n: nat, ghost prior: seq<Byte>)
    requires 0 < fb <= ob <= fb + 2 && n > 0 && |raw| == |prior| == n * fb && 0 <= n * ob && base + n * ob <= out.Length
    requires Above(out[..], filter, base, priorBase, fb, ob, n, prior)
    modifies out
    ensures RowAt(out[..], base, fb, ob, n, Restore(filter, raw, prior, fb, |raw|))
    ensures out[..base] == old(out[..base]) && out[base + n * ob..] == old(out[base + n * ob..])
  {
    hide Restore, Columns, Opaque, RowAt, PixelsDone, Above, NeedsPrior;
    ghost var was, end := out[..], base + n * ob;
    CellBounds(0, n, ob);
    CellBounds(0, n, fb);
    AboveFirst(was, filter, base, priorBase, fb, ob, n, prior);
    FirstPixel(out, raw, filter, base, priorBase, fb, prior);
    Framed(was, out[..], base, base + fb, base, end);
    if fb == ob {
      AboveKept(out[..], was, filter, base, priorBase, fb, ob, n, prior);
      AboveFirst(out[..], filter, base, priorBase, fb, ob, n, prior);
      PlainRow(out, raw, filter, base, priorBase, fb, prior);
      NoAlpha(out[..], base, fb, n, Restore(filter, raw, prior, fb, |raw|));
    } else {
      out[base + fb] := 255;
      if ob == fb + 2 {
        out[base + fb + 1] := 255;
      }
      Framed(was, out[..], base, base + ob, base, end);
      FirstDone(out[..], raw, filter, prior, base, fb, ob, n);
      AboveKept(out[..], was, filter, base, priorBase, fb, ob, n, prior);
      AlphaPixels(out, raw, filter, base, priorBase, fb, ob, n, prior);
      if ob == fb + 2 {
        SetLowBytes(out, raw, filter, prior, base, fb, ob, n);
      } else {
        OneAlpha(out[..], raw, filter, prior, base, fb, ob, n);
      }
    }
  }
}
