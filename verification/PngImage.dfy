/** `stbi__create_png_image_raw`: from the filtered bytes of an image to its rows of pixels. */
module PngImage {
  import opened Arithmetic
  import opened Bits
  import opened PixelRows
  import opened PngFilter
  import opened PngRows
  import opened PngUnpack

  // ---------- The filtered encoding of an image ----------

  /** The filter type in front of row j, when rows have w bytes. */
  function TypeOf(raw: seq<Byte>, w: nat, j: nat): (t: Byte)
    requires (j + 1) * (w + 1) <= |raw|
  {
    Step(j + 1, w + 1);
    raw[j * (w + 1)]
  }

  /** The filtered bytes of row j. */
  function BytesOf(raw: seq<Byte>, w: nat, j: nat): (s: seq<Byte>)
    requires (j + 1) * (w + 1) <= |raw|
    ensures |s| == w
  {
    Step(j + 1, w + 1);
    raw[j * (w + 1) + 1..(j + 1) * (w + 1)]
  }

  /** The first n rows are there and have one of the five filter types. */
  ghost predicate Filters(raw: seq<Byte>, w: nat, n: nat) {
    0 <= n * (w + 1) <= |raw| && forall j :: 0 <= j < n ==> Known(raw, w, j)
  }

  ghost predicate Known(raw: seq<Byte>, w: nat, j: nat) {
    (j + 1) * (w + 1) <= |raw| && TypeOf(raw, w, j) <= 4
  }

  /** The row above row j: zeros for the first one. */
  function RowAbove(rows: seq<seq<Byte>>, w: nat, j: nat): seq<Byte>
    requires j <= |rows|
  {
    if j == 0 then Zeros(w) else rows[j - 1]
  }

  /** The bytes raw are those of an image, each row filtered with some filter against the row above (section 6 of RFC
      2083). */
  ghost predicate Encodes(raw: seq<Byte>, w: nat, bpp: nat, rows: seq<seq<Byte>>) {
    && (forall j :: 0 <= j < |rows| ==> |rows[j]| == w)
    && Filters(raw, w, |rows|)
    && forall j :: 0 <= j < |rows| ==> RowEncodes(raw, w, bpp, rows, j)
  }

  ghost predicate RowEncodes(raw: seq<Byte>, w: nat, bpp: nat, rows: seq<seq<Byte>>, j: nat)
    requires j < |rows| && (forall j :: 0 <= j < |rows| ==> |rows[j]| == w)
  {
    Known(raw, w, j) && BytesOf(raw, w, j) == FilterRow(TypeOf(raw, w, j), rows[j], RowAbove(rows, w, j), bpp)
  }

  /** The first n rows, decoded one after the other. */
  ghost function Decoded(raw: seq<Byte>, w: nat, bpp: nat, n: nat): (rows: seq<seq<Byte>>)
    requires Filters(raw, w, n)
    ensures |rows| == n && forall j :: 0 <= j < n ==> |rows[j]| == w
  {
    if n == 0 then [] else
      FiltersPrefix(raw, w, n - 1, n);
      assert Known(raw, w, n - 1);
      var rows := Decoded(raw, w, bpp, n - 1);
      rows + [
        Restore(RowFilter(TypeOf(raw, w, n - 1), n == 1), BytesOf(raw, w, n - 1), RowAbove(rows, w, n - 1), bpp, w)]
  }

  lemma FiltersPrefix(raw: seq<Byte>, w: nat, m: nat, n: nat)
    requires m <= n && Filters(raw, w, n)
    ensures Filters(raw, w, m)
  {
    hide Known;
    MulMonotone(m, n, w + 1);
  }

  lemma KnownType(raw: seq<Byte>, w: nat, j: nat)
    requires Known(raw, w, j)
    ensures (j + 1) * (w + 1) <= |raw| && TypeOf(raw, w, j) <= 4
  {
  }

  /** Row n of the image from the rows above. */
  lemma DecodedNext(raw: seq<Byte>, w: nat, bpp: nat, n: nat)
    requires Filters(raw, w, n + 1)
    ensures Known(raw, w, n) && Filters(raw, w, n)
    ensures Decoded(raw, w, bpp, n + 1) == Decoded(raw, w, bpp, n) + [
        Restore(RowFilter(TypeOf(raw, w, n), n == 0), BytesOf(raw, w, n), RowAbove(Decoded(raw, w, bpp, n), w, n),
          bpp, w)]
  {
    hide Restore, RowFilter;
    FiltersPrefix(raw, w, n, n + 1);
  }

  /** Filtering a restored row gives back the bytes: restoring is the inverse of filtering in this direction too. */
  lemma FilterRestored(t: nat, raw: seq<Byte>, prior: seq<Byte>, bpp: nat, first: bool)
    requires t <= 4 && |raw| == |prior| && bpp > 0 && (first ==> prior == Zeros(|raw|))
    ensures FilterRow(t, Restore(RowFilter(t, first), raw, prior, bpp, |raw|), prior, bpp) == raw
  {
    var f := RowFilter(t, first);
    var row := Restore(f, raw, prior, bpp, |raw|);
    forall k | 0 <= k < |raw| ensures Filtered(t, row, prior, bpp, k) == raw[k] {
      FilteredRestored(t, raw, row, prior, bpp, first, k);
    }
  }

  lemma FilteredRestored(t: nat, raw: seq<Byte>, row: seq<Byte>, prior: seq<Byte>, bpp: nat, first: bool, k: nat)
    requires t <= 4 && k < |raw| == |prior| && bpp > 0 && (first ==> prior == Zeros(|raw|))
    requires row == Restore(RowFilter(t, first), raw, prior, bpp, |raw|)
    ensures Filtered(t, row, prior, bpp, k) == raw[k]
  {
    hide Predict, PredictFirst, Restore;
    RestoredAt(RowFilter(t, first), raw, prior, bpp, k);
    var a, b, c := Neighbour(row, k, bpp), prior[k], Neighbour(prior, k, bpp);
    SyntheticFilters(t, a, b, c);
    SyntheticFilters(t, 0, b, 0);
    assert Neighbour(row[..k], k, bpp) == a;
    Redo(raw[k], Predict(FilterOf(t), a, b, c));
  }

  lemma RestoredAt(f: Filter, raw: seq<Byte>, prior: seq<Byte>, bpp: nat, k: nat)
    requires k < |raw| == |prior|
    ensures var row := Restore(f, raw, prior, bpp, |raw|); row[k] == Restored(f, raw, row[..k], prior, bpp, k)
  {
    hide Restored;
    RestorePrefix(f, raw, prior, bpp, k + 1, |raw|);
    RestorePrefix(f, raw, prior, bpp, k, |raw|);
    assert Restore(f, raw, prior, bpp, |raw|)[k] == Restore(f, raw, prior, bpp, |raw|)[..k + 1][k];
  }

  lemma Redo(x: Byte, p: Byte)
    ensures ((x + p) % 256 - p) % 256 == x
  {
  }

  /** One more row is encoded. */
  lemma EncodesNext(raw: seq<Byte>, w: nat, bpp: nat, rows: seq<seq<Byte>>, row: seq<Byte>)
    requires Encodes(raw, w, bpp, rows) && Filters(raw, w, |rows| + 1) && Known(raw, w, |rows|) && |row| == w &&
      |RowAbove(rows, w, |rows|)| == w
    requires BytesOf(raw, w, |rows|) == FilterRow(TypeOf(raw, w, |rows|), row, RowAbove(rows, w, |rows|), bpp)
    ensures Encodes(raw, w, bpp, rows + [row])
  {
    hide FilterRow, Known, Filters;
    var more := rows + [row];
    forall j | 0 <= j < |more| ensures RowEncodes(raw, w, bpp, more, j) {
      assert RowAbove(more, w, j) == RowAbove(rows, w, j);
      if j < |rows| {
        assert RowEncodes(raw, w, bpp, rows, j);
      }
    }
  }

  /** Every sequence of rows with known filter types is the encoding of the image decoded from it. */
  lemma {:induction false} DecodedEncodes(raw: seq<Byte>, w: nat, bpp: nat, n: nat)
    requires Filters(raw, w, n) && bpp > 0
    ensures Encodes(raw, w, bpp, Decoded(raw, w, bpp, n))
  {
    hide Restore, FilterRow, Known, RowFilter, RowEncodes, Filters, Decoded;
    if n == 0 {
      NoRows(raw, w, bpp);
    } else {
      DecodedNext(raw, w, bpp, n - 1);
      DecodedEncodes(raw, w, bpp, n - 1);
      var rows := Decoded(raw, w, bpp, n - 1);
      KnownType(raw, w, n - 1);
      FilterRestored(TypeOf(raw, w, n - 1), BytesOf(raw, w, n - 1), RowAbove(rows, w, n - 1), bpp, n == 1);
      EncodesNext(raw, w, bpp, rows, Decoded(raw, w, bpp, n)[n - 1]);
    }
  }

  lemma NoRows(raw: seq<Byte>, w: nat, bpp: nat)
    ensures Filters(raw, w, 0) && Decoded(raw, w, bpp, 0) == []
  {
  }

  lemma EncodesPrefix(raw: seq<Byte>, w: nat, bpp: nat, rows: seq<seq<Byte>>, n: nat)
    requires Encodes(raw, w, bpp, rows) && n <= |rows|
    ensures Encodes(raw, w, bpp, rows[..n])
  {
    hide FilterRow, Known, Filters;
    var less := rows[..n];
    FiltersPrefix(raw, w, n, |rows|);
    forall j | 0 <= j < n ensures RowEncodes(raw, w, bpp, less, j) {
      assert RowEncodes(raw, w, bpp, rows, j);
      assert RowAbove(less, w, j) == RowAbove(rows, w, j);
    }
  }

  /** A row that is encoded is restored. */
  lemma EncodedRow(raw: seq<Byte>, w: nat, bpp: nat, rows: seq<seq<Byte>>, j: nat)
    requires Encodes(raw, w, bpp, rows) && bpp > 0 && j < |rows|
    ensures Known(raw, w, j) && |RowAbove(rows, w, j)| == w
    ensures Restore(RowFilter(TypeOf(raw, w, j), j == 0), BytesOf(raw, w, j), RowAbove(rows, w, j), bpp, w) == rows[j]
  {
    hide Restore, FilterRow, RowFilter, Filters;
    assert RowEncodes(raw, w, bpp, rows, j);
    RestoreRow(TypeOf(raw, w, j), rows[j], RowAbove(rows, w, j), bpp, j == 0, w);
    assert rows[j][..w] == rows[j];
  }

  /** Every decoded byte is the one in the stream plus the prediction of the row's filter type from the decoded bytes to
      the left, above and to the upper left, which count as zeros outside the image. */
  lemma DecodedByte(raw: seq<Byte>, w: nat, bpp: nat, n: nat, j: nat, k: nat) returns (p: Byte)
    requires Filters(raw, w, n) && bpp > 0 && j < n && k < w
    ensures Known(raw, w, j)
    ensures var rows := Decoded(raw, w, bpp, n); var above := RowAbove(rows, w, j);
      && |above| == w && Predicts(TypeOf(raw, w, j), Neighbour(rows[j], k, bpp), above[k], Neighbour(above, k, bpp), p)
      && rows[j][k] == (BytesOf(raw, w, j)[k] + p) % 256
  {
    hide Decoded, Predict, Predicts, Nearest;
    DecodedEncodes(raw, w, bpp, n);
    var rows := Decoded(raw, w, bpp, n);
    var above, t := RowAbove(rows, w, j), TypeOf(raw, w, j);
    assert RowEncodes(raw, w, bpp, rows, j);
    var left, up, corner := Neighbour(rows[j], k, bpp), above[k], Neighbour(above, k, bpp);
    p := Predict(FilterOf(t), left, up, corner);
    PredictorOnly(t, left, up, corner, p);
    assert BytesOf(raw, w, j)[k] == Filtered(t, rows[j], above, bpp, k);
    Undo(rows[j][k], p);
  }

  /** Unfiltering inverts filtering, for every image and every choice of filters: the rows that raw encodes are the rows
      decoded from it. */
  lemma {:induction false} UnfilterInverts(raw: seq<Byte>, w: nat, bpp: nat, rows: seq<seq<Byte>>)
    requires Encodes(raw, w, bpp, rows) && bpp > 0
    ensures Decoded(raw, w, bpp, |rows|) == rows
    decreases |rows|
  {
    hide Restore, Known, RowFilter, RowEncodes, Decoded;
    if rows == [] {
      NoRows(raw, w, bpp);
    } else {
      var n := |rows| - 1;
      EncodesPrefix(raw, w, bpp, rows, n);
      UnfilterInverts(raw, w, bpp, rows[..n]);
      EncodedRow(raw, w, bpp, rows, n);
      assert RowAbove(rows, w, n) == RowAbove(rows[..n], w, n);
      DecodedNext(raw, w, bpp, n);
      assert rows == rows[..n] + [rows[n]];
    }
  }

  // ---------- The loop over the rows ----------

  /** Row j of an image starts off bytes after j * stride. */
  ghost predicate ImageRow(all: seq<Byte>, fb: nat, ob: nat, n: nat, stride: nat, off: nat, rows: seq<seq<Byte>>,
                           j: nat)
    requires fb <= ob && j < |rows|
  {
    0 <= j * stride && RowAt(all, j * stride + off, fb, ob, n, rows[j])
  }

  /** The first rows of the output have the colours of rows, n pixels each, and opaque alpha. */
  ghost predicate RowsAt(all: seq<Byte>, fb: nat, ob: nat, n: nat, stride: nat, off: nat, rows: seq<seq<Byte>>)
    requires fb <= ob
  {
    forall j :: 0 <= j < |rows| ==> ImageRow(all, fb, ob, n, stride, off, rows, j)
  }

  /** A row is added after the ones that are there. */
  lemma RowAdded(was: seq<Byte>, all: seq<Byte>, fb: nat, ob: nat, n: nat, stride: nat, off: nat, rows: seq<seq<Byte>>,
                 row: seq<Byte>)
    requires fb <= ob && RowsAt(was, fb, ob, n, stride, off, rows) && 0 <= n * ob && off + n * ob == stride
    requires 0 <= |rows| * stride && |rows| * stride + off <= |all| == |was|
    requires all[..|rows| * stride + off] == was[..|rows| * stride + off] &&
      RowAt(all, |rows| * stride + off, fb, ob, n, row)
    ensures RowsAt(all, fb, ob, n, stride, off, rows + [row])
  {
    hide RowAt;
    forall j | 0 <= j <= |rows| ensures ImageRow(all, fb, ob, n, stride, off, rows + [row], j) {
      if j < |rows| {
        assert ImageRow(was, fb, ob, n, stride, off, rows, j);
        CellBounds(j, |rows|, stride);
        RowKept(was, all, |rows| * stride + off, j * stride + off, fb, ob, n, rows[j]);
      }
    }
  }

  /** The row above, as the loops for row j find it in the output. */
  lemma AboveRow(all: seq<Byte>, filter: Filter, t: nat, fb: nat, ob: nat, n: nat, stride: nat, off: nat,
                 rows: seq<seq<Byte>>, w: nat)
    requires fb <= ob && RowsAt(all, fb, ob, n, stride, off, rows) && 0 <= n * ob && off + n * ob == stride
    requires 0 <= |rows| * stride && |rows| * stride + off <= |all| && t <= 4 && filter == RowFilter(t, |rows| == 0)
    ensures Above(all, filter, |rows| * stride + off, |rows| * stride + off - stride, fb, ob, n,
      RowAbove(rows, w, |rows|))
  {
    hide Columns;
    if |rows| > 0 {
      var j := |rows| - 1;
      assert ImageRow(all, fb, ob, n, stride, off, rows, j);
      Step(|rows|, stride);
    }
  }

  /** The rows of the image, one after the other. The output has y rows of stride bytes each. */
  method UnfilterRows(raw: seq<Byte>, out: array<Byte>, w: nat, fb: nat, ob: nat, n: nat, stride: nat, off: nat, y: nat)
    returns (ok: bool)
    requires 0 < fb <= ob <= fb + 2 && n > 0 && w == n * fb && 0 <= n * ob && off + n * ob == stride
    requires 0 <= y * (w + 1) <= |raw| && out.Length == y * stride
    modifies out
    ensures ok <==> Filters(raw, w, y)
    ensures ok ==> RowsAt(out[..], fb, ob, n, stride, off, Decoded(raw, w, fb, y))
  {
    hide Restore, RowAt, RowsAt, Filters, Known, Decoded, Above, TypeOf, BytesOf;
    NoRows(raw, w, fb);
    NoRowsAt(out[..], fb, ob, n, stride, off);
    var p := 0;
    for j := 0 to y
      invariant p == j * (w + 1)
      invariant Filters(raw, w, j)
      invariant RowsAt(out[..], fb, ob, n, stride, off, Decoded(raw, w, fb, j))
    {
      CellBounds(j, y, w + 1);
      CellBounds(j, y, stride);
      Step(j + 1, w + 1);
      Step(j + 1, stride);
      RowData(raw, w, j, p);
      ghost var was, rows := out[..], Decoded(raw, w, fb, j);
      var t := raw[p];
      if t > 4 {
        FiltersEnd(raw, w, j, y);
        return false;
      }
      var base := stride * j + off;
      var priorBase := base - stride;
      FiltersNext(raw, w, j);
      DecodedNext(raw, w, fb, j);
      var filter := if j == 0 then FirstRow(t) else FilterOf(t);
      AboveRow(was, filter, t, fb, ob, n, stride, off, rows, w);
      UnfilterRow(out, raw[p + 1..p + 1 + w], filter, base, priorBase, fb, ob, n, RowAbove(rows, w, j));
      RowAdded(was, out[..], fb, ob, n, stride, off, rows, Decoded(raw, w, fb, j + 1)[j]);
      p := p + 1 + w;
    }
    return true;
  }

  lemma NoRowsAt(all: seq<Byte>, fb: nat, ob: nat, n: nat, stride: nat, off: nat)
    requires fb <= ob
    ensures RowsAt(all, fb, ob, n, stride, off, [])
  {
  }

  lemma FiltersNext(raw: seq<Byte>, w: nat, j: nat)
    requires Filters(raw, w, j) && (j + 1) * (w + 1) <= |raw| && TypeOf(raw, w, j) <= 4
    ensures Filters(raw, w, j + 1)
  {
    assert Known(raw, w, j);
  }

  lemma FiltersEnd(raw: seq<Byte>, w: nat, j: nat, n: nat)
    requires j < n && (j + 1) * (w + 1) <= |raw| && TypeOf(raw, w, j) > 4
    ensures !Filters(raw, w, n)
  {
    assert !Known(raw, w, j);
  }

  lemma RowData(raw: seq<Byte>, w: nat, j: nat, p: nat)
    requires p == j * (w + 1) && p + 1 + w <= |raw|
    ensures (j + 1) * (w + 1) <= |raw| && TypeOf(raw, w, j) == raw[p] && BytesOf(raw, w, j) == raw[p + 1..p + 1 + w]
  {
    Step(j + 1, w + 1);
  }

  // ---------- The pass that expands samples of fewer than eight bits ----------

  /** The samples of every row. */
  function SampleRows(rows: seq<seq<Byte>>, depth: nat, gray: bool, n: nat): (s: seq<seq<Byte>>)
    requires Packed(depth)
    requires forall j :: 0 <= j < |rows| ==> |rows[j]| == (n * depth + 7) / 8
    ensures |s| == |rows| && forall j :: 0 <= j < |rows| ==> s[j] == Samples(rows[j], depth, gray, n)
  {
    if rows == [] then []
    else SampleRows(rows[..|rows| - 1], depth, gray, n) + [Samples(rows[|rows| - 1], depth, gray, n)]
  }

  method ExpandRow(out: array<Byte>, base: nat, off: nat, w: nat, imgN: nat, outN: nat, x: nat, depth: nat, gray: bool,
                   ghost packed: seq<Byte>)
    requires Packed(depth) && w == (x * imgN * depth + 7) / 8
    requires outN == imgN || (outN == imgN + 1 && (imgN == 1 || imgN == 3))
    requires 0 <= x * imgN <= x * outN && off + w == x * outN && base + x * outN <= out.Length && |packed| == w
    requires RowAt(out[..], base + off, 1, 1, w, packed)
    modifies out
    ensures RowAt(out[..], base, imgN, outN, x, Samples(packed, depth, gray, x * imgN))
    ensures out[..base] == old(out[..base]) && out[base + x * outN..] == old(out[base + x * outN..])
  {
    hide RowAt, Samples, Widened, Columns;
    ghost var was, n, samples := out[..], x * imgN, Samples(packed, depth, gray, x * imgN);
    NoAlpha(was, base + off, 1, w, packed);
    UnpackSamples(out, base, off, depth, gray, x * imgN, packed);
    Framed(was, out[..], base, base + n, base, base + x * outN);
    if imgN != outN {
      InsertAlpha(out, base, x, imgN, samples);
    } else {
      NoAlpha(out[..], base, imgN, x, samples);
    }
  }

  /** The rows from k on are as the unfiltering left them. */
  ghost predicate PackedFrom(all: seq<Byte>, w: nat, stride: nat, off: nat, rows: seq<seq<Byte>>, k: nat) {
    forall j :: k <= j < |rows| ==> ImageRow(all, 1, 1, w, stride, off, rows, j)
  }

  lemma PackedKept(was: seq<Byte>, all: seq<Byte>, w: nat, stride: nat, off: nat, rows: seq<seq<Byte>>, k: nat,
                   from: nat)
    requires PackedFrom(was, w, stride, off, rows, k) && off + w == stride && from == (k + 1) * stride &&
      from <= |all| == |was|
    requires all[from..] == was[from..]
    ensures PackedFrom(all, w, stride, off, rows, k + 1)
  {
    hide RowAt;
    forall j | k + 1 <= j < |rows| ensures ImageRow(all, 1, 1, w, stride, off, rows, j) {
      assert ImageRow(was, 1, 1, w, stride, off, rows, j);
      MulMonotone(k + 1, j, stride);
      RowKeptAfter(was, all, from, j * stride + off, w, rows[j]);
    }
  }

  lemma RowKeptAfter(was: seq<Byte>, all: seq<Byte>, from: nat, base: nat, w: nat, row: seq<Byte>)
    requires from <= base && from <= |all| == |was| && all[from..] == was[from..] && RowAt(was, base, 1, 1, w, row)
    ensures RowAt(all, base, 1, 1, w, row)
  {
    hide Columns;
    SubSlice(all, from, |all|, base - from, base - from + w);
    SubSlice(was, from, |was|, base - from, base - from + w);
    assert all[from..] == all[from..|all|] && was[from..] == was[from..|was|];
  }

  lemma RowExpanded(was: seq<Byte>, all: seq<Byte>, fb: nat, ob: nat, n: nat, stride: nat, rows: seq<seq<Byte>>,
                    done: seq<seq<Byte>>, k: nat)
    requires fb <= ob && k < |rows| && done == rows[..k] && RowsAt(was, fb, ob, n, stride, 0, done) && n * ob == stride
    requires 0 <= k * stride <= |all| == |was| && all[..k * stride] == was[..k * stride] &&
      RowAt(all, k * stride, fb, ob, n, rows[k])
    ensures RowsAt(all, fb, ob, n, stride, 0, rows[..k + 1])
  {
    hide RowAt, RowsAt;
    RowAdded(was, all, fb, ob, n, stride, 0, done, rows[k]);
    assert rows[..k + 1] == done + [rows[k]];
  }

  /** In-place expansion yields exactly the scaled samples of every row, whatever their number, and keeps them when
      alpha is inserted. */
  method ExpandRows(out: array<Byte>, w: nat, imgN: nat, outN: nat, x: nat, y: nat, depth: nat, gray: bool,
                    ghost rows: seq<seq<Byte>>)
    requires Packed(depth) && w == (x * imgN * depth + 7) / 8
    requires outN == imgN || (outN == imgN + 1 && (imgN == 1 || imgN == 3))
    requires 0 <= x * imgN <= x * outN && w <= x * outN && out.Length == y * (x * outN) && |rows| == y
    requires forall j :: 0 <= j < |rows| ==> |rows[j]| == w
    requires RowsAt(out[..], 1, 1, w, x * outN, x * outN - w, rows)
    modifies out
    ensures RowsAt(out[..], imgN, outN, x, x * outN, 0, SampleRows(rows, depth, gray, x * imgN))
  {
    hide RowAt, Samples, Widened, Columns, RowsAt, PackedFrom;
    ghost var stride, off, done := x * outN, x * outN - w, SampleRows(rows, depth, gray, x * imgN);
    AllPacked(out[..], w, stride, off, rows);
    NoRowsAt(out[..], imgN, outN, x, stride, 0);
    assert done[..0] == [];
    for j := 0 to y
      invariant PackedFrom(out[..], w, stride, off, rows, j)
      invariant RowsAt(out[..], imgN, outN, x, stride, 0, done[..j])
    {
      ghost var was := out[..];
      CellBounds(j, y, stride);
      Step(j + 1, stride);
      NextPacked(was, w, stride, off, rows, j);
      ExpandRow(out, (x * outN) * j, x * outN - w, w, imgN, outN, x, depth, gray, rows[j]);
      PackedKept(was, out[..], w, stride, off, rows, j, (j + 1) * stride);
      RowExpanded(was, out[..], imgN, outN, x, stride, done, done[..j], j);
    }
    assert done[..y] == done;
  }

  lemma AllPacked(all: seq<Byte>, w: nat, stride: nat, off: nat, rows: seq<seq<Byte>>)
    requires RowsAt(all, 1, 1, w, stride, off, rows)
    ensures PackedFrom(all, w, stride, off, rows, 0)
  {
  }

  lemma NextPacked(all: seq<Byte>, w: nat, stride: nat, off: nat, rows: seq<seq<Byte>>, j: nat)
    requires PackedFrom(all, w, stride, off, rows, j) && j < |rows|
    ensures 0 <= j * stride && RowAt(all, j * stride + off, 1, 1, w, rows[j])
  {
    assert ImageRow(all, 1, 1, w, stride, off, rows, j);
  }

  // ---------- The whole function ----------

  function BytesPer(depth: nat): nat {
    if depth == 16 then 2 else 1
  }

  /** `output_bytes` */
  function OutBytes(outN: nat, depth: nat): (b: nat) {
    outN * BytesPer(depth)
  }

  /** `img_width_bytes` */
  function RowBytes(imgN: nat, x: nat, depth: nat): nat {
    (imgN * x * depth + 7) / 8
  }

  /** The distance from a byte to its left neighbour. */
  function FilterBytes(imgN: nat, depth: nat): nat {
    if depth < 8 then 1 else imgN * BytesPer(depth)
  }

  /** What the callers pass: out_n is img_n, or one more for alpha, and a pixel of packed samples is at most a byte,
      which is what the assertion `img_width_bytes <= x` asks for. */
  predicate Supported(imgN: nat, outN: nat, x: nat, depth: nat) {
    && x > 0 && imgN > 0 && depth in {1, 2, 4, 8, 16}
    && (outN == imgN || (outN == imgN + 1 && (imgN == 1 || imgN == 3)))
    && (depth < 8 ==> imgN * depth <= 8)
  }

  /** The size of the output, and of a row in bits and rounded up, are numbers of 32 bits with a sign. */
  predicate SizesValid(imgN: nat, outN: nat, x: nat, y: nat, depth: nat) {
    x * y * OutBytes(outN, depth) < 0x8000_0000 && imgN * x * depth + 7 < 0x8000_0000
  }

  const INT_MAX := 0x7fff_ffff

  /** `stbi__addsizes_valid` */
  predicate AddSizesValid(a: nat, b: nat) {
    a <= INT_MAX - b
  }

  /** `stbi__mul2sizes_valid` */
  predicate Mul2SizesValid(a: nat, b: nat) {
    b == 0 || a <= INT_MAX / b
  }

  /** `stbi__mad3sizes_valid` */
  predicate Mad3SizesValid(a: nat, b: nat, c: nat, add: nat) {
    Mul2SizesValid(a, b) && Mul2SizesValid(a * b, c) && AddSizesValid(a * b * c, add)
  }

  lemma Mul2Exact(a: nat, b: nat)
    ensures Mul2SizesValid(a, b) <==> a * b <= INT_MAX
  {
    if b > 0 {
      Quotient(INT_MAX, b);
      if a <= INT_MAX / b { MulMonotone(a, INT_MAX / b, b); } else { MulMonotone(INT_MAX / b + 1, a, b); }
    }
  }

  /** The divisions tell exactly whether the product and the sum overflow. */
  lemma Mad3Exact(a: nat, b: nat, c: nat, add: nat)
    requires c > 0
    ensures Mad3SizesValid(a, b, c, add) <==> a * b * c + add < 0x8000_0000
  {
    Mul2Exact(a, b);
    Mul2Exact(a * b, c);
    MulMonotone(1, c, a * b);
  }

  /** The rows as they are shown: one byte per sample below eight bits, and sixteen-bit samples in the byte order of the
      machine. */
  function Shown(imgN: nat, x: nat, depth: nat, gray: bool, little: bool, rows: seq<seq<Byte>>): (r: seq<seq<Byte>>)
    requires depth < 8 ==> Packed(depth)
    requires forall j :: 0 <= j < |rows| ==> |rows[j]| == RowBytes(imgN, x, depth)
    ensures |r| == |rows|
  {
    if depth < 8 then
      SampleCount(imgN, x, depth);
      SampleRows(rows, depth, gray, x * imgN)
    else if depth == 16 && little then
      SwappedRows(rows)
    else
      rows
  }

  function SwappedRows(rows: seq<seq<Byte>>): (r: seq<seq<Byte>>)
    ensures |r| == |rows| && forall j :: 0 <= j < |rows| ==> r[j] == Swapped(rows[j])
  {
    if rows == [] then [] else SwappedRows(rows[..|rows| - 1]) + [Swapped(rows[|rows| - 1])]
  }

  /** The colour bytes of a pixel in the output. */
  function ColourBytes(imgN: nat, depth: nat): (b: nat) {
    imgN * BytesPer(depth)
  }

  /** The output holds the rows, and opaque alpha where it has more bytes than they. */
  ghost predicate Shows(all: seq<Byte>, imgN: nat, outN: nat, x: nat, depth: nat, gray: bool, little: bool,
                        rows: seq<seq<Byte>>)
    requires Supported(imgN, outN, x, depth) && forall j :: 0 <= j < |rows| ==> |rows[j]| == RowBytes(imgN, x, depth)
  {
    NotFewer(imgN, outN, depth);
    RowsAt(all, ColourBytes(imgN, depth), OutBytes(outN, depth), x, x * OutBytes(outN, depth), 0,
      Shown(imgN, x, depth, gray, little, rows))
  }

  lemma NotFewer(imgN: nat, outN: nat, depth: nat)
    requires imgN <= outN
    ensures ColourBytes(imgN, depth) <= OutBytes(outN, depth)
  {
  }

  lemma SampleCount(imgN: nat, x: nat, depth: nat)
    ensures RowBytes(imgN, x, depth) == (x * imgN * depth + 7) / 8 && x * imgN >= 0
  {
    assert x * imgN == imgN * x;
  }

  /** Images of fewer than eight bits per sample: unfiltered at the right end of every row, and then expanded. */
  method CreatePacked(raw: seq<Byte>, out: array<Byte>, imgN: nat, outN: nat, x: nat, y: nat, depth: nat, gray: bool,
                      little: bool)
    returns (ok: bool)
    requires Supported(imgN, outN, x, depth) && depth < 8 && out.Length == y * (x * outN)
    requires 0 <= y * (RowBytes(imgN, x, depth) + 1) <= |raw|
    modifies out
    ensures ok <==> Filters(raw, RowBytes(imgN, x, depth), y)
    ensures ok ==> Shows(out[..], imgN, outN, x, depth, gray, little, Decoded(raw, RowBytes(imgN, x, depth), 1, y))
  {
    hide Filters, Decoded, RowsAt, SampleRows, Widened, RowBytes;
    var w := RowBytes(imgN, x, depth);
    PackedWidth(imgN, outN, x, depth);
    SampleCount(imgN, x, depth);
    assert ColourBytes(imgN, depth) == imgN && OutBytes(outN, depth) == outN;
    ok := UnfilterRows(raw, out, w, 1, 1, w, x * outN, x * outN - w, y);
    if ok {
      ExpandRows(out, w, imgN, outN, x, y, depth, gray, Decoded(raw, w, 1, y));
    }
  }

  lemma PackedWidth(imgN: nat, outN: nat, x: nat, depth: nat)
    requires Supported(imgN, outN, x, depth) && depth < 8
    ensures 0 <= x * imgN <= x * outN && 0 < RowBytes(imgN, x, depth) <= x <= x * outN
  {
    MulMonotone(imgN, outN, x);
    MulMonotone(1, outN, x);
    MulMonotone(1, imgN, x);
    Rearranged(imgN, x, depth);
    MulMonotone(1, imgN * x, depth);
    MulMonotone(imgN * depth, 8, x);
    EighthsBound(imgN * x * depth, x);
  }

  lemma Rearranged(imgN: nat, x: nat, depth: nat)
    ensures imgN * x * depth == imgN * depth * x && x * imgN == imgN * x
  {
  }

  lemma EighthsBound(n: nat, x: nat)
    requires 0 < n <= 8 * x
    ensures 0 < (n + 7) / 8 <= x
  {
  }

  /** Images of eight and of sixteen bits per sample. */
  method CreateWhole(raw: seq<Byte>, out: array<Byte>, imgN: nat, outN: nat, x: nat, y: nat, depth: nat, gray: bool,
                     little: bool)
    returns (ok: bool)
    requires Supported(imgN, outN, x, depth) && depth >= 8 && out.Length == y * (x * OutBytes(outN, depth))
    requires 0 <= y * (RowBytes(imgN, x, depth) + 1) <= |raw|
    modifies out
    ensures ok <==> Filters(raw, RowBytes(imgN, x, depth), y)
    ensures ok ==> Shows(out[..], imgN, outN, x, depth, gray, little,
      Decoded(raw, RowBytes(imgN, x, depth), FilterBytes(imgN, depth), y))
  {
    hide Filters, Decoded, RowsAt, RowBytes, OutBytes, SwappedRows, Even;
    WholeWidth(imgN, outN, x, depth);
    WholeBytes(imgN, outN, depth);
    var ob := OutBytes(outN, depth);
    ok := UnfilterRows(raw, out, RowBytes(imgN, x, depth), FilterBytes(imgN, depth), ob, x, x * ob, 0, y);
    if ok && depth == 16 {
      EvenBytes(imgN, outN, x, y);
      ghost var was, rows := out[..], Decoded(raw, RowBytes(imgN, x, depth), FilterBytes(imgN, depth), y);
      ToNative(out, little);
      if little { SwappedImage(was, FilterBytes(imgN, depth), ob, x, rows); }
    }
  }

  lemma WholeBytes(imgN: nat, outN: nat, depth: nat)
    requires depth >= 8 && imgN <= outN <= imgN + 1 && 0 < imgN
    ensures 0 < FilterBytes(imgN, depth) == ColourBytes(imgN, depth) <= OutBytes(outN, depth) <=
      FilterBytes(imgN, depth) + 2
  {
  }

  lemma EvenBytes(imgN: nat, outN: nat, x: nat, y: nat)
    ensures Even(ColourBytes(imgN, 16)) && Even(OutBytes(outN, 16)) && Even(y * (x * OutBytes(outN, 16)))
  {
    EvenMultiple(x, OutBytes(outN, 16));
    EvenMultiple(y, x * OutBytes(outN, 16));
  }

  /** `*cur16 = (cur[0] << 8) | cur[1]` */
  method StoreNumber(out: array<Byte>, k: nat, little: bool)
    requires k + 1 < out.Length
    modifies out
    ensures out[..] == Stored(old(out[..]), k, little)
  {
    var v: nat := out[k] as nat * 256 + out[k + 1] as nat;
    if little {
      out[k], out[k + 1] := v % 256, v / 256;
    } else {
      out[k], out[k + 1] := v / 256, v % 256;
    }
  }

  /** The bytes at k and k + 1 are exchanged when the machine has the low byte first. */
  function Stored(s: seq<Byte>, k: nat, little: bool): (r: seq<Byte>)
    requires k + 1 < |s|
    ensures |r| == |s|
  {
    if little then s[k := s[k + 1]][k + 1 := s[k]] else s
  }

  /** The last pass: numbers of sixteen bits, big-endian in the file, are stored in the byte order of the machine. */
  method ToNative(out: array<Byte>, little: bool)
    requires Even(out.Length)
    modifies out
    ensures out[..] == if little then Swapped(old(out[..])) else old(out[..])
  {
    hide Swapped, Stored, Even;
    ghost var was := out[..];
    ghost var target := if little then Swapped(was) else was;
    var n := Half(out.Length);
    AllBytes(was, target);
    for i := 0 to n
      invariant out[..] == target[..2 * i] + was[2 * i..]
    {
      StoredNext(was, out[..], 2 * i, little);
      StoreNumber(out, 2 * i, little);
    }
    AllBytes(target, was);
  }

  function Half(n: nat): (h: nat)
    requires Even(n)
    ensures n == 2 * h && forall i: nat :: Even(2 * i)
  {
    n / 2
  }

  lemma AllBytes(s: seq<Byte>, t: seq<Byte>)
    requires |s| == |t|
    ensures t[..0] + s[0..] == s && s[..|s|] + t[|t|..] == s
  {
  }

  lemma StoredNext(was: seq<Byte>, now: seq<Byte>, k: nat, little: bool)
    requires Even(k) && k + 1 < |was|
    requires var target := if little then Swapped(was) else was; now == target[..k] + was[k..]
    ensures |now| == |was| && var target := if little then Swapped(was) else was;
      Stored(now, k, little) == target[..k + 2] + was[k + 2..]
  {
    hide Swapped;
    if little { SwappedNext(was, now, k); }
  }

  lemma SwappedImage(all: seq<Byte>, fb: nat, ob: nat, n: nat, rows: seq<seq<Byte>>)
    requires fb <= ob && 0 <= n * ob && RowsAt(all, fb, ob, n, n * ob, 0, rows) && Even(fb) && Even(ob)
    ensures RowsAt(Swapped(all), fb, ob, n, n * ob, 0, SwappedRows(rows))
  {
    hide Swapped, SwappedRows, RowAt, Even;
    EvenMultiple(n, ob);
    forall j | 0 <= j < |rows| ensures ImageRow(Swapped(all), fb, ob, n, n * ob, 0, SwappedRows(rows), j) {
      assert ImageRow(all, fb, ob, n, n * ob, 0, rows, j);
      EvenMultiple(j, n * ob);
      SwappedRow(all, j * (n * ob), fb, ob, n, rows[j]);
    }
  }

  lemma WholeWidth(imgN: nat, outN: nat, x: nat, depth: nat)
    requires Supported(imgN, outN, x, depth) && depth >= 8
    ensures RowBytes(imgN, x, depth) == x * FilterBytes(imgN, depth) && 0 <= x * OutBytes(outN, depth)
  {
    var k := BytesPer(depth);
    assert depth == 8 * k;
    Eighths(imgN * x, k);
    Reorder(imgN, x, k);
    Reorder(imgN, x, 8 * k);
  }

  lemma Eighths(n: nat, k: nat)
    requires k == 1 || k == 2
    ensures (n * (8 * k) + 7) / 8 == k * n
  {
  }

  lemma Reorder(a: nat, x: nat, k: nat)
    ensures x * (a * k) == k * (a * x)
  {
    assert x * (a * k) == (x * a) * k;
  }

  /** `stbi__create_png_image_raw`. On the filtered bytes of an image, whatever the filters of its rows,
      the output shows the rows of the image. */
  method CreateImageRaw(raw: seq<Byte>, imgN: nat, outN: nat, x: nat, y: nat, depth: nat, gray: bool, little: bool,
                        ghost rows: seq<seq<Byte>>)
    returns (ok: bool, out: array<Byte>)
    requires Supported(imgN, outN, x, depth)
    ensures fresh(out)
    ensures ok <==> SizesValid(imgN, outN, x, y, depth) && Filters(raw, RowBytes(imgN, x, depth), y)
    ensures ok ==> out.Length == x * y * OutBytes(outN, depth)
    ensures ok ==> Shows(out[..], imgN, outN, x, depth, gray, little,
      Decoded(raw, RowBytes(imgN, x, depth), FilterBytes(imgN, depth), y))
    ensures
      Encodes(raw, RowBytes(imgN, x, depth), FilterBytes(imgN, depth), rows) && |rows| == y &&
      SizesValid(imgN, outN, x, y, depth) ==>
      ok && Shows(out[..], imgN, outN, x, depth, gray, little, rows)
  {
    hide Filters, Decoded, RowsAt, Shows, SizesValid, Mad3SizesValid, RowBytes, RowEncodes, FilterBytes;
    if Encodes(raw, RowBytes(imgN, x, depth), FilterBytes(imgN, depth), rows) {
      SomeFilterBytes(imgN, outN, x, depth);
      UnfilterInverts(raw, RowBytes(imgN, x, depth), FilterBytes(imgN, depth), rows);
    }
    ok, out := false, new Byte[0];
    Checks(imgN, outN, x, y, depth);
    if Mad3SizesValid(x, y, OutBytes(outN, depth), 0) {
      var w := RowBytes(imgN, x, depth);
      Area(x, y, OutBytes(outN, depth), w);
      out := new Byte[x * y * OutBytes(outN, depth)];
      if !Mad3SizesValid(imgN, x, depth, 7) {
        return;
      }
      if |raw| < (w + 1) * y {
        NotEnough(raw, w, y);
      } else if depth < 8 {
        PackedNeighbour(imgN, depth);
        ok := CreatePacked(raw, out, imgN, outN, x, y, depth, gray, little);
      } else {
        ok := CreateWhole(raw, out, imgN, outN, x, y, depth, gray, little);
      }
    }
  }

  lemma Checks(imgN: nat, outN: nat, x: nat, y: nat, depth: nat)
    requires Supported(imgN, outN, x, depth)
    ensures SizesValid(imgN, outN, x, y, depth) <==>
      Mad3SizesValid(x, y, OutBytes(outN, depth), 0) && Mad3SizesValid(imgN, x, depth, 7)
  {
    hide Mad3SizesValid;
    Mad3Exact(x, y, OutBytes(outN, depth), 0);
    Mad3Exact(imgN, x, depth, 7);
  }

  lemma PackedNeighbour(imgN: nat, depth: nat)
    requires depth < 8
    ensures FilterBytes(imgN, depth) == 1
  {
  }

  lemma SomeFilterBytes(imgN: nat, outN: nat, x: nat, depth: nat)
    requires Supported(imgN, outN, x, depth)
    ensures FilterBytes(imgN, depth) > 0
  {
  }

  lemma Area(x: nat, y: nat, outputBytes: nat, w: nat)
    ensures 0 <= x * y * outputBytes == y * (x * outputBytes) && 0 <= y * (w + 1) == (w + 1) * y
  {
    assert x * y * outputBytes == y * x * outputBytes == y * (x * outputBytes);
  }

  lemma NotEnough(raw: seq<Byte>, w: nat, y: nat)
    requires |raw| < (w + 1) * y
    ensures !Filters(raw, w, y)
  {
  }
}
