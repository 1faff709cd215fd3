/** The filters of PNG (section 6 of RFC 2083) and their inverses, row by row. */
module PngFilter {
  import opened Bits

  function Abs(a: int): nat {
    if a < 0 then -a else a
  }

  /** How far a neighbour is from a + b - c, the estimate of section 6.6. */
  function Distance(a: int, b: int, c: int, neighbour: int): nat {
    Abs(a + b - c - neighbour)
  }

  /** x is the nearest neighbour; among equally near ones the left comes before the upper, and that before the upper
      left. */
  predicate Nearest(a: int, b: int, c: int, x: int) {
    var da, db, dc := Distance(a, b, c, a), Distance(a, b, c, b), Distance(a, b, c, c);
    && (da <= db && da <= dc ==> x == a)
    && (db < da && db <= dc ==> x == b)
    && (dc < da && dc < db ==> x == c)
  }

  /** `stbi__paeth` */
  function Paeth(a: int, b: int, c: int): (r: int)
    ensures r in {a, b, c} && Nearest(a, b, c, r)
  {
    var p := a + b - c;
    var pa, pb, pc := Abs(p - a), Abs(p - b), Abs(p - c);
    if pa <= pb && pa <= pc then a else if pb <= pc then b else c
  }

  /** The prediction of filter type t from the bytes to the left, above and to the upper left, as sections 6.2 to 6.6
      define it. */
  ghost predicate Predicts(t: nat, left: Byte, above: Byte, upperLeft: Byte, p: Byte) {
    match t
    case 0 => p == 0
    case 1 => p == left
    case 2 => p == above
    case 3 => 2 * p <= left + above <= 2 * p + 1
    case 4 => Nearest(left, above, upperLeft, p)
    case _ => false
  }

  datatype Filter = None | Sub | Up | Avg | PaethFilter | AvgFirst | PaethFirst

  /** The five filter types of a stream. */
  function FilterOf(t: nat): Filter
    requires t <= 4
  {
    match t
    case 0 => None
    case 1 => Sub
    case 2 => Up
    case 3 => Avg
    case _ => PaethFilter
  }

  /** `first_row_filter`: the filter for a row without a row above it. */
  function FirstRow(t: nat): Filter
    requires t <= 4
  {
    match t
    case 0 => None
    case 1 => Sub
    case 2 => None
    case 3 => AvgFirst
    case _ => PaethFirst
  }

  predicate NeedsPrior(f: Filter) {
    f == Up || f == Avg || f == PaethFilter
  }

  /** What the row loops add to a filtered byte: a is the byte to the left, b the one above, c the one to the upper
      left. */
  function Predict(f: Filter, a: Byte, b: Byte, c: Byte): (p: Byte) {
    match f
    case None => 0
    case Sub => a
    case Up => b
    case Avg => (a + b) / 2
    case PaethFilter => Paeth(a, b, c)
    case AvgFirst => a / 2
    case PaethFirst => Paeth(a, 0, 0)
  }

  /** What is added to a byte of the first pixel of a row. */
  function PredictFirst(f: Filter, b: Byte): (p: Byte) {
    match f
    case None => 0
    case Sub => 0
    case Up => b
    case Avg => b / 2
    case PaethFilter => Paeth(0, b, 0)
    case AvgFirst => 0
    case PaethFirst => 0
  }

  function Neighbour(row: seq<Byte>, k: nat, bpp: nat): Byte {
    if bpp <= k < |row| + bpp then row[k - bpp] else 0
  }

  /** There is only one prediction, and it is that of the decoder. */
  lemma PredictorOnly(t: nat, left: Byte, above: Byte, upperLeft: Byte, p: Byte)
    requires t <= 4
    ensures Predicts(t, left, above, upperLeft, p) <==> p == Predict(FilterOf(t), left, above, upperLeft)
  {
  }

  /** Byte k of a row, filtered: what remains after the prediction from the original neighbours is taken away (sections
      6.3 to 6.6). Bytes before the first pixel, and the row above the first, count as zeros. */
  function Filtered(t: nat, row: seq<Byte>, prior: seq<Byte>, bpp: nat, k: nat): (r: Byte)
    requires t <= 4 && k < |row| == |prior|
  {
    (row[k] - Predict(FilterOf(t), Neighbour(row, k, bpp), prior[k], Neighbour(prior, k, bpp))) % 256
  }

  function FilterRow(t: nat, row: seq<Byte>, prior: seq<Byte>, bpp: nat): (r: seq<Byte>)
    requires t <= 4 && |row| == |prior|
    ensures |r| == |row| && forall k :: 0 <= k < |row| ==> r[k] == Filtered(t, row, prior, bpp, k)
  {
    seq(|row|, k requires 0 <= k < |row| => Filtered(t, row, prior, bpp, k))
  }

  /** Byte k of a row from its filtered bytes, the bytes decoded before it and the row above. */
  function Restored(f: Filter, raw: seq<Byte>, done: seq<Byte>, prior: seq<Byte>, bpp: nat, k: nat): (r: Byte)
    requires k <= |done| && k < |raw| == |prior|
  {
    (raw[k] + if k < bpp then PredictFirst(f, prior[k])
      else Predict(f, Neighbour(done, k, bpp), prior[k], Neighbour(prior, k, bpp))) % 256
  }

  function Zeros(n: nat): (s: seq<Byte>)
    ensures |s| == n && forall k :: 0 <= k < n ==> s[k] == 0
  {
    seq(n, _ => 0)
  }

  /** The special filters of the first row, and the special case of the first pixel, are the general rule with zeros for
      the neighbours that are missing. */
  lemma SyntheticFilters(t: nat, a: Byte, b: Byte, c: Byte)
    requires t <= 4
    ensures Predict(FirstRow(t), a, b, c) == Predict(FilterOf(t), a, 0, 0)
    ensures PredictFirst(FilterOf(t), b) == Predict(FilterOf(t), 0, b, 0)
    ensures PredictFirst(FirstRow(t), b) == Predict(FilterOf(t), 0, 0, 0)
  {
  }

  /** The filter with which row data of type t is decoded. */
  function RowFilter(t: nat, first: bool): Filter
    requires t <= 4
  {
    if first then FirstRow(t) else FilterOf(t)
  }

  /** Restoring inverts filtering, byte by byte: with the original bytes to the left, a filtered byte gives the original
      byte. */
  lemma RestoreByte(t: nat, row: seq<Byte>, prior: seq<Byte>, bpp: nat, k: nat, first: bool)
    requires t <= 4 && k < |row| == |prior| && bpp > 0 && (first ==> prior == Zeros(|row|))
    ensures Restored(RowFilter(t, first), FilterRow(t, row, prior, bpp), row[..k], prior, bpp, k) == row[k]
  {
    hide Predict, PredictFirst;
    var a, b, c := Neighbour(row, k, bpp), prior[k], Neighbour(prior, k, bpp);
    SyntheticFilters(t, a, b, c);
    SyntheticFilters(t, 0, b, 0);
    assert Neighbour(row[..k], k, bpp) == a;
    Undo(row[k], Predict(FilterOf(t), a, b, c));
  }

  lemma Undo(x: Byte, p: Byte)
    ensures ((x - p) % 256 + p) % 256 == x
  {
  }

  /** The first n bytes of a row, restored one after the other. */
  function Restore(f: Filter, raw: seq<Byte>, prior: seq<Byte>, bpp: nat, n: nat): (r: seq<Byte>)
    requires n <= |raw| == |prior|
    ensures |r| == n
  {
    if n == 0 then [] else
      Restore(f, raw, prior, bpp, n - 1) + [Restored(f, raw, Restore(f, raw, prior, bpp, n - 1), prior, bpp, n - 1)]
  }

  lemma {:induction false} RestorePrefix(f: Filter, raw: seq<Byte>, prior: seq<Byte>, bpp: nat, m: nat, n: nat)
    requires m <= n <= |raw| == |prior|
    ensures Restore(f, raw, prior, bpp, n)[..m] == Restore(f, raw, prior, bpp, m)
  {
    if m < n {
      RestorePrefix(f, raw, prior, bpp, m, n - 1);
    }
  }

  /** Restoring inverts filtering, for whole rows. */
  lemma {:induction false} RestoreRow(t: nat, row: seq<Byte>, prior: seq<Byte>, bpp: nat, first: bool, n: nat)
    requires t <= 4 && n <= |row| == |prior| && bpp > 0 && (first ==> prior == Zeros(|row|))
    ensures Restore(RowFilter(t, first), FilterRow(t, row, prior, bpp), prior, bpp, n) == row[..n]
  {
    if n > 0 {
      RestoreRow(t, row, prior, bpp, first, n - 1);
      RestoreByte(t, row, prior, bpp, n - 1, first);
    }
  }
}
