/** Expanding rows of 1, 2 and 4 bits per sample to bytes, in place, and inserting alpha behind the samples. */
module PngUnpack {
  import opened Arithmetic
  import BitCells
  import opened Bits
  import opened PixelRows
  import opened PngRows

  predicate Packed(depth: nat) {
    depth == 1 || depth == 2 || depth == 4
  }

  /** `stbi__depth_scale_table`, for grayscale. */
  function DepthScale(depth: nat): nat {
    match depth
    case 1 => 0xff
    case 2 => 0x55
    case 4 => 0x11
    case _ => 0
  }

  /** The samples in a byte. */
  function PerByte(depth: nat): (r: nat)
    requires Packed(depth)
  {
    match depth
    case 1 => 8
    case 2 => 4
    case _ => 2
  }

  /** The byte that holds sample s, and the place of the sample in it. */
  function ByteOf(depth: nat, s: nat): (q: nat)
    requires Packed(depth)
  {
    match depth
    case 1 => s / 8
    case 2 => s / 4
    case _ => s / 2
  }

  function PlaceOf(depth: nat, s: nat): (r: nat)
    requires Packed(depth)
    ensures r < PerByte(depth)
  {
    match depth
    case 1 => s % 8
    case 2 => s % 4
    case _ => s % 2
  }

  /** Sample r of a packed byte: the leftmost sample is in the high bits (section 2.3 of RFC 2083). */
  function Sample(b: Byte, depth: nat, r: nat): (v: nat)
    requires Packed(depth) && r < PerByte(depth)
    ensures v < Pow2(depth)
  {
    Mask(ShiftRight(b, 8 - depth * (r + 1)), depth)
  }

  /** The expressions of the unrolled statements: the first sample of a byte is not masked, and the last one is not
      shifted. */
  function Written(b: Byte, depth: nat, r: nat): (v: nat)
    requires Packed(depth) && r < PerByte(depth)
  {
    if r == 0 then ShiftRight(b, 8 - depth)
    else if r == PerByte(depth) - 1 then Mask(b, depth)
    else Mask(ShiftRight(b, 8 - depth * (r + 1)), depth)
  }

  /** What a sample becomes: for grayscale, its part of the largest sample, of 255; otherwise the sample itself. */
  function Widened(v: nat, depth: nat, gray: bool): (w: Byte)
    requires Packed(depth) && v < Pow2(depth)
  {
    Pow2Values();
    if gray then v * 255 / (Pow2(depth) - 1) else v
  }

  function Scaled(b: Byte, depth: nat, r: nat, gray: bool): (v: Byte)
    requires Packed(depth) && r < PerByte(depth)
  {
    Widened(Sample(b, depth, r), depth, gray)
  }

  function Scale(depth: nat, gray: bool): nat {
    if gray then DepthScale(depth) else 1
  }

  /** The constants spread the samples over a byte: zero stays zero, and the largest sample becomes 255. */
  lemma ScaleSpreads(v: nat, depth: nat, gray: bool)
    requires Packed(depth) && v < Pow2(depth)
    ensures 0 <= Scale(depth, gray) * v == Widened(v, depth, gray)
    ensures DepthScale(depth) * (Pow2(depth) - 1) == 255
  {
    Pow2Values();
  }

  /** The first sample of a byte needs no mask, and the last one no shift. */
  lemma EndSamples(b: Byte, depth: nat, r: nat)
    requires Packed(depth) && r < PerByte(depth)
    ensures Written(b, depth, r) == Sample(b, depth, r)
  {
    hide Pow2, Mask, ShiftRight;
    Pow2Values();
    assert ShiftRight(b, 0) == b by { Shift0(b); }
    Fits(b, depth);
    assert depth * (PerByte(depth) - 1 + 1) == 8;
  }

  lemma ScaledWritten(b: Byte, depth: nat, r: nat, gray: bool)
    requires Packed(depth) && r < PerByte(depth)
    ensures 0 <= Scale(depth, gray) * Written(b, depth, r) == Scaled(b, depth, r, gray)
  {
    hide Written, Sample, Scale, Widened;
    EndSamples(b, depth, r);
    ScaleSpreads(Sample(b, depth, r), depth, gray);
  }

  lemma Shift0(n: nat)
    ensures ShiftRight(n, 0) == n
  {
  }

  lemma Fits(b: Byte, depth: nat)
    requires Packed(depth)
    ensures Mask(ShiftRight(b, 8 - depth), depth) == ShiftRight(b, 8 - depth)
  {
    Pow2Values();
  }

  /** The first n samples of packed bytes, scaled. */
  function Samples(packed: seq<Byte>, depth: nat, gray: bool, n: nat): (s: seq<Byte>)
    requires Packed(depth) && 8 * |packed| >= n * depth
    ensures |s| == n
  {
    if n == 0 then [] else
      ByteThere(|packed|, depth, n, n - 1);
      Less(depth, n);
      Samples(packed, depth, gray, n - 1) + [Scaled(packed[ByteOf(depth, n - 1)], depth, PlaceOf(depth, n - 1), gray)]
  }

  lemma ByteThere(m: nat, depth: nat, n: nat, s: nat)
    requires Packed(depth) && 8 * m >= n * depth && s < n
    ensures ByteOf(depth, s) < m
  {
  }

  lemma Less(depth: nat, n: nat)
    requires Packed(depth) && n > 0
    ensures (n - 1) * depth <= n * depth
  {
  }

  lemma {:induction false} SampleAt(packed: seq<Byte>, depth: nat, gray: bool, n: nat, s: nat)
    requires Packed(depth) && 8 * |packed| >= n * depth && s < n
    ensures ByteOf(depth, s) < |packed|
    ensures Samples(packed, depth, gray, n)[s] == Scaled(packed[ByteOf(depth, s)], depth, PlaceOf(depth, s), gray)
  {
    hide Scaled, ByteOf, PlaceOf, PerByte;
    ByteThere(|packed|, depth, n, s);
    if s < n - 1 {
      Less(depth, n);
      SampleAt(packed, depth, gray, n - 1, s);
    }
  }

  /** The samples are the bits of the row, depth at a time and the highest first, when every byte is read from its high
      end (section 2.3 of RFC 2083); for grayscale they are widened to the range up to 255. */
  lemma SamplesSpelled(packed: seq<Byte>, depth: nat, n: nat, s: nat, i: nat)
    requires Packed(depth) && 8 * |packed| >= n * depth && s < n && i < depth
    ensures var v := Samples(packed, depth, false, n)[s];
      && v < Pow2(depth) && Bit(v, depth - 1 - i) == BitCells.StreamBit(packed, 8, s * depth + i)
      && Samples(packed, depth, true, n)[s] == v * 255 / (Pow2(depth) - 1)
  {
    hide Samples, Bit, Sample, Pow2;
    SampleAt(packed, depth, false, n, s);
    SampleAt(packed, depth, true, n, s);
    SampleBit(packed[ByteOf(depth, s)], depth, PlaceOf(depth, s), i);
    BitPlace(depth, s, i);
  }

  lemma BitPlace(depth: nat, s: nat, i: nat)
    requires Packed(depth) && i < depth
    ensures (s * depth + i) / 8 == ByteOf(depth, s) && (s * depth + i) % 8 == depth * PlaceOf(depth, s) + i
  {
  }

  lemma SampleBit(b: Byte, depth: nat, r: nat, i: nat)
    requires Packed(depth) && r < PerByte(depth) && i < depth
    ensures depth * r + i < 8 && Bit(Sample(b, depth, r), depth - 1 - i) == BitCells.TopBit(b, depth * r + i)
  {
    hide Bit, Mask, ShiftRight, Low;
    var k := 8 - depth * (r + 1);
    LowSplit(ShiftRight(b, k), depth, 0);
    LowBit(ShiftRight(b, k), depth, depth - 1 - i);
    LowBit(Mask(ShiftRight(b, k), depth), depth, depth - 1 - i);
    BitShiftRight(b, k, depth - 1 - i);
    assert Low(ShiftRight(ShiftRight(b, k), depth), 0) == [];
  }

  /** The samples before s have been written to the start of the row, and the packed bytes from q on are intact. */
  ghost predicate Unpacked(all: seq<Byte>, base: nat, off: nat, packed: seq<Byte>, samples: seq<Byte>, s: nat, q: nat) {
    && s <= |samples| && base + |samples| <= |all| && base + off + |packed| <= |all|
    && all[base..base + s] == samples[..s]
    && forall j :: q <= j < |packed| ==> all[base + off + j] == packed[j]
  }

  /** A sample is never written over a packed byte that is still needed. With the packed bytes at the end of a row of at
      least n bytes, the place of sample s comes before the byte it is taken from, unless no later sample comes from
      that byte. */
  lemma Behind(depth: nat, n: nat, off: nat, s: nat)
    requires Packed(depth) && s < n && off + (n * depth + 7) / 8 >= n
    ensures s <= off + ByteOf(depth, s)
    ensures s == off + ByteOf(depth, s) ==> s + 1 == n || PlaceOf(depth, s) == PerByte(depth) - 1
  {
  }

  /** `*cur++ = scale * ((*in >> shift) & mask)`, after which the packed bytes from q' on are still intact */
  method WriteSample(out: array<Byte>, cur: nat, inp: nat, r: nat, depth: nat, gray: bool,
                     ghost base: nat, ghost off: nat, ghost packed: seq<Byte>, ghost n: nat, ghost s: nat,
                     ghost q': nat)
    requires Packed(depth) && 8 * |packed| >= n * depth
    requires s < n && r == PlaceOf(depth, s) && cur == base + s && inp == base + off + ByteOf(depth, s)
    requires ByteOf(depth, s) <= q' && s < off + q'
    requires Unpacked(out[..], base, off, packed, Samples(packed, depth, gray, n), s, ByteOf(depth, s))
    modifies out
    ensures Unpacked(out[..], base, off, packed, Samples(packed, depth, gray, n), s + 1, q')
    ensures out[..base] == old(out[..base]) && base + n <= out.Length && out[base + n..] == old(out[base + n..])
  {
    hide Samples, Unpacked, Scaled, Written, Scale, ByteOf, PlaceOf, PerByte;
    ghost var was, samples, q := out[..], Samples(packed, depth, gray, n), ByteOf(depth, s);
    SampleAt(packed, depth, gray, n, s);
    UnpackedFits(was, base, off, packed, samples, s, q);
    IntactByte(was, base, off, packed, samples, s, q);
    ScaledWritten(out[inp], depth, r, gray);
    out[cur] := Scale(depth, gray) * Written(out[inp], depth, r);
    assert out[..] == was[base + s := samples[s]];
    SampleWritten(was, base, off, packed, samples, s, q, q');
    Framed(was, out[..], base + s, base + s + 1, base, base + n);
  }

  /** The statements for the first count samples of one byte. */
  method UnpackByte(out: array<Byte>, cur: nat, inp: nat, count: nat, depth: nat, gray: bool,
                    ghost base: nat, ghost off: nat, ghost packed: seq<Byte>, ghost n: nat, ghost s: nat)
    requires Packed(depth) && |packed| == (n * depth + 7) / 8 &&
      off + |packed| >= n
    requires PlaceOf(depth, s) == 0 && cur == base + s && inp == base + off + ByteOf(depth, s)
    requires 0 < count <= PerByte(depth) && s + count <= n && (count < PerByte(depth) ==> s + count == n)
    requires Unpacked(out[..], base, off, packed, Samples(packed, depth, gray, n), s, ByteOf(depth, s))
    modifies out
    ensures Unpacked(out[..], base, off, packed, Samples(packed, depth, gray, n), s + count, ByteOf(depth, s) + 1)
    ensures out[..base] == old(out[..base]) && base + n <= out.Length && out[base + n..] == old(out[base + n..])
  {
    hide Samples, Unpacked, Widened, ByteOf, PlaceOf, PerByte;
    ghost var samples, q := Samples(packed, depth, gray, n), ByteOf(depth, s);
    UnpackedFits(out[..], base, off, packed, samples, s, q);
    for r := 0 to count
      invariant out[..base] == old(out[..base]) && out[base + n..] == old(out[base + n..])
      invariant Unpacked(out[..], base, off, packed, samples, s + r, if r < count then q else q + 1)
    {
      SamePlace(depth, s, r);
      Behind(depth, n, off, s + r);
      WriteSample(out, cur + r, inp, r, depth, gray, base, off, packed, n, s + r, if r + 1 < count then q else q + 1);
    }
  }

  lemma UnpackedFits(all: seq<Byte>, base: nat, off: nat, packed: seq<Byte>, samples: seq<Byte>, s: nat, q: nat)
    requires Unpacked(all, base, off, packed, samples, s, q)
    ensures base + |samples| <= |all| && base + off + |packed| <= |all|
  {
  }

  /** The next samples of the same byte. */
  lemma SamePlace(depth: nat, s: nat, r: nat)
    requires Packed(depth) && PlaceOf(depth, s) == 0 && r < PerByte(depth)
    ensures ByteOf(depth, s + r) == ByteOf(depth, s) && PlaceOf(depth, s + r) == r
  {
  }

  /** The first sample of the next byte. */
  lemma NextByte(depth: nat, s: nat)
    requires Packed(depth) && PlaceOf(depth, s) == 0
    ensures ByteOf(depth, s + PerByte(depth)) == ByteOf(depth, s) + 1 && PlaceOf(depth, s + PerByte(depth)) == 0
  {
  }

  lemma FirstByte(depth: nat)
    requires Packed(depth)
    ensures ByteOf(depth, 0) == 0 && PlaceOf(depth, 0) == 0
  {
  }

  lemma IntactByte(all: seq<Byte>, base: nat, off: nat, packed: seq<Byte>, samples: seq<Byte>, s: nat, q: nat)
    requires Unpacked(all, base, off, packed, samples, s, q) && q < |packed|
    ensures base + off + q < |all| && all[base + off + q] == packed[q]
  {
  }

  lemma SampleWritten(all: seq<Byte>, base: nat, off: nat, packed: seq<Byte>, samples: seq<Byte>, s: nat, q: nat,
                      q': nat)
    requires Unpacked(all, base, off, packed, samples, s, q) && s < |samples| && q <= q' && s < off + q'
    ensures base + s < |all| && Unpacked(all[base + s := samples[s]], base, off, packed, samples, s + 1, q')
  {
    var now := all[base + s := samples[s]];
    assert now[base..base + s + 1] == all[base..base + s] + [samples[s]];
  }

  /** The samples of one row. The packed bytes stand at the end of the row, where the unfiltering left them. */
  method UnpackSamples(out: array<Byte>, base: nat, off: nat, depth: nat, gray: bool, n: nat, ghost packed: seq<Byte>)
    requires Packed(depth) && |packed| == (n * depth + 7) / 8 &&
      off + |packed| >= n
    requires base + n <= out.Length && base + off + |packed| <= out.Length &&
      out[base + off..base + off + |packed|] == packed
    modifies out
    ensures out[base..base + n] == Samples(packed, depth, gray, n)
    ensures out[..base] == old(out[..base]) && out[base + n..] == old(out[base + n..])
  {
    hide Samples, Unpacked, Widened, ByteOf, PlaceOf;
    ghost var samples := Samples(packed, depth, gray, n);
    NothingUnpacked(out[..], base, off, packed, samples);
    FirstByte(depth);
    var cur, inp, k := base, base + off, n;
    while k >= PerByte(depth)
      invariant 0 <= k <= n && PlaceOf(depth, n - k) == 0 && cur == base + (n - k) &&
        inp == base + off + ByteOf(depth, n - k)
      invariant Unpacked(out[..], base, off, packed, samples, n - k, ByteOf(depth, n - k))
      invariant out[..base] == old(out[..base]) && out[base + n..] == old(out[base + n..])
    {
      UnpackByte(out, cur, inp, PerByte(depth), depth, gray, base, off, packed, n, n - k);
      NextByte(depth, n - k);
      k, cur, inp := k - PerByte(depth), cur + PerByte(depth), inp + 1;
    }
    if k > 0 {
      UnpackByte(out, cur, inp, k, depth, gray, base, off, packed, n, n - k);
    }
    ghost var q := if k > 0 then ByteOf(depth, n - k) + 1 else ByteOf(depth, n - k);
    AllUnpacked(out[..], base, off, packed, samples, q);
  }

  lemma NothingUnpacked(all: seq<Byte>, base: nat, off: nat, packed: seq<Byte>, samples: seq<Byte>)
    requires base + |samples| <= |all| && base + off + |packed| <= |all| &&
      all[base + off..base + off + |packed|] == packed
    ensures Unpacked(all, base, off, packed, samples, 0, 0)
  {
    forall q | 0 <= q < |packed| ensures all[base + off + q] == packed[q] {
      assert all[base + off..base + off + |packed|][q] == packed[q];
    }
  }

  lemma AllUnpacked(all: seq<Byte>, base: nat, off: nat, packed: seq<Byte>, samples: seq<Byte>, q: nat)
    requires Unpacked(all, base, off, packed, samples, |samples|, q)
    ensures base + |samples| <= |all| && all[base..base + |samples|] == samples
  {
  }

  // ---------- Alpha behind the samples ----------

  /** Cell i of w bytes has the bytes of cell i of w - 1 bytes of samples, and then alpha. */
  ghost predicate Spread(row: seq<Byte>, samples: seq<Byte>, w: nat, i: nat)
    requires w > 0
  {
    && 0 <= i * w && i * w + w <= |row| && 0 <= i * (w - 1) && i * (w - 1) + (w - 1) <= |samples|
    && row[i * w..i * w + w - 1] == samples[i * (w - 1)..i * (w - 1) + (w - 1)] && row[i * w + w - 1] == 255
  }

  lemma {:induction false} AllSpread(row: seq<Byte>, samples: seq<Byte>, w: nat, n: nat)
    requires w > 0 && 0 <= n * w <= |row| && 0 <= n * (w - 1) <= |samples|
    requires forall i :: 0 <= i < n ==> Spread(row, samples, w, i)
    ensures Columns(row, 0, w - 1, w, n) == samples[..n * (w - 1)] && Columns(row, w - 1, w, w, n) == Opaque(n)
  {
    if n > 0 {
      var m, k := (n - 1) * w, (n - 1) * (w - 1);
      Step(n, w);
      Step(n, w - 1);
      AllSpread(row, samples, w, n - 1);
      assert Spread(row, samples, w, n - 1);
      assert samples[..k] + samples[k..k + (w - 1)] == samples[..k + (w - 1)];
      assert row[m + (w - 1)..m + w] == [255];
      OpaqueNext(n - 1);
    }
  }

  /** The cells from q on are spread, and the samples of the cells before are where they were. */
  ghost predicate Inserting(all: seq<Byte>, base: nat, samples: seq<Byte>, w: nat, x: nat, q: nat)
    requires w > 0
  {
    && 0 <= x * w && base + x * w <= |all| && 0 <= q * (w - 1) <= |samples| && base + q * (w - 1) <= |all|
    && all[base..base + q * (w - 1)] == samples[..q * (w - 1)]
    && SpreadFrom(all[base..base + x * w], samples, w, q, x)
  }

  ghost predicate SpreadFrom(row: seq<Byte>, samples: seq<Byte>, w: nat, q: nat, x: nat)
    requires w > 0
  {
    forall i :: q <= i < x ==> Spread(row, samples, w, i)
  }

  lemma NoneInserted(all: seq<Byte>, base: nat, samples: seq<Byte>, w: nat, x: nat)
    requires w > 0 && |samples| == x * (w - 1) && 0 <= x * w && base + x * w <= |all|
    requires base + |samples| <= |all| && all[base..base + |samples|] == samples
    ensures Inserting(all, base, samples, w, x, x)
  {
  }

  /** The samples of cell q are still there. */
  lemma SamplesLeft(all: seq<Byte>, base: nat, samples: seq<Byte>, w: nat, x: nat, q: nat)
    requires w > 0 && q < x && Inserting(all, base, samples, w, x, q + 1)
    ensures 0 <= q * (w - 1) && q * (w - 1) + (w - 1) <= |samples| && q * w >= 0 && base + q * w + w <= |all|
    ensures q * (w - 1) <= q * w
    ensures all[base + q * (w - 1)..base + q * (w - 1) + (w - 1)] == samples[q * (w - 1)..q * (w - 1) + (w - 1)]
  {
    hide Spread;
    var k := q * (w - 1);
    Step(q + 1, w - 1);
    CellBounds(q, x, w);
    assert q * w == k + q;
    SubSlice(all, base, base + k + (w - 1), k, k + (w - 1));
    SubSlice(samples, 0, k + (w - 1), k, k + (w - 1));
  }

  lemma NewCell(all: seq<Byte>, base: nat, end: nat, samples: seq<Byte>, w: nat, q: nat)
    requires w > 0 && base <= end <= |all| && 0 <= q * w && base + q * w + w <= end && 0 <= q * (w - 1) &&
      q * (w - 1) + (w - 1) <= |samples|
    requires all[base + q * w..base + q * w + w - 1] == samples[q * (w - 1)..q * (w - 1) + (w - 1)] &&
      all[base + q * w + w - 1] == 255
    ensures Spread(all[base..end], samples, w, q)
  {
    SubSlice(all, base, end, q * w, q * w + w - 1);
  }

  lemma OtherCell(was: seq<Byte>, all: seq<Byte>, base: nat, end: nat, samples: seq<Byte>, w: nat, i: nat, from: nat)
    requires w > 0 && base <= end <= |all| == |was| && Spread(was[base..end], samples, w, i)
    requires base <= from <= base + i * w && base + i * w + w <= end && all[from..] == was[from..]
    ensures Spread(all[base..end], samples, w, i)
  {
    var at := i * w;
    SubSlice(all, base, end, at, at + w - 1);
    SubSlice(was, base, end, at, at + w - 1);
    SubSlice(all, from, |all|, base + at - from, base + at + w - 1 - from);
    SubSlice(was, from, |was|, base + at - from, base + at + w - 1 - from);
    assert all[from..][base + at + w - 1 - from] == was[from..][base + at + w - 1 - from];
    assert all[from..] == all[from..|all|] && was[from..] == was[from..|was|];
  }

  /** The bytes in and around a cell that has been filled. */
  lemma FilledCell(was: seq<Byte>, all: seq<Byte>, at: nat, colours: seq<Byte>)
    requires at + |colours| + 1 <= |was| && all == was[..at] + colours + [255] + was[at + |colours| + 1..]
    ensures |all| == |was| && all[..at] == was[..at] && all[at + |colours| + 1..] == was[at + |colours| + 1..]
    ensures all[at..at + |colours|] == colours && all[at + |colours|] == 255
  {
  }

  /** The samples of the cells before q stay where they were. */
  lemma SamplesStay(was: seq<Byte>, all: seq<Byte>, base: nat, samples: seq<Byte>, k: nat, more: nat, at: nat)
    requires k <= more <= |samples| && k <= at && base + at <= |all| == |was| && base + more <= |was|
    requires all[..base + at] == was[..base + at] && was[base..base + more] == samples[..more]
    ensures all[base..base + k] == samples[..k]
  {
    SubSlice(all, 0, base + at, base, base + k);
    SubSlice(was, 0, base + at, base, base + k);
    SubSlice(was, base, base + more, 0, k);
    assert samples[..more][..k] == samples[..k];
  }

  /** The cells after q stay spread. */
  lemma CellsStay(was: seq<Byte>, all: seq<Byte>, base: nat, end: nat, samples: seq<Byte>, w: nat, x: nat, q: nat)
    requires w > 0 && q < x && 0 <= q * w && base + q * w + w <= base + x * w == end <= |all| == |was|
    requires SpreadFrom(was[base..end], samples, w, q + 1, x) && all[base + q * w + w..] == was[base + q * w + w..]
    requires Spread(all[base..end], samples, w, q)
    ensures SpreadFrom(all[base..end], samples, w, q, x)
  {
    hide Spread;
    forall i | q <= i < x ensures Spread(all[base..end], samples, w, i) {
      if i > q {
        CellBounds(q, i, w);
        CellBounds(i, x, w);
        OtherCell(was, all, base, end, samples, w, i, base + q * w + w);
      }
    }
  }

  /** Cell q has been filled. */
  lemma CellInserted(was: seq<Byte>, all: seq<Byte>, base: nat, samples: seq<Byte>, w: nat, x: nat, q: nat)
    requires w > 0 && q < x && Inserting(was, base, samples, w, x, q + 1)
    requires 0 <= q * (w - 1) && q * (w - 1) + (w - 1) <= |samples| && q * w >= 0 && base + q * w + w <= |all| == |was|
    requires all == was[..base + q * w] + samples[q * (w - 1)..q * (w - 1) + (w - 1)] + [255] + was[base + q * w + w..]
    ensures Inserting(all, base, samples, w, x, q)
    ensures 0 <= x * w && base + x * w <= |all| && all[..base] == was[..base] &&
      all[base + x * w..] == was[base + x * w..]
  {
    hide Spread, SpreadFrom;
    var k, at, end := q * (w - 1), q * w, base + x * w;
    InsertedPlaces(w, x, q);
    CellFilled(was, all, base, end, samples, w, k, at);
    NewCell(all, base, end, samples, w, q);
    CellsStay(was, all, base, end, samples, w, x, q);
  }

  lemma InsertedPlaces(w: nat, x: nat, q: nat)
    requires w > 0 && q < x
    ensures 0 <= q * (w - 1) <= q * w && q * w + w <= x * w && (q + 1) * (w - 1) == q * (w - 1) + (w - 1)
  {
    Step(q + 1, w - 1);
    CellBounds(q, x, w);
    assert q * w == q * (w - 1) + q;
  }

  lemma CellFilled(was: seq<Byte>, all: seq<Byte>, base: nat, end: nat, samples: seq<Byte>, w: nat, k: nat, at: nat)
    requires w > 0 && k <= at && k + (w - 1) <= |samples| && base + at + w <= end <= |all| == |was|
    requires base + k + (w - 1) <= |was| && was[base..base + k + (w - 1)] == samples[..k + (w - 1)]
    requires all == was[..base + at] + samples[k..k + (w - 1)] + [255] + was[base + at + w..]
    ensures all[base..base + k] == samples[..k] && all[base + at + w..] == was[base + at + w..]
    ensures all[base + at..base + at + w - 1] == samples[k..k + (w - 1)] && all[base + at + w - 1] == 255
    ensures all[..base] == was[..base] && all[end..] == was[end..]
  {
    FilledCell(was, all, base + at, samples[k..k + (w - 1)]);
    Framed(all, was, base + at, base + at + w, base, end);
    SamplesStay(was, all, base, samples, k, k + (w - 1), at);
  }

  lemma AllInserted(all: seq<Byte>, base: nat, samples: seq<Byte>, w: nat, x: nat)
    requires w > 0 && Inserting(all, base, samples, w, x, 0) && |samples| == x * (w - 1)
    ensures RowAt(all, base, w - 1, w, x, samples)
  {
    hide Spread;
    AllSpread(all[base..base + x * w], samples, w, x);
    assert samples[..x * (w - 1)] == samples;
    assert x * (w - (w - 1)) == x;
  }

  lemma CellOfOne(was: seq<Byte>, all: seq<Byte>, to: nat, from: nat)
    requires from <= to && to + 2 <= |was| && all == was[to + 1 := 255][to := was[from]]
    ensures all == was[..to] + was[from..from + 1] + [255] + was[to + 2..]
  {
  }

  lemma CellOfThree(was: seq<Byte>, all: seq<Byte>, to: nat, from: nat)
    requires from <= to && to + 4 <= |was|
    requires all == was[to + 3 := 255][to + 2 := was[from + 2]][to + 1 := was[from + 1]][to := was[from]]
    ensures all == was[..to] + was[from..from + 3] + [255] + was[to + 4..]
  {
  }

  /** The statements for one pixel, for one and for three samples. */
  method InsertCell(out: array<Byte>, to: nat, from: nat, imgN: nat, ghost colours: seq<Byte>)
    requires (imgN == 1 || imgN == 3) && from <= to && to + imgN + 1 <= out.Length && out[from..from + imgN] == colours
    modifies out
    ensures out[..] == old(out[..to]) + colours + [255] + old(out[to + imgN + 1..])
  {
    ghost var was := out[..];
    if imgN == 1 {
      out[to + 1] := 255;
      out[to] := out[from];
      CellOfOne(was, out[..], to, from);
    } else {
      out[to + 3] := 255;
      out[to + 2] := out[from + 2];
      out[to + 1] := out[from + 1];
      out[to] := out[from];
      CellOfThree(was, out[..], to, from);
    }
  }

  /** Pixel q, when the pixels after it are done. */
  method SpreadPixel(out: array<Byte>, base: nat, x: nat, imgN: nat, q: nat, ghost samples: seq<Byte>)
    requires (imgN == 1 || imgN == 3) && q < x && Inserting(out[..], base, samples, imgN + 1, x, q + 1)
    modifies out
    ensures Inserting(out[..], base, samples, imgN + 1, x, q)
    ensures 0 <= x * (imgN + 1) && base + x * (imgN + 1) <= out.Length
    ensures out[..base] == old(out[..base]) && out[base + x * (imgN + 1)..] == old(out[base + x * (imgN + 1)..])
  {
    hide Inserting, Spread, Columns, SpreadFrom, Opaque;
    ghost var was, w := out[..], imgN + 1;
    SamplesLeft(was, base, samples, w, x, q);
    InsertCell(out, base + q * (imgN + 1), base + q * imgN, imgN, samples[q * imgN..q * imgN + imgN]);
    CellInserted(was, out[..], base, samples, w, x, q);
  }

  /** Alpha behind the samples of each pixel, from the right end of the row to the left. */
  method InsertAlpha(out: array<Byte>, base: nat, x: nat, imgN: nat, ghost samples: seq<Byte>)
    requires (imgN == 1 || imgN == 3) && |samples| == x * imgN && 0 <= x * (imgN + 1) &&
      base + x * (imgN + 1) <= out.Length
    requires base + |samples| <= out.Length && out[base..base + |samples|] == samples
    modifies out
    ensures RowAt(out[..], base, imgN, imgN + 1, x, samples)
    ensures out[..base] == old(out[..base]) && out[base + x * (imgN + 1)..] == old(out[base + x * (imgN + 1)..])
  {
    hide Inserting, RowAt, Spread, Columns, SpreadFrom, Opaque;
    NoneInserted(out[..], base, samples, imgN + 1, x);
    var q := x;
    while q > 0
      invariant 0 <= q <= x && Inserting(out[..], base, samples, imgN + 1, x, q)
      invariant out[..base] == old(out[..base]) && out[base + x * (imgN + 1)..] == old(out[base + x * (imgN + 1)..])
    {
      q := q - 1;
      SpreadPixel(out, base, x, imgN, q, samples);
    }
    AllInserted(out[..], base, samples, imgN + 1, x);
  }
}
