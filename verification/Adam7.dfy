/** The interlacing of PNG (section 2.6 of RFC 2083). */
module Adam7 {
  import opened Arithmetic
  import opened Bits
  import opened PixelRows
  import opened PngImage
  import opened PngRows
  import opened PngUnpack

  function XOrig(p: nat): (r: nat)
    requires p < 7
  {
    match p
    case 0 => 0
    case 1 => 4
    case 2 => 0
    case 3 => 2
    case 4 => 0
    case 5 => 1
    case _ => 0
  }

  function YOrig(p: nat): (r: nat)
    requires p < 7
  {
    match p
    case 0 => 0
    case 1 => 0
    case 2 => 4
    case 3 => 0
    case 4 => 2
    case 5 => 0
    case _ => 1
  }

  function XSpc(p: nat): (r: nat)
    requires p < 7
    ensures r > 0
  {
    match p
    case 0 => 8
    case 1 => 8
    case 2 => 4
    case 3 => 4
    case 4 => 2
    case 5 => 2
    case _ => 1
  }

  function YSpc(p: nat): (r: nat)
    requires p < 7
    ensures r > 0
  {
    match p
    case 0 => 8
    case 1 => 8
    case 2 => 8
    case 3 => 4
    case 4 => 4
    case 5 => 2
    case _ => 2
  }

  /** The columns and the rows of pass p. */
  function PassWidth(w: nat, p: nat): (x: nat)
    requires p < 7
  {
    (w - XOrig(p) + XSpc(p) - 1) / XSpc(p)
  }

  function PassHeight(h: nat, p: nat): (y: nat)
    requires p < 7
  {
    (h - YOrig(p) + YSpc(p) - 1) / YSpc(p)
  }

  /** The pass that a pixel belongs to, from the eight by eight pattern. */
  function PassOf(x: nat, y: nat): (p: nat)
    ensures p < 7
  {
    if y % 2 == 1 then 6
    else if x % 2 == 1 then 5
    else if y % 4 == 2 then 4
    else if x % 4 == 2 then 3
    else if y % 8 == 4 then 2
    else if x % 8 == 4 then 1
    else 0
  }

  /** The column and the row of a pixel within its pass. */
  function ColumnIn(p: nat, x: nat): (i: nat)
    requires p < 7
  {
    x / XSpc(p)
  }

  function RowIn(p: nat, y: nat): (j: nat)
    requires p < 7
  {
    y / YSpc(p)
  }

  /** The columns of a pass are those of the image with the right remainder, one after the other. */
  lemma ColumnInImage(w: nat, p: nat, i: nat)
    requires p < 7 && i < PassWidth(w, p)
    ensures 0 <= i * XSpc(p) + XOrig(p) < w && (i * XSpc(p) + XOrig(p)) % XSpc(p) == XOrig(p) &&
      ColumnIn(p, i * XSpc(p) + XOrig(p)) == i
  {
  }

  lemma RowInImage(h: nat, p: nat, j: nat)
    requires p < 7 && j < PassHeight(h, p)
    ensures 0 <= j * YSpc(p) + YOrig(p) < h && (j * YSpc(p) + YOrig(p)) % YSpc(p) == YOrig(p) &&
      RowIn(p, j * YSpc(p) + YOrig(p)) == j
  {
  }

  lemma ColumnInPass(w: nat, p: nat, x: nat)
    requires p < 7 && x < w && x % XSpc(p) == XOrig(p)
    ensures ColumnIn(p, x) < PassWidth(w, p) && ColumnIn(p, x) * XSpc(p) + XOrig(p) == x
  {
  }

  lemma RowInPass(h: nat, p: nat, y: nat)
    requires p < 7 && y < h && y % YSpc(p) == YOrig(p)
    ensures RowIn(p, y) < PassHeight(h, p) && RowIn(p, y) * YSpc(p) + YOrig(p) == y
  {
  }

  /** The pattern: a pixel is in the pass for which both its coordinates have the right remainders. */
  lemma Pattern(x: nat, y: nat, p: nat)
    requires p < 7
    ensures PassOf(x, y) == p <==> x % XSpc(p) == XOrig(p) && y % YSpc(p) == YOrig(p)
  {
    hide PassOf, XSpc, YSpc, XOrig, YOrig;
    Remainders(x);
    Remainders(y);
    PatternWithin(x % 8, y % 8, p);
    PassOfPattern(x, y);
    SameRemainders(p, x, y);
  }

  lemma Remainders(n: nat)
    ensures n % 4 == n % 8 % 4 && n % 2 == n % 8 % 2
  {
    var q, r := n / 8, n % 8;
    var a, b := r / 4, r % 4;
    Digits(2 * q + a, b, 4);
    var c, d := r / 2, r % 2;
    Digits(4 * q + c, d, 2);
  }

  lemma PatternWithin(x: nat, y: nat, p: nat)
    requires p < 7 && x < 8 && y < 8
    ensures PassOf(x, y) == p <==> x % XSpc(p) == XOrig(p) && y % YSpc(p) == YOrig(p)
  {
  }

  lemma PassOfPattern(x: nat, y: nat)
    requires x % 4 == x % 8 % 4 && x % 2 == x % 8 % 2 && y % 4 == y % 8 % 4 && y % 2 == y % 8 % 2
    ensures PassOf(x, y) == PassOf(x % 8, y % 8)
  {
    assert x % 8 % 8 == x % 8 && y % 8 % 8 == y % 8;
  }

  lemma SameRemainders(p: nat, x: nat, y: nat)
    requires p < 7 && x % 4 == x % 8 % 4 && x % 2 == x % 8 % 2 && y % 4 == y % 8 % 4 && y % 2 == y % 8 % 2
    ensures x % XSpc(p) == x % 8 % XSpc(p) && y % YSpc(p) == y % 8 % YSpc(p)
  {
  }

  /** Every pixel of a pass has a place in the image, and belongs to that pass there. */
  lemma PassInImage(w: nat, h: nat, p: nat, i: nat, j: nat)
    requires p < 7 && i < PassWidth(w, p) && j < PassHeight(h, p)
    ensures 0 <= i * XSpc(p) + XOrig(p) < w && 0 <= j * YSpc(p) + YOrig(p) < h
    ensures PassOf(i * XSpc(p) + XOrig(p), j * YSpc(p) + YOrig(p)) == p
    ensures ColumnIn(p, i * XSpc(p) + XOrig(p)) == i && RowIn(p, j * YSpc(p) + YOrig(p)) == j
  {
    hide PassOf, ColumnIn, RowIn, PassWidth, PassHeight, XSpc, YSpc, XOrig, YOrig;
    ColumnInImage(w, p, i);
    RowInImage(h, p, j);
    Pattern(i * XSpc(p) + XOrig(p), j * YSpc(p) + YOrig(p), p);
  }

  /** Every pixel of the image is in its pass. */
  lemma ImageInPass(w: nat, h: nat, x: nat, y: nat)
    requires x < w && y < h
    ensures var p := PassOf(x, y); ColumnIn(p, x) < PassWidth(w, p) && RowIn(p, y) < PassHeight(h, p)
    ensures var p := PassOf(x, y); ColumnIn(p, x) * XSpc(p) + XOrig(p) == x && RowIn(p, y) * YSpc(p) + YOrig(p) == y
  {
    hide PassOf, ColumnIn, RowIn, PassWidth, PassHeight, XSpc, YSpc, XOrig, YOrig;
    var p := PassOf(x, y);
    Pattern(x, y, p);
    ColumnInPass(w, p, x);
    RowInPass(h, p, y);
  }

  /** The seven passes write every pixel exactly once: a pixel has one pass, one column and one row. */
  lemma OncePerPixel(w: nat, h: nat, x: nat, y: nat)
    requires x < w && y < h
    ensures exists p, i, j :: Writes(w, h, p, i, j, x, y)
    ensures forall p, i, j, p', i', j' :: Writes(w, h, p, i, j, x, y) && Writes(w, h, p', i', j', x, y) ==>
      p == p' && i == i' && j == j'
  {
    hide PassOf, ColumnIn, RowIn, PassWidth, PassHeight, XSpc, YSpc, XOrig, YOrig;
    ImageInPass(w, h, x, y);
    assert Writes(w, h, PassOf(x, y), ColumnIn(PassOf(x, y), x), RowIn(PassOf(x, y), y), x, y);
    forall p, i, j | Writes(w, h, p, i, j, x, y) ensures p == PassOf(x, y) && i == ColumnIn(p, x) && j == RowIn(p, y) {
      PassInImage(w, h, p, i, j);
    }
  }

  /** Step (i, j) of pass p writes the pixel (x, y). */
  ghost predicate Writes(w: nat, h: nat, p: nat, i: nat, j: nat, x: nat, y: nat) {
    p < 7 && i < PassWidth(w, p) && j < PassHeight(h, p) && x == i * XSpc(p) + XOrig(p) && y == j * YSpc(p) + YOrig(p)
  }

  // ---------- De-interlacing ----------

  /** The bytes of the pixel at (x, y) in an image of width w with ob bytes per pixel. */
  function Pixel(s: seq<Byte>, w: nat, ob: nat, x: nat, y: nat): seq<Byte> {
    if 0 <= (y * w + x) * ob && (y * w + x) * ob + ob <= |s| then s[(y * w + x) * ob..(y * w + x) * ob + ob] else []
  }

  lemma PixelIn(w: nat, h: nat, ob: nat, x: nat, y: nat)
    requires x < w && y < h
    ensures 0 <= y * w + x < h * w && 0 <= (y * w + x) * ob && (y * w + x) * ob + ob <= h * w * ob
  {
    CellBounds(y, h, w);
    assert y * w >= 0;
    CellBounds(y * w + x, h * w, ob);
  }

  /** Writing one pixel changes no other. */
  lemma PixelWritten(was: seq<Byte>, all: seq<Byte>, w: nat, h: nat, ob: nat, x: nat, y: nat, x': nat, y': nat,
                     colour: seq<Byte>)
    requires x < w && y < h && x' < w && y' < h && |was| == h * w * ob && |colour| == ob
    requires 0 <= (y * w + x) * ob && (y * w + x) * ob + ob <= |was|
    requires all == was[..(y * w + x) * ob] + colour + was[(y * w + x) * ob + ob..]
    ensures Pixel(all, w, ob, x', y') == if x == x' && y == y' then colour else Pixel(was, w, ob, x', y')
  {
    var n, n' := y * w + x, y' * w + x';
    PixelIn(w, h, ob, x', y');
    if n == n' {
      DigitsUnique(y, x, y', x', w);
    } else {
      CellsApart(n, n', ob);
      OtherSlice(was, colour, n * ob, n' * ob, ob);
    }
  }

  lemma OtherSlice(was: seq<Byte>, mid: seq<Byte>, at: nat, k: nat, n: nat)
    requires |mid| == n && at + n <= |was| && k + n <= |was| && (k + n <= at || at + n <= k)
    ensures (was[..at] + mid + was[at + n..])[k..k + n] == was[k..k + n]
  {
  }

  /** `memcpy` */
  method CopyBytes(dst: array<Byte>, to: nat, src: array<Byte>, from: nat, n: nat)
    requires dst != src && to + n <= dst.Length && from + n <= src.Length
    modifies dst
    ensures dst[..] == old(dst[..to]) + src[from..from + n] + old(dst[to + n..])
  {
    for k := 0 to n
      invariant dst[..to] == old(dst[..to]) && dst[to + n..] == old(dst[to + n..])
      invariant dst[to..to + k] == src[from..from + k]
    {
      dst[to + k] := src[from + k];
    }
  }

  /** The pixel (x, y) when the pass p has come to row j and column i: from the image of the pass if it has been
      written, as it was if not. */
  function Progress(was: seq<Byte>, src: seq<Byte>, w: nat, ob: nat, p: nat, i: nat, j: nat, x: nat, y: nat): seq<Byte>
    requires p < 7
  {
    if PassOf(x, y) == p && (RowIn(p, y) < j || (RowIn(p, y) == j && ColumnIn(p, x) < i))
    then Pixel(src, PassWidth(w, p), ob, ColumnIn(p, x), RowIn(p, y))
    else Pixel(was, w, ob, x, y)
  }

  ghost predicate Copied(all: seq<Byte>, was: seq<Byte>, src: seq<Byte>, w: nat, h: nat, ob: nat, p: nat, i: nat,
                         j: nat)
    requires p < 7
  {
    forall x: nat, y: nat :: x < w && y < h ==> Pixel(all, w, ob, x, y) == Progress(was, src, w, ob, p, i, j, x, y)
  }

  lemma CopiedNext(now: seq<Byte>, all: seq<Byte>, was: seq<Byte>, src: seq<Byte>, w: nat, h: nat, ob: nat, p: nat,
                   i: nat, j: nat, colour: seq<Byte>)
    requires p < 7 && i < PassWidth(w, p) && j < PassHeight(h, p) && Copied(now, was, src, w, h, ob, p, i, j)
    requires |now| == h * w * ob && |colour| == ob && colour == Pixel(src, PassWidth(w, p), ob, i, j)
    requires var at := ((j * YSpc(p) + YOrig(p)) * w + (i * XSpc(p) + XOrig(p))) * ob;
      0 <= at && at + ob <= |now| && all == now[..at] + colour + now[at + ob..]
    ensures Copied(all, was, src, w, h, ob, p, i + 1, j)
  {
    hide Pixel, PassOf, ColumnIn, RowIn, PassWidth, PassHeight, XSpc, YSpc, XOrig, YOrig;
    PassInImage(w, h, p, i, j);
    var x0, y0 := i * XSpc(p) + XOrig(p), j * YSpc(p) + YOrig(p);
    forall x: nat, y: nat | x < w && y < h
      ensures Pixel(all, w, ob, x, y) == Progress(was, src, w, ob, p, i + 1, j, x, y)
    {
      PixelWritten(now, all, w, h, ob, x0, y0, x, y, colour);
      ImageInPass(w, h, x, y);
    }
  }

  lemma CopiedRow(all: seq<Byte>, was: seq<Byte>, src: seq<Byte>, w: nat, h: nat, ob: nat, p: nat, j: nat)
    requires p < 7 && Copied(all, was, src, w, h, ob, p, PassWidth(w, p), j)
    ensures Copied(all, was, src, w, h, ob, p, 0, j + 1)
  {
    hide Pixel, PassOf, ColumnIn, RowIn, PassWidth, PassHeight, XSpc, YSpc, XOrig, YOrig;
    forall x: nat, y: nat | x < w && y < h
      ensures Pixel(all, w, ob, x, y) == Progress(was, src, w, ob, p, 0, j + 1, x, y)
    {
      ImageInPass(w, h, x, y);
    }
  }

  lemma NothingCopied(was: seq<Byte>, src: seq<Byte>, w: nat, h: nat, ob: nat, p: nat)
    requires p < 7
    ensures Copied(was, was, src, w, h, ob, p, 0, 0)
  {
  }

  /** The loops over one pass: they write the pixels of the pass and no others. */
  method CopyPass(final: array<Byte>, src: array<Byte>, w: nat, h: nat, ob: nat, p: nat)
    requires p < 7 && final != src && final.Length == h * w * ob &&
      src.Length == PassHeight(h, p) * PassWidth(w, p) * ob
    modifies final
    ensures Copied(final[..], old(final[..]), src[..], w, h, ob, p, 0, PassHeight(h, p))
  {
    hide Copied, Pixel, PassOf, ColumnIn, RowIn, PassWidth, PassHeight, XSpc, YSpc, XOrig, YOrig;
    var pw, ph := PassWidth(w, p), PassHeight(h, p);
    ghost var was := final[..];
    NothingCopied(was, src[..], w, h, ob, p);
    for j := 0 to ph
      invariant Copied(final[..], was, src[..], w, h, ob, p, 0, j)
    {
      for i := 0 to pw
        invariant Copied(final[..], was, src[..], w, h, ob, p, i, j)
      {
        var outY := j * YSpc(p) + YOrig(p);
        var outX := i * XSpc(p) + XOrig(p);
        PassInImage(w, h, p, i, j);
        PixelIn(w, h, ob, outX, outY);
        PixelIn(pw, ph, ob, i, j);
        PlaceInBytes(outY, w, ob, outX);
        ghost var now := final[..];
        CopyBytes(final, outY * w * ob + outX * ob, src, (j * pw + i) * ob, ob);
        PixelBytes(src[..], pw, ob, i, j);
        CopiedNext(now, final[..], was, src[..], w, h, ob, p, i, j, src[(j * pw + i) * ob..(j * pw + i) * ob + ob]);
      }
      CopiedRow(final[..], was, src[..], w, h, ob, p, j);
    }
  }

  lemma PlaceInBytes(y: nat, w: nat, ob: nat, x: nat)
    ensures y * w * ob + x * ob == (y * w + x) * ob
  {
  }

  lemma PixelBytes(s: seq<Byte>, w: nat, ob: nat, x: nat, y: nat)
    requires 0 <= (y * w + x) * ob && (y * w + x) * ob + ob <= |s|
    ensures Pixel(s, w, ob, x, y) == s[(y * w + x) * ob..(y * w + x) * ob + ob]
  {
  }

  /** The pixels of the passes before p are in place. */
  ghost predicate Assembled(all: seq<Byte>, images: seq<seq<Byte>>, w: nat, h: nat, ob: nat, p: nat) {
    |images| == p && forall x: nat, y: nat :: x < w && y < h && PassOf(x, y) < p ==> FromPass(all, images, w, ob, x, y)
  }

  /** The pixel (x, y) is the one in its column and its row of the image of its pass. */
  ghost predicate FromPass(all: seq<Byte>, images: seq<seq<Byte>>, w: nat, ob: nat, x: nat, y: nat)
    requires PassOf(x, y) < |images|
  {
    var p := PassOf(x, y);
    Pixel(all, w, ob, x, y) == Pixel(images[p], PassWidth(w, p), ob, ColumnIn(p, x), RowIn(p, y))
  }

  lemma AssembledNext(was: seq<Byte>, all: seq<Byte>, images: seq<seq<Byte>>, src: seq<Byte>, w: nat, h: nat, ob: nat,
                      p: nat)
    requires p < 7 && Assembled(was, images, w, h, ob, p) && Copied(all, was, src, w, h, ob, p, 0, PassHeight(h, p))
    ensures Assembled(all, images + [src], w, h, ob, p + 1)
  {
    hide Pixel, PassOf, ColumnIn, RowIn, PassWidth, PassHeight, XSpc, YSpc, XOrig, YOrig;
    forall x: nat, y: nat | x < w && y < h && PassOf(x, y) < p + 1 ensures FromPass(all, images + [src], w, ob, x, y) {
      ImageInPass(w, h, x, y);
      assert Pixel(all, w, ob, x, y) == Progress(was, src, w, ob, p, 0, PassHeight(h, p), x, y);
      assert PassOf(x, y) < p ==> FromPass(was, images, w, ob, x, y);
    }
  }

  lemma EmptyPass(all: seq<Byte>, images: seq<seq<Byte>>, w: nat, h: nat, ob: nat, p: nat)
    requires p < 7 && Assembled(all, images, w, h, ob, p) && (PassWidth(w, p) == 0 || PassHeight(h, p) == 0)
    ensures Assembled(all, images + [[]], w, h, ob, p + 1)
  {
    hide Pixel, PassOf, ColumnIn, RowIn, PassWidth, PassHeight, XSpc, YSpc, XOrig, YOrig;
    forall x: nat, y: nat | x < w && y < h && PassOf(x, y) < p + 1 ensures FromPass(all, images + [[]], w, ob, x, y) {
      ImageInPass(w, h, x, y);
      assert FromPass(all, images, w, ob, x, y);
    }
  }

  predicate HasPixels(w: nat, h: nat, p: nat)
    requires p < 7
  {
    PassWidth(w, p) > 0 && PassHeight(h, p) > 0
  }

  /** Where the data of pass p starts: empty passes have none. */
  function Offset(w: nat, h: nat, imgN: nat, depth: nat, p: nat): (o: nat)
    requires p <= 7
  {
    if p == 0 then 0 else
      Offset(w, h, imgN, depth, p - 1) +
      (if HasPixels(w, h, p - 1) then (RowBytes(imgN, PassWidth(w, p - 1), depth) + 1) * PassHeight(h, p - 1) else 0)
  }

  /** The data of pass p is complete and valid. */
  ghost predicate PassThere(data: seq<Byte>, w: nat, h: nat, imgN: nat, outN: nat, depth: nat, p: nat)
    requires p < 7
  {
    HasPixels(w, h, p) ==>
      && Offset(w, h, imgN, depth, p) <= |data|
      && SizesValid(imgN, outN, PassWidth(w, p), PassHeight(h, p), depth)
      && Filters(data[Offset(w, h, imgN, depth, p)..], RowBytes(imgN, PassWidth(w, p), depth), PassHeight(h, p))
  }

  /** An image of its own is decoded for pass p. */
  ghost predicate PassShown(image: seq<Byte>, data: seq<Byte>, w: nat, h: nat, imgN: nat, outN: nat, depth: nat,
                            gray: bool, little: bool, p: nat)
    requires p < 7 && Supported(imgN, outN, w, depth)
  {
    HasPixels(w, h, p) ==>
      && PassThere(data, w, h, imgN, outN, depth, p)
      && Shows(image, imgN, outN, PassWidth(w, p), depth, gray, little,
           Decoded(data[Offset(w, h, imgN, depth, p)..], RowBytes(imgN, PassWidth(w, p), depth),
             FilterBytes(imgN, depth), PassHeight(h, p)))
  }

  ghost predicate PassesThere(data: seq<Byte>, w: nat, h: nat, imgN: nat, outN: nat, depth: nat, n: nat)
    requires n <= 7
  {
    forall p :: 0 <= p < n ==> PassThere(data, w, h, imgN, outN, depth, p)
  }

  ghost predicate PassesShown(images: seq<seq<Byte>>, data: seq<Byte>, w: nat, h: nat, imgN: nat, outN: nat, depth: nat,
                              gray: bool, little: bool)
    requires |images| <= 7 && Supported(imgN, outN, w, depth)
  {
    forall p :: 0 <= p < |images| ==> PassShown(images[p], data, w, h, imgN, outN, depth, gray, little, p)
  }

  /** The number of bytes of the result. */
  function ImageBytes(w: nat, h: nat, outN: nat, depth: nat): (n: nat) {
    h * w * OutBytes(outN, depth)
  }

  /** The image of one pass. */
  method CreatePass(data: seq<Byte>, final: array<Byte>, w: nat, h: nat, imgN: nat, outN: nat, depth: nat, gray: bool,
                    little: bool, p: nat, ghost all: seq<Byte>)
    returns (ok: bool, rest: seq<Byte>, ghost image: seq<Byte>)
    requires p < 7 && Supported(imgN, outN, w, depth) && final.Length == ImageBytes(w, h, outN, depth)
    requires Offset(w, h, imgN, depth, p) <= |all| && data == all[Offset(w, h, imgN, depth, p)..] && HasPixels(w, h, p)
    modifies final
    ensures ok <==> PassThere(all, w, h, imgN, outN, depth, p)
    ensures ok ==> Offset(w, h, imgN, depth, p + 1) <= |all| && rest == all[Offset(w, h, imgN, depth, p + 1)..]
    ensures ok ==> PassShown(image, all, w, h, imgN, outN, depth, gray, little, p)
    ensures ok ==> Copied(final[..], old(final[..]), image, w, h, OutBytes(outN, depth), p, 0, PassHeight(h, p))
  {
    hide Filters, Shows, Decoded, Copied, SizesValid, RowBytes, XSpc, YSpc, XOrig, YOrig, PassWidth, PassHeight;
    var x, y := PassWidth(w, p), PassHeight(h, p);
    var imgLen := (RowBytes(imgN, x, depth) + 1) * y;
    var src;
    ok, src := CreateImageRaw(data, imgN, outN, x, y, depth, gray, little, []);
    rest, image := [], src[..];
    if ok {
      Enough(data, RowBytes(imgN, x, depth), y);
      SidesSwapped(x, y, OutBytes(outN, depth));
      CopyPass(final, src, w, h, OutBytes(outN, depth), p);
      rest := data[imgLen..];
    }
  }

  lemma Enough(raw: seq<Byte>, w: nat, y: nat)
    requires Filters(raw, w, y)
    ensures 0 <= (w + 1) * y <= |raw|
  {
  }

  lemma SidesSwapped(x: nat, y: nat, ob: nat)
    ensures x * y * ob == y * x * ob
  {
  }

  // ---------- The passes of an image ----------

  /** The bytes of cell i in a row whose cells have n bytes. */
  function Cell(row: seq<Byte>, n: nat, i: nat): seq<Byte> {
    if 0 <= i * n && i * n + n <= |row| then row[i * n..i * n + n] else []
  }

  /** The rows of pass p are those of the image, each with the pixels of its columns. */
  ghost predicate PassOfImage(rows: seq<seq<Byte>>, image: seq<seq<Byte>>, w: nat, h: nat, imgN: nat, depth: nat,
                              gray: bool, little: bool, p: nat)
    requires p < 7 && |image| == h && (depth < 8 ==> Packed(depth))
  {
    && |rows| == PassHeight(h, p)
    && (forall j :: 0 <= j < |rows| ==> |rows[j]| == RowBytes(imgN, PassWidth(w, p), depth))
    && forall x: nat, y: nat :: x < w && y < h && PassOf(x, y) == p ==>
      SamePixel(Shown(imgN, PassWidth(w, p), depth, gray, little, rows), image, ColourBytes(imgN, depth), p, x, y)
  }

  ghost predicate SamePixel(shown: seq<seq<Byte>>, image: seq<seq<Byte>>, cb: nat, p: nat, x: nat, y: nat)
    requires p < 7 && y < |image|
  {
    RowIn(p, y) < |shown| && Cell(shown[RowIn(p, y)], cb, ColumnIn(p, x)) == Cell(image[y], cb, x)
  }

  /** The seven passes of an image of h rows. */
  ghost predicate PassesOf(passes: seq<seq<seq<Byte>>>, image: seq<seq<Byte>>, w: nat, h: nat, imgN: nat, depth: nat,
                           gray: bool, little: bool)
    requires depth < 8 ==> Packed(depth)
  {
    && |passes| == 7 && |image| == h
    && (forall y :: 0 <= y < h ==> |image[y]| == w * ColourBytes(imgN, depth))
    && forall p :: 0 <= p < 7 ==> PassOfImage(passes[p], image, w, h, imgN, depth, gray, little, p)
  }

  /** The data of pass p is there, each row filtered with some filter. */
  ghost predicate PassEncoded(data: seq<Byte>, rows: seq<seq<Byte>>, w: nat, h: nat, imgN: nat, depth: nat, p: nat)
    requires p < 7
  {
    HasPixels(w, h, p) ==>
      && Offset(w, h, imgN, depth, p) <= |data|
      && Encodes(data[Offset(w, h, imgN, depth, p)..], RowBytes(imgN, PassWidth(w, p), depth), FilterBytes(imgN, depth),
           rows)
  }

  ghost predicate PassesEncoded(data: seq<Byte>, passes: seq<seq<seq<Byte>>>, w: nat, h: nat, imgN: nat, depth: nat) {
    |passes| == 7 && forall p :: 0 <= p < 7 ==> PassEncoded(data, passes[p], w, h, imgN, depth, p)
  }

  /** The data is that of the image: its seven passes, filtered and one after the other. */
  ghost predicate EncodesImage(data: seq<Byte>, passes: seq<seq<seq<Byte>>>, image: seq<seq<Byte>>, w: nat, h: nat,
                               imgN: nat, depth: nat, gray: bool, little: bool)
    requires depth < 8 ==> Packed(depth)
  {
    PassesOf(passes, image, w, h, imgN, depth, gray, little) && PassesEncoded(data, passes, w, h, imgN, depth)
  }

  /** A pass is no larger than the image. */
  lemma SmallerPass(w: nat, h: nat, imgN: nat, outN: nat, depth: nat, p: nat)
    requires p < 7 && SizesValid(imgN, outN, w, h, depth) && HasPixels(w, h, p)
    ensures SizesValid(imgN, outN, PassWidth(w, p), PassHeight(h, p), depth)
  {
    hide OutBytes, PassWidth, PassHeight;
    var x, y, ob := PassWidth(w, p), PassHeight(h, p), OutBytes(outN, depth);
    NarrowerPass(w, h, p);
    Products(x, w, y, h, ob);
    Products(x, w, imgN, imgN, depth);
    assert x * imgN * depth == imgN * x * depth && w * imgN * depth == imgN * w * depth;
  }

  lemma NarrowerPass(w: nat, h: nat, p: nat)
    requires p < 7 && HasPixels(w, h, p)
    ensures PassWidth(w, p) <= w && PassHeight(h, p) <= h
  {
  }

  lemma Products(a: nat, b: nat, c: nat, d: nat, m: nat)
    requires a <= b && c <= d
    ensures a * c * m <= b * d * m
  {
    MulMonotone(a, b, c);
    MulMonotone(c, d, b);
    MulMonotone(a * c, b * d, m);
  }

  lemma EncodedThere(data: seq<Byte>, passes: seq<seq<seq<Byte>>>, image: seq<seq<Byte>>, w: nat, h: nat, imgN: nat,
                     outN: nat, depth: nat, gray: bool, little: bool)
    requires Supported(imgN, outN, w, depth) && SizesValid(imgN, outN, w, h, depth)
    requires EncodesImage(data, passes, image, w, h, imgN, depth, gray, little)
    ensures PassesThere(data, w, h, imgN, outN, depth, 7)
  {
    hide SizesValid, Filters, RowBytes, PassWidth, PassHeight, Offset, RowEncodes, Shown, SamePixel;
    forall p | 0 <= p < 7 ensures PassThere(data, w, h, imgN, outN, depth, p) {
      assert PassEncoded(data, passes[p], w, h, imgN, depth, p) &&
        PassOfImage(passes[p], image, w, h, imgN, depth, gray, little, p);
      if HasPixels(w, h, p) { SmallerPass(w, h, imgN, outN, depth, p); }
    }
  }

  /** The image of an encoded pass shows the rows that were encoded. */
  lemma EncodedShown(picture: seq<Byte>, data: seq<Byte>, rows: seq<seq<Byte>>, w: nat, h: nat, imgN: nat, outN: nat,
                     depth: nat, gray: bool, little: bool, p: nat)
    requires p < 7 && Supported(imgN, outN, w, depth) && HasPixels(w, h, p) && |rows| == PassHeight(h, p)
    requires PassShown(picture, data, w, h, imgN, outN, depth, gray, little, p) &&
      PassEncoded(data, rows, w, h, imgN, depth, p)
    ensures forall j :: 0 <= j < |rows| ==> |rows[j]| == RowBytes(imgN, PassWidth(w, p), depth)
    ensures Shows(picture, imgN, outN, PassWidth(w, p), depth, gray, little, rows)
  {
    hide Shows, Decoded, Filters, RowBytes, FilterBytes, PassWidth, PassHeight, Offset, RowEncodes, SizesValid;
    SomeFilterBytes(imgN, outN, w, depth);
    UnfilterInverts(data[Offset(w, h, imgN, depth, p)..], RowBytes(imgN, PassWidth(w, p), depth),
      FilterBytes(imgN, depth), rows);
  }

  /** The bytes lo to hi of pixel i. */
  lemma BytesOfPixel(all: seq<Byte>, base: nat, lo: nat, hi: nat, w: nat, n: nat, i: nat, at: nat, k: nat)
    requires lo <= hi <= w && 0 <= n * w && base + n * w <= |all| && i < n && at == i * w && k == i * (hi - lo)
    ensures at + w <= n * w && k + (hi - lo) <= n * (hi - lo)
    ensures all[base + at + lo..base + at + hi] == Columns(all[base..base + n * w], lo, hi, w, n)[k..k + (hi - lo)]
  {
    hide Columns;
    ColumnsOfCell(all[base..base + n * w], lo, hi, w, n, i, at, k);
    SubSlice(all, base, base + n * w, at + lo, at + hi);
  }

  /** What a pixel of a finished row consists of. */
  lemma CellShown(all: seq<Byte>, base: nat, fb: nat, ob: nat, n: nat, row: seq<Byte>, i: nat, at: nat)
    requires fb <= ob && RowAt(all, base, fb, ob, n, row) && i < n && at == base + i * ob
    ensures at + ob <= |all| && all[at..at + fb] == Cell(row, fb, i) && all[at + fb..at + ob] == Opaque(ob - fb)
  {
    hide Columns, Opaque;
    var c, k, o := i * ob, i * fb, i * (ob - fb);
    BytesOfPixel(all, base, 0, fb, ob, n, i, c, k);
    BytesOfPixel(all, base, fb, ob, ob, n, i, c, o);
    OpaquePart(n * (ob - fb), o, ob - fb);
  }

  lemma OpaquePart(n: nat, from: nat, k: nat)
    requires from + k <= n
    ensures Opaque(n)[from..from + k] == Opaque(k)
  {
  }

  /** A row whose pixels all are those of row is that row. */
  lemma {:induction false} RowOfCells(cells: seq<Byte>, fb: nat, ob: nat, n: nat, row: seq<Byte>)
    requires fb <= ob && 0 <= n * ob <= |cells| && |row| == n * fb && 0 <= n * (ob - fb)
    requires forall i :: 0 <= i < n ==> CellIs(cells, fb, ob, i, row)
    ensures Columns(cells, 0, fb, ob, n) == row && Columns(cells, fb, ob, ob, n) == Opaque(n * (ob - fb))
  {
    hide Columns, Opaque, Cell;
    if n == 0 {
      NoColumns(cells, 0, fb, ob);
      NoColumns(cells, fb, ob, ob);
    } else {
      Step(n, ob);
      Step(n, fb);
      Step(n, ob - fb);
      var at, k := (n - 1) * ob, (n - 1) * fb;
      var less := row[..k];
      forall i | 0 <= i < n - 1 ensures CellIs(cells, fb, ob, i, less) {
        assert CellIs(cells, fb, ob, i, row);
        CellOfPrefix(row, fb, i, n - 1);
      }
      RowOfCells(cells, fb, ob, n - 1, less);
      assert CellIs(cells, fb, ob, n - 1, row);
      NextColumn(cells, 0, fb, ob, n - 1, at);
      NextColumn(cells, fb, ob, ob, n - 1, at);
      LastCell(row, fb, n - 1);
      OpaqueConcat((n - 1) * (ob - fb), ob - fb);
    }
  }

  lemma CellOfPrefix(row: seq<Byte>, n: nat, i: nat, m: nat)
    requires i < m && 0 <= m * n <= |row|
    ensures Cell(row[..m * n], n, i) == Cell(row, n, i)
  {
    CellBounds(i, m, n);
    SubSlice(row, 0, m * n, i * n, i * n + n);
    assert row[0..m * n] == row[..m * n];
  }

  lemma LastCell(row: seq<Byte>, n: nat, m: nat)
    requires 0 <= m * n && |row| == m * n + n
    ensures row == row[..m * n] + Cell(row, n, m)
  {
  }

  lemma OpaqueConcat(m: nat, n: nat)
    ensures Opaque(m) + Opaque(n) == Opaque(m + n)
  {
  }

  ghost predicate CellIs(cells: seq<Byte>, fb: nat, ob: nat, i: nat, row: seq<Byte>)
    requires fb <= ob
  {
    0 <= i * ob && i * ob + ob <= |cells| && cells[i * ob..i * ob + fb] == Cell(row, fb, i) &&
      cells[i * ob + fb..i * ob + ob] == Opaque(ob - fb)
  }

  /** The pixel at (x, y) of the output is that of the image, with opaque alpha where it has more bytes. */
  lemma PixelOfImage(all: seq<Byte>, pictures: seq<seq<Byte>>, data: seq<Byte>, passes: seq<seq<seq<Byte>>>,
                     image: seq<seq<Byte>>,
                     w: nat, h: nat, imgN: nat, outN: nat, depth: nat, gray: bool, little: bool, x: nat, y: nat)
    requires Supported(imgN, outN, w, depth) && x < w && y < h && |pictures| == 7
    requires PassesShown(pictures, data, w, h, imgN, outN, depth, gray, little) &&
      FromPass(all, pictures, w, OutBytes(outN, depth), x, y)
    requires PassesOf(passes, image, w, h, imgN, depth, gray, little) && PassesEncoded(data, passes, w, h, imgN, depth)
    ensures PixelIs(Pixel(all, w, OutBytes(outN, depth), x, y), ColourBytes(imgN, depth), OutBytes(outN, depth),
      Cell(image[y], ColourBytes(imgN, depth), x))
  {
    hide Shown, Decoded, Filters, RowBytes, FilterBytes, PassWidth, PassHeight, Offset, RowEncodes, SizesValid,
      PassShown, PassEncoded, PassOf, RowIn, ColumnIn,
      XSpc, YSpc, XOrig, YOrig, Pixel, Cell, RowAt, OutBytes, ColourBytes, PixelIs;
    var p := PassOf(x, y);
    var i, j, pw, cb, ob := ColumnIn(p, x), RowIn(p, y), PassWidth(w, p), ColourBytes(imgN, depth),
      OutBytes(outN, depth);
    ImageInPass(w, h, x, y);
    assert PassShown(pictures[p], data, w, h, imgN, outN, depth, gray, little, p) &&
      PassEncoded(data, passes[p], w, h, imgN, depth, p);
    assert PassOfImage(passes[p], image, w, h, imgN, depth, gray, little, p);
    EncodedShown(pictures[p], data, passes[p], w, h, imgN, outN, depth, gray, little, p);
    var shown := Shown(imgN, pw, depth, gray, little, passes[p]);
    assert SamePixel(shown, image, cb, p, x, y);
    NotFewer(imgN, outN, depth);
    assert ImageRow(pictures[p], cb, ob, pw, pw * ob, 0, shown, j);
    PixelShown(pictures[p], cb, ob, pw, shown[j], i, j);
  }

  /** The bytes of a pixel in the output: the colours and opaque alpha. */
  ghost predicate PixelIs(pixel: seq<Byte>, cb: nat, ob: nat, colours: seq<Byte>) {
    cb <= ob == |pixel| && pixel[..cb] == colours && pixel[cb..] == Opaque(ob - cb)
  }

  lemma PixelShown(all: seq<Byte>, cb: nat, ob: nat, n: nat, row: seq<Byte>, i: nat, j: nat)
    requires cb <= ob && 0 <= j * (n * ob) && RowAt(all, j * (n * ob), cb, ob, n, row) && i < n
    ensures PixelIs(Pixel(all, n, ob, i, j), cb, ob, Cell(row, cb, i))
  {
    hide RowAt, Cell, Opaque;
    PlaceInRows(i, n, j, ob);
    CellShown(all, j * (n * ob), cb, ob, n, row, i, (j * n + i) * ob);
  }

  lemma PlaceInRows(i: nat, n: nat, j: nat, ob: nat)
    ensures (j * n + i) * ob == j * (n * ob) + i * ob && 0 <= i * ob && 0 <= j * n && 0 <= j * (n * ob)
  {
    assert j * n * ob == j * (n * ob);
  }

  /** All the rows of the output from their pixels. */
  lemma RowsOfPixels(all: seq<Byte>, image: seq<seq<Byte>>, w: nat, cb: nat, ob: nat)
    requires cb <= ob && |all| == |image| * w * ob && forall y :: 0 <= y < |image| ==> |image[y]| == w * cb
    requires forall x: nat, y: nat :: x < w && y < |image| ==>
      PixelIs(Pixel(all, w, ob, x, y), cb, ob, Cell(image[y], cb, x))
    ensures 0 <= w * ob && RowsAt(all, cb, ob, w, w * ob, 0, image)
  {
    hide RowAt, Pixel, PixelIs, Cell;
    assert w * ob >= 0;
    forall y | 0 <= y < |image| ensures ImageRow(all, cb, ob, w, w * ob, 0, image, y) {
      RowOfPixels(all, image[y], w, |image|, cb, ob, y);
    }
  }

  lemma RowOfPixels(all: seq<Byte>, row: seq<Byte>, w: nat, h: nat, cb: nat, ob: nat, y: nat)
    requires cb <= ob && |all| == h * w * ob && y < h && |row| == w * cb
    requires forall x: nat :: x < w ==> PixelIs(Pixel(all, w, ob, x, y), cb, ob, Cell(row, cb, x))
    ensures 0 <= y * (w * ob) && RowAt(all, y * (w * ob), cb, ob, w, row)
  {
    hide Pixel, PixelIs, Cell, Columns, Opaque;
    PlaceInRows(0, w, y, ob);
    PlaceInRows(0, w, h, ob);
    CellBounds(y, h, w * ob);
    assert w * ob >= 0 && w * (ob - cb) >= 0;
    var base, end := y * (w * ob), y * (w * ob) + w * ob;
    forall i | 0 <= i < w ensures CellIs(all[base..end], cb, ob, i, row) {
      PixelInRow(all, row, w, cb, ob, i, y);
    }
    RowOfCells(all[base..end], cb, ob, w, row);
  }

  lemma PixelInRow(all: seq<Byte>, row: seq<Byte>, w: nat, cb: nat, ob: nat, i: nat, y: nat)
    requires cb <= ob && 0 <= w * ob && 0 <= y * (w * ob) && y * (w * ob) + w * ob <= |all| && i < w
    requires PixelIs(Pixel(all, w, ob, i, y), cb, ob, Cell(row, cb, i))
    ensures CellIs(all[y * (w * ob)..y * (w * ob) + w * ob], cb, ob, i, row)
  {
    hide Cell, Opaque;
    PlaceInRows(i, w, y, ob);
    CellBounds(i, w, ob);
    var base, at := y * (w * ob), (y * w + i) * ob;
    SubSlice(all, base, base + w * ob, i * ob, i * ob + cb);
    SubSlice(all, base, base + w * ob, i * ob + cb, i * ob + ob);
    SubSlice(all, at, at + ob, 0, cb);
    SubSlice(all, at, at + ob, cb, ob);
  }

  /** De-interlacing gives the image whose passes were encoded. */
  lemma ImageRestored(all: seq<Byte>, pictures: seq<seq<Byte>>, data: seq<Byte>, passes: seq<seq<seq<Byte>>>,
                      image: seq<seq<Byte>>,
                      w: nat, h: nat, imgN: nat, outN: nat, depth: nat, gray: bool, little: bool)
    requires Supported(imgN, outN, w, depth) && |all| == ImageBytes(w, h, outN, depth) && |pictures| == 7
    requires PassesShown(pictures, data, w, h, imgN, outN, depth, gray, little)
    requires forall x: nat, y: nat :: x < w && y < h ==> FromPass(all, pictures, w, OutBytes(outN, depth), x, y)
    requires EncodesImage(data, passes, image, w, h, imgN, depth, gray, little)
    ensures HoldsImage(all, image, w, imgN, outN, depth)
  {
    hide PassesShown, FromPass, PassOfImage, PassesEncoded, RowsAt, OutBytes, ColourBytes, PixelIs;
    NotFewer(imgN, outN, depth);
    forall x: nat, y: nat | x < w && y < h
      ensures PixelIs(Pixel(all, w, OutBytes(outN, depth), x, y), ColourBytes(imgN, depth), OutBytes(outN, depth),
        Cell(image[y], ColourBytes(imgN, depth), x))
    {
      PixelOfImage(all, pictures, data, passes, image, w, h, imgN, outN, depth, gray, little, x, y);
    }
    RowsOfPixels(all, image, w, ColourBytes(imgN, depth), OutBytes(outN, depth));
  }

  /** Every row of the image is in the output, with opaque alpha where pixels have more bytes there. */
  ghost predicate HoldsImage(all: seq<Byte>, image: seq<seq<Byte>>, w: nat, imgN: nat, outN: nat, depth: nat) {
    ColourBytes(imgN, depth) <= OutBytes(outN, depth) &&
      RowsAt(all, ColourBytes(imgN, depth), OutBytes(outN, depth), w, w * OutBytes(outN, depth), 0, image)
  }

  /** `stbi__create_png_image` for interlaced images. All the passes must be complete; then every pixel of the result is
      the pixel of its pass whose place it is, and the passes are decoded one after the other. On the filtered passes of
      an image, whatever the filters of their rows, the result is the image. */
  method CreateInterlaced(data: seq<Byte>, w: nat, h: nat, imgN: nat, outN: nat, depth: nat, gray: bool, little: bool,
                           ghost passes: seq<seq<seq<Byte>>>, ghost image: seq<seq<Byte>>)
    returns (ok: bool, final: array<Byte>, ghost images: seq<seq<Byte>>)
    requires Supported(imgN, outN, w, depth)
    ensures fresh(final) && final.Length == ImageBytes(w, h, outN, depth)
    ensures ok <==> PassesThere(data, w, h, imgN, outN, depth, 7)
    ensures ok ==> |images| == 7 && PassesShown(images, data, w, h, imgN, outN, depth, gray, little)
    ensures ok ==> forall x: nat, y: nat :: x < w && y < h ==>
      FromPass(final[..], images, w, OutBytes(outN, depth), x, y)
    ensures
      EncodesImage(data, passes, image, w, h, imgN, depth, gray, little) && SizesValid(imgN, outN, w, h, depth) ==>
      ok && HoldsImage(final[..], image, w, imgN, outN, depth)
  {
    hide PassThere, PassShown, Assembled, Copied, FromPass, Offset, Supported, PassWidth, PassHeight, EncodesImage,
      HoldsImage, SizesValid, OutBytes, ImageBytes;
    KnownDepth(imgN, outN, w, depth);
    if EncodesImage(data, passes, image, w, h, imgN, depth, gray, little) && SizesValid(imgN, outN, w, h, depth) {
      EncodedThere(data, passes, image, w, h, imgN, outN, depth, gray, little);
    }
    final := new Byte[ImageBytes(w, h, outN, depth)];
    images := [];
    var rest := data;
    NothingAssembled(final[..], data, w, h, imgN, outN, depth);
    for p := 0 to 7
      invariant |images| == p && Offset(w, h, imgN, depth, p) <= |data| && rest == data[Offset(w, h, imgN, depth, p)..]
      invariant PassesThere(data, w, h, imgN, outN, depth, p)
      invariant PassesShown(images, data, w, h, imgN, outN, depth, gray, little)
      invariant Assembled(final[..], images, w, h, OutBytes(outN, depth), p)
    {
      ghost var was := final[..];
      if PassWidth(w, p) > 0 && PassHeight(h, p) > 0 {
        ghost var picture;
        ok, rest, picture := CreatePass(rest, final, w, h, imgN, outN, depth, gray, little, p, data);
        if !ok { return; }
        AssembledNext(was, final[..], images, picture, w, h, OutBytes(outN, depth), p);
        images := images + [picture];
      } else {
        SkippedPass(data, w, h, imgN, outN, depth, gray, little, p);
        EmptyPass(was, images, w, h, OutBytes(outN, depth), p);
        images := images + [[]];
      }
    }
    ok := true;
    AllAssembled(final[..], images, w, h, OutBytes(outN, depth));
    if EncodesImage(data, passes, image, w, h, imgN, depth, gray, little) {
      ImageRestored(final[..], images, data, passes, image, w, h, imgN, outN, depth, gray, little);
    }
  }

  lemma KnownDepth(imgN: nat, outN: nat, x: nat, depth: nat)
    requires Supported(imgN, outN, x, depth)
    ensures depth < 8 ==> Packed(depth)
  {
  }

  lemma NothingAssembled(all: seq<Byte>, data: seq<Byte>, w: nat, h: nat, imgN: nat, outN: nat, depth: nat)
    ensures Assembled(all, [], w, h, OutBytes(outN, depth), 0) && Offset(w, h, imgN, depth, 0) == 0
  {
  }

  lemma SkippedPass(data: seq<Byte>, w: nat, h: nat, imgN: nat, outN: nat, depth: nat, gray: bool, little: bool, p: nat)
    requires p < 7 && !HasPixels(w, h, p) && Supported(imgN, outN, w, depth)
    ensures PassThere(data, w, h, imgN, outN, depth, p) && PassShown([], data, w, h, imgN, outN, depth, gray, little, p)
    ensures Offset(w, h, imgN, depth, p + 1) == Offset(w, h, imgN, depth, p)
  {
  }

  lemma AllAssembled(all: seq<Byte>, images: seq<seq<Byte>>, w: nat, h: nat, ob: nat)
    requires |images| == 7 && Assembled(all, images, w, h, ob, 7)
    ensures forall x: nat, y: nat :: x < w && y < h ==> FromPass(all, images, w, ob, x, y)
  {
    hide PassOf, FromPass;
  }
}
