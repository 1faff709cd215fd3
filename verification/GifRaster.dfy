/** Where the pixels of a GIF frame go: row by row, or in the four passes of an interlaced frame. */
module GifRaster {
  import opened Arithmetic
  import opened Bits

  datatype Pixel = Pixel(r: Byte, g: Byte, b: Byte, a: Byte)

  /** The rectangle that a frame covers in an image of the given width, and its colours. */
  datatype Frame = Frame(width: nat, left: nat, right: nat, top: nat, bottom: nat, colours: seq<Pixel>)

  /** The next position, the distance to the next row and the number of passes left. */
  datatype Cursor = Cursor(x: nat, row: nat, step: nat, parse: nat)

  datatype Canvas = Canvas(pixels: seq<Pixel>, history: seq<Byte>, cursor: Cursor)

  ghost predicate Fits(f: Frame, c: Canvas) {
    && |f.colours| == 256 && |c.history| == |c.pixels| && f.width * f.bottom <= |c.pixels| && f.right <= f.width
    && (c.cursor.row < f.bottom ==> f.left <= c.cursor.x < f.right)
  }

  /** Moves on to the next pass while the current one is past the frame. */
  function NextPass(f: Frame, c: Cursor): (r: Cursor)
    ensures r.x == c.x && r.parse <= c.parse && (r.parse == c.parse ==> r == c)
    ensures r.row >= f.bottom ==> r.parse == 0
    ensures c.step > 0 ==> r.step > 0
    decreases c.parse
  {
    if c.row >= f.bottom && c.parse > 0
    then NextPass(f, Cursor(c.x, f.top + Pow2(c.parse) / 2, Pow2(c.parse), c.parse - 1))
    else c
  }

  function NextPosition(f: Frame, c: Cursor): Cursor {
    if c.x + 1 < f.right then c.(x := c.x + 1)
    else NextPass(f, c.(x := f.left, row := c.row + c.step))
  }

  /** Paints one symbol, unless its colour is transparent or the frame is full. */
  function Put(f: Frame, c: Canvas, symbol: Byte): (r: Canvas)
    requires Fits(f, c)
    ensures Fits(f, r)
  {
    if c.cursor.row >= f.bottom then c
    else
      var i := Position(f, c);
      Canvas(if f.colours[symbol].a > 128 then c.pixels[i := f.colours[symbol]] else c.pixels,
             c.history[i := 1], NextPosition(f, c.cursor))
  }

  function Position(f: Frame, c: Canvas): (i: nat)
    requires Fits(f, c) && c.cursor.row < f.bottom
    ensures i < |c.pixels|
  {
    MulMonotone(c.cursor.row + 1, f.bottom, f.width);
    c.cursor.row * f.width + c.cursor.x
  }

  function PutAll(f: Frame, c: Canvas, symbols: seq<Byte>): (r: Canvas)
    requires Fits(f, c)
    ensures Fits(f, r)
    decreases |symbols|
  {
    if symbols == [] then c else PutAll(f, Put(f, c, symbols[0]), symbols[1..])
  }

  lemma {:induction false} PutConcat(f: Frame, c: Canvas, s: seq<Byte>, t: seq<Byte>)
    requires Fits(f, c)
    ensures PutAll(f, c, s + t) == PutAll(f, PutAll(f, c, s), t)
    decreases |s|
  {
    if s == [] {
      assert s + t == t;
    } else {
      assert (s + t)[1..] == s[1..] + t;
      PutConcat(f, Put(f, c, s[0]), s[1..], t);
    }
  }
}
