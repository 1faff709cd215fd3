/** The GIF decoder: the string table as a linked list of prefixes, and the loop over the codes of a frame. */
module Gif {
  import opened Arithmetic
  import opened Bits
  import opened GifRaster
  import opened StringTable

  import GifCompression

  datatype Entry = Entry(prefix: int, first: Byte, suffix: Byte)

  datatype Status = Continue | Done | Bad

  /** The data of the remaining sub-blocks: len bytes of the current one, then those after it up to an empty one.
      Bytes past the end of the input are zero. */
  function Payload(len: nat, s: seq<Byte>): seq<Byte>
    decreases |s|, len
  {
    if len > 0 then [ByteOf(s)] + Payload(len - 1, Tail(s))
    else if ByteOf(s) == 0 then []
    else Payload(s[0], s[1..])
  }

  /** The input behind these sub-blocks. */
  function AfterBlocks(len: nat, s: seq<Byte>): seq<Byte>
    decreases |s|, len
  {
    if len > 0 then AfterBlocks(len - 1, Tail(s))
    else if ByteOf(s) == 0 then Tail(s)
    else AfterBlocks(s[0], s[1..])
  }

  function ByteOf(s: seq<Byte>): Byte {
    if s == [] then 0 else s[0]
  }

  function Tail(s: seq<Byte>): (t: seq<Byte>)
    ensures |t| <= |s|
  {
    if s == [] then [] else s[1..]
  }

  class Decoder {
    const input: seq<Byte>
    var pos: nat
    const codes: array<Entry>
    const out: array<Pixel>
    const history: array<Byte>
    const colourTable: array<Pixel>
    /** The frame, with lengths in pixels; vertical positions are offsets of row starts. */
    const lineSize: nat
    const startX: nat
    const startY: nat
    const maxX: nat
    const maxY: nat
    var curX: nat
    var curY: nat
    var step: nat
    var parse: nat
    /** The rows behind startY, maxY, curY and step. */
    ghost const top: nat
    ghost const bottom: nat
    ghost var row: nat
    ghost var rowStep: nat

    constructor (input: seq<Byte>, out: array<Pixel>, history: array<Byte>, colours: array<Pixel>,
                 width: nat, x: nat, y: nat, w: nat, h: nat, interlaced: bool)
      requires out.Length == history.Length && colours.Length == 256 && colours != out
      requires x + w <= width && width * (y + h) <= out.Length
      ensures Valid() && pos == 0 && this.input == input && fresh(codes)
      ensures this.out == out && this.history == history && colourTable == colours
      ensures GetFrame() == Frame(width, x, x + w, y, y + h, colours[..])
      ensures GetCursor() ==
        Cursor(x, if w == 0 then y + h else y, if interlaced then 8 else 1, if interlaced then 3 else 0)
    {
      this.input, this.out, this.history, colourTable, pos := input, out, history, colours, 0;
      codes := new Entry[8192](_ => Entry(-1, 0, 0));
      lineSize, startX, startY := width, x, y * width;
      maxX, maxY := x + w, y * width + h * width;
      top, bottom := y, y + h;
      curX := x;
      curY := if w == 0 then y * width + h * width else y * width;
      step := if interlaced then 8 * width else width;
      parse := if interlaced then 3 else 0;
      row := if w == 0 then y + h else y;
      rowStep := if interlaced then 8 else 1;
    }

    ghost function GetFrame(): Frame
      reads colourTable
    {
      Frame(lineSize, startX, maxX, top, bottom, colourTable[..])
    }

    ghost function GetCursor(): Cursor
      reads `curX, `row, `rowStep, `parse
    {
      Cursor(curX, row, rowStep, parse)
    }

    ghost function GetCanvas(): Canvas
      reads `curX, `row, `rowStep, `parse, out, history
    {
      Canvas(out[..], history[..], GetCursor())
    }

    /** Offsets are multiples of the line size. */
    ghost predicate Scaled()
      reads `curY, `row, `step, `rowStep
    {
      && startY == top * lineSize && maxY == bottom * lineSize && curY == row * lineSize && step == rowStep * lineSize
      && (lineSize == 0 ==> row >= bottom)
    }

    ghost predicate Valid()
      reads this, out, history, colourTable
    {
      && codes.Length == 8192 && colourTable.Length == 256 && colourTable != out
      && Scaled() && Fits(GetFrame(), GetCanvas())
    }

    ghost predicate Chained(d: Dictionary)
      reads codes
    {
      && codes.Length == 8192 && d.Valid() && d.Next() <= 8192
      && forall c {:trigger codes[c]} :: 0 <= c < 8192 && d.Defines(c) ==> Describes(codes[c], d, c)
    }

    /** `stbi__out_gif_code`: paints the string of a code, following the prefixes first. */
    method OutGifCode(code: nat, ghost d: Dictionary)
      requires Valid() && Chained(d) && d.Defines(code)
      modifies `curX, `curY, `step, `parse, `row, `rowStep, out, history
      ensures Valid() && Chained(d) && GetFrame() == old(GetFrame())
      ensures GetCanvas() == PutAll(GetFrame(), old(GetCanvas()), d.Expand(code))
      decreases code
    {
      hide PutAll, Put;
      assert Describes(codes[code], d, code);
      ghost var before := [];
      if codes[code].prefix >= 0 {
        before := d.Expand(codes[code].prefix);
        OutGifCode(codes[code].prefix, d);
      }
      assert d.Expand(code) == before + [codes[code].suffix];
      PutLast(GetFrame(), old(GetCanvas()), before, codes[code].suffix);
      Paint(codes[code].suffix);
    }

    /** The rest of `stbi__out_gif_code`: paints one symbol. */
    method Paint(symbol: Byte)
      requires Valid()
      modifies `curX, `curY, `step, `parse, `row, `rowStep, out, history
      ensures Valid() && GetFrame() == old(GetFrame()) && GetCanvas() == Put(GetFrame(), old(GetCanvas()), symbol)
    {
      hide NextPass;
      RowOrder(row, bottom, lineSize);
      if curY >= maxY {
        return;
      }
      ghost var i := Position(GetFrame(), GetCanvas());
      var idx := curX + curY;
      history[idx] := 1;
      var c := colourTable[symbol];
      if c.a > 128 {
        out[idx] := c;
      }
      curX := curX + 1;
      if curX >= maxX {
        NextRow();
      }
    }

    /** The end of a row. */
    method NextRow()
      requires Scaled() && lineSize > 0
      modifies `curX, `curY, `step, `parse, `row, `rowStep
      ensures Scaled() && GetCursor() == NextPass(GetFrame(),
        old(GetCursor()).(x := startX, row := old(row) + old(rowStep)))
    {
      assert (row + rowStep) * lineSize == row * lineSize + rowStep * lineSize;
      curX := startX;
      curY := curY + step;
      row := row + rowStep;
      SkipFullPasses();
    }

    /** The loop of `stbi__out_gif_code` over interlacing passes. */
    method SkipFullPasses()
      requires Scaled() && lineSize > 0
      modifies `curY, `step, `parse, `row, `rowStep
      ensures Scaled() && GetCursor() == NextPass(GetFrame(), old(GetCursor()))
    {
      hide ShiftLeft, ShiftRight, Pow2;
      RowOrder(row, bottom, lineSize);
      while curY >= maxY && parse > 0
        invariant Scaled() && NextPass(GetFrame(), GetCursor()) == NextPass(GetFrame(), old(GetCursor()))
        invariant curY >= maxY <==> row >= bottom
        decreases parse
      {
        PassStart(parse, lineSize, top);
        step := ShiftLeft(1, parse) * lineSize;
        curY := startY + ShiftRight(step, 1);
        rowStep := Pow2(parse);
        row := top + Pow2(parse) / 2;
        parse := parse - 1;
        RowOrder(row, bottom, lineSize);
      }
    }

    /** Enters a code's string in the table at k. The code may be the one being defined, k itself: then its entry is
        complete by the time its first symbol is asked for. The case of a code equal to k + 1 is provided for but does
        not arise. */
    method AddEntry(k: nat, prior: nat, code: nat, ghost d: Dictionary)
      requires Chained(d) && k == d.Next() < 8192 && d.Defines(prior) && code < 8192 && (d.Defines(code) || code >= k)
      modifies codes
      ensures code <= k ==> Chained(d.Add(NewString(d, prior, code)))
    {
      hide Describes, NewString;
      codes[k] := codes[k].(prefix := prior);
      codes[k] := codes[k].(first := codes[prior].first);
      codes[k] := codes[k].(suffix := if code == k + 1 then codes[k].first else codes[code].first);
      if code <= k {
        ghost var s := NewString(d, prior, code);
        DescribesNew(codes[k], old(codes[prior]), old(codes[code]), d, prior, code);
        forall c {:trigger codes[c]} | 0 <= c < 8192 && d.Add(s).Defines(c) ensures Describes(codes[c], d.Add(s), c) {
          if c != k { DescribesMore(codes[c], d, c, s); }
        }
      }
    }

    /** One round of `stbi__process_gif_raster` in which a code is complete. */
    method ProcessCode(code: nat, lzwCs: nat, codesize: nat, avail: nat, oldcode: int, first: bool, ghost st: State)
      returns (status: Status, codesize': nat, avail': nat, oldcode': int, first': bool, ghost st': State)
      requires Valid() && st.Valid() && Chained(st.dict) && Mirrors(st, lzwCs, codesize, avail, oldcode, first)
      modifies `curX, `curY, `step, `parse, `row, `rowStep, codes, out, history
      ensures Valid() && GetFrame() == old(GetFrame())
      ensures match Advance(st, code)
              case Finished => status == Done && GetCanvas() == old(GetCanvas())
              case Failed => status == Bad && GetCanvas() == old(GetCanvas())
              case More(next, symbols) =>
                && status == Continue && st' == next && Chained(next.dict)
                && Mirrors(next, lzwCs, codesize', avail', oldcode', first')
                && GetCanvas() == PutAll(GetFrame(), old(GetCanvas()), symbols)
    {
      status, codesize', avail', oldcode', first', st' := Continue, codesize, avail, oldcode, first, st;
      var clear := ShiftLeft(1, lzwCs);
      if code == clear {
        codesize', avail', oldcode', first' := lzwCs + 1, clear + 2, -1, false;
        st' := Cleared(lzwCs);
      } else if code == clear + 1 {
        status := Done;
      } else if code <= avail {
        if first {
          status := Bad;
          return;
        }
        ghost var d := st.dict;
        if oldcode >= 0 {
          avail' := avail + 1;
          if avail' > 8192 {
            status := Bad;
            return;
          }
          AddEntry(avail, oldcode, code, d);
          d := d.Add(NewString(d, oldcode, code));
        } else if code == avail {
          status := Bad;
          return;
        }
        OutGifCode(code, d);
        if Mask(avail', codesize) == 0 && avail' <= 0x0FFF {
          codesize' := codesize + 1;
        }
        oldcode' := code;
        st' := State(d, code, true, codesize');
      } else {
        status := Bad;
      }
    }

    /** `stbi__process_gif_raster`: paints the symbols that the data of the frame stands for, and tells whether it ends
        well; then the input goes on behind that data. On what a compressor has written, the symbols are those that were
        compressed. */
    method ProcessGifRaster(ghost groups: seq<GifCompression.Group>) returns (ok: bool)
      requires Valid() && pos <= |input|
      modifies `pos, `curX, `curY, `step, `parse, `row, `rowStep, codes, out, history
      ensures Valid() && GetFrame() == old(GetFrame()) && pos <= |input|
      ensures ok ==> input[pos..] == AfterBlocks(0, Tail(old(input[pos..])))
      ensures ByteOf(old(input[pos..])) > 12 ==> !ok && GetCanvas() == old(GetCanvas())
      ensures ByteOf(old(input[pos..])) <= 12 ==>
        var (good, symbols) := Raster(ByteOf(old(input[pos..])), Tail(old(input[pos..])));
        ok == good && GetCanvas() == PutAll(GetFrame(), old(GetCanvas()), symbols)
      ensures Compressed(groups, old(input[pos..])) ==>
        ok && GetCanvas() == PutAll(GetFrame(), old(GetCanvas()), GifCompression.Symbols(groups))
    {
      hide Decode, PutAll, Chained, Compressed, AfterBlocks;
      if Compressed(groups, input[pos..]) { CompressedRaster(groups, input[pos..]); }
      var lzwCs := Get8();
      if lzwCs > 12 {
        return false;
      }
      Pow2Monotone(lzwCs, 12);
      assert Pow2(12) == 4096 by { Pow2Values(); Pow2Add(4, 8); }
      InitCodes(ShiftLeft(1, lzwCs), lzwCs);
      ok := DecodeCodes(lzwCs);
    }

    /** The loop of `stbi__process_gif_raster`. */
    method DecodeCodes(lzwCs: nat) returns (ok: bool)
      requires Valid() && pos <= |input| && lzwCs <= 12 && Chained(Dictionary(lzwCs, []))
      modifies `pos, `curX, `curY, `step, `parse, `row, `rowStep, codes, out, history
      ensures Valid() && GetFrame() == old(GetFrame()) && pos <= |input|
      ensures ok ==> input[pos..] == AfterBlocks(0, old(input[pos..]))
      ensures var (good, symbols) := Raster(lzwCs, old(input[pos..]));
              ok == good && GetCanvas() == PutAll(GetFrame(), old(GetCanvas()), symbols)
    {
      hide Decode, Put, Payload, AfterBlocks, ByteBits, Advance, Stream, Chained, Or, Scaled, Fits, PutAll,
        NextPosition, Low;
      ghost var st, total := Initial(lzwCs), Raster(lzwCs, input[pos..]);
      var codesize: nat, avail: nat := lzwCs + 1, ShiftLeft(1, lzwCs) + 2;
      var first, oldcode := true, -1;
      var bits: nat, validBits: nat, len: nat := 0, 0, 0;
      NothingRead(input[pos..]);
      while true
        invariant Valid() && pos <= |input| && GetFrame() == old(GetFrame()) && bits < Pow2(validBits)
        invariant st.Valid() && Chained(st.dict) && Mirrors(st, lzwCs, codesize, avail, oldcode, first)
        invariant AfterBlocks(len, input[pos..]) == AfterBlocks(0, old(input[pos..]))
        invariant Leads(GetFrame(), GetCanvas(), Decode(st, Stream(bits, validBits, len, input[pos..])),
          old(GetCanvas()), total)
        decreases |Stream(bits, validBits, len, input[pos..])|, |Payload(len, input[pos..])|
      {
        if validBits < codesize {
          StreamEnds(st, bits, validBits, input[pos..], GetFrame(), GetCanvas());
          var ended;
          ended, bits, validBits, len := FetchBits(bits, validBits, len);
          if ended {
            return true;
          }
        } else {
          var code := Mask(bits, codesize);
          TakeCode(bits, validBits, codesize, len, input[pos..]);
          DecodeOne(st, Stream(bits, validBits, len, input[pos..]), Advance(st, code), GetFrame(), GetCanvas());
          bits := ShiftRight(bits, codesize);
          validBits := validBits - codesize;
          var status;
          status, codesize, avail, oldcode, first, st := ProcessCode(code, lzwCs, codesize, avail, oldcode, first, st);
          if status == Done {
            SkipBlocks(len);
            return true;
          } else if status == Bad {
            return false;
          }
        }
      }
    }

    /** One round of `stbi__process_gif_raster` in which a byte is fetched, from the next sub-block if need be. */
    method FetchBits(bits: nat, validBits: nat, len: nat) returns (ended: bool, bits': nat, validBits': nat, len': nat)
      requires pos <= |input| && bits < Pow2(validBits)
      modifies `pos
      ensures pos <= |input| && bits' < Pow2(validBits')
      ensures ended <==> len == 0 && ByteOf(old(input[pos..])) == 0
      ensures AfterBlocks(len, old(input[pos..])) == if ended then input[pos..] else AfterBlocks(len', input[pos..])
      ensures !ended ==>
        validBits' == validBits + 8 && |Payload(len', input[pos..])| < |Payload(len, old(input[pos..]))|
      ensures !ended ==>
        Stream(bits', validBits', len', input[pos..]) == Stream(bits, validBits, len, old(input[pos..]))
    {
      hide Payload, Stream, Or;
      ended, bits', validBits', len' := false, bits, validBits, len;
      ghost var s := input[pos..];
      if len == 0 {
        len' := Get8();
        if len' == 0 {
          return true, bits, validBits, 0;
        }
        NextBlock(s, bits, validBits);
        s := input[pos..];
      }
      len' := len' - 1;
      var b := Get8();
      FetchByte(bits, validBits, len', s);
      bits' := Or(bits, ShiftLeft(b, validBits));
      validBits' := validBits + 8;
    }

    method InitCodes(clear: nat, ghost cs: nat)
      requires codes.Length == 8192 && clear == Pow2(cs) <= 4096
      modifies codes
      ensures Chained(Dictionary(cs, []))
    {
      for i := 0 to clear
        invariant forall c :: 0 <= c < i ==> codes[c] == Entry(-1, c % 256, c % 256)
      {
        codes[i] := Entry(-1, i % 256, i % 256);
      }
    }

    /** `stbi__get8`: zero past the end of the input. */
    method Get8() returns (b: Byte)
      requires pos <= |input|
      modifies `pos
      ensures pos <= |input| && b == ByteOf(old(input[pos..])) && input[pos..] == Tail(old(input[pos..]))
    {
      if pos >= |input| {
        return 0;
      }
      b := input[pos];
      pos := pos + 1;
    }

    /** Skips the rest of a sub-block and those that follow. */
    method SkipBlocks(len: nat)
      requires pos <= |input|
      modifies `pos
      ensures pos <= |input| && input[pos..] == AfterBlocks(len, old(input[pos..]))
    {
      hide AfterBlocks;
      Skip(len);
      NextLength(input[pos..]);
      var more := Get8();
      while more > 0
        invariant pos <= |input| && (more > 0 ==> pos > 0)
        invariant AfterBlocks(len, old(input[pos..])) ==
          if more == 0 then input[pos..] else AfterBlocks(more, input[pos..])
        decreases |input| - pos, more
      {
        Skip(more);
        NextLength(input[pos..]);
        more := Get8();
      }
    }

    /** `stbi__skip` */
    method Skip(n: nat)
      requires pos <= |input|
      modifies `pos
      ensures old(pos) <= pos <= |input| && AfterBlocks(0, input[pos..]) == AfterBlocks(n, old(input[pos..]))
    {
      SkipBytes(n, input[pos..]);
      pos := if pos + n <= |input| then pos + n else |input|;
    }
  }

  /** The symbols of a frame's data, and whether it ends well. */
  function Raster(cs: nat, data: seq<Byte>): (bool, seq<Byte>) {
    Decode(Initial(cs), ByteBits(Payload(0, data)))
  }

  /** The data starts with the size of symbols and with what a compressor writes for the groups, cut into sub-blocks. */
  ghost predicate Compressed(groups: seq<GifCompression.Group>, s: seq<Byte>) {
    && 2 <= ByteOf(s) <= 8 && GifCompression.MessageFits(ByteOf(s), groups)
    && GifCompression.MessageBits(ByteOf(s), groups, 0) <= ByteBits(Payload(0, Tail(s)))
  }

  lemma CompressedRaster(groups: seq<GifCompression.Group>, s: seq<Byte>)
    requires Compressed(groups, s)
    ensures 2 <= ByteOf(s) <= 8 && Raster(ByteOf(s), Tail(s)) == (true, GifCompression.Symbols(groups))
  {
    hide Decode, Payload, ByteBits, GifCompression.MessageFits, GifCompression.MessageBits;
    var message, bits := GifCompression.MessageBits(ByteOf(s), groups, 0), ByteBits(Payload(0, Tail(s)));
    GifCompression.MessageFromStart(ByteOf(s), groups, bits[|message|..]);
    assert bits == message + bits[|message|..];
  }

  /** Data cut into sub-blocks, each with its length in front, and an empty one at the end. */
  function SubBlocks(blocks: seq<seq<Byte>>): (s: seq<Byte>)
    requires forall i :: 0 <= i < |blocks| ==> 0 < |blocks[i]| < 256
  {
    if blocks == [] then [0] else [|blocks[0]|] + blocks[0] + SubBlocks(blocks[1..])
  }

  /** The payload of sub-blocks is their data, and what follows is behind them. */
  lemma {:induction false} SubBlocksPayload(blocks: seq<seq<Byte>>, rest: seq<Byte>)
    requires forall i :: 0 <= i < |blocks| ==> 0 < |blocks[i]| < 256
    ensures Payload(0, SubBlocks(blocks) + rest) == GifCompression.Join(blocks)
    ensures AfterBlocks(0, SubBlocks(blocks) + rest) == rest
    decreases |blocks|
  {
    var s := SubBlocks(blocks) + rest;
    if blocks != [] {
      SubBlocksPayload(blocks[1..], rest);
      assert s[1..] == blocks[0] + (SubBlocks(blocks[1..]) + rest);
      BlockPayload(blocks[0], SubBlocks(blocks[1..]) + rest);
      SkipBytes(|blocks[0]|, s[1..]);
      assert s[1..][|blocks[0]|..] == SubBlocks(blocks[1..]) + rest;
    }
  }

  lemma FirstOfBlock(block: seq<Byte>, rest: seq<Byte>)
    requires block != []
    ensures Payload(|block|, block + rest) == [block[0]] + Payload(|block| - 1, block[1..] + rest)
  {
    var s := block + rest;
    assert s[1..] == block[1..] + rest;
    assert Payload(|block|, s) == [ByteOf(s)] + Payload(|block| - 1, Tail(s));
  }

  lemma {:induction false} BlockPayload(block: seq<Byte>, rest: seq<Byte>)
    ensures Payload(|block|, block + rest) == block + Payload(0, rest)
  {
    hide Payload;
    if block == [] {
      assert block + rest == rest;
    } else {
      BlockPayload(block[1..], rest);
      FirstOfBlock(block, rest);
      assert [block[0]] + (block[1..] + Payload(0, rest)) == block + Payload(0, rest);
    }
  }

  /** The bits still to be decoded: n in the buffer, and those of the remaining sub-blocks. */
  function Stream(c: nat, n: nat, len: nat, s: seq<Byte>): seq<bool> {
    Low(c, n) + ByteBits(Payload(len, s))
  }

  /** What is decoded from here on completes the whole picture. */
  ghost predicate Leads(f: Frame, now: Canvas, rest: (bool, seq<Byte>), start: Canvas, total: (bool, seq<Byte>))
    requires Fits(f, now) && Fits(f, start)
  {
    rest.0 == total.0 && PutAll(f, now, rest.1) == PutAll(f, start, total.1)
  }

  lemma NextLength(s: seq<Byte>)
    ensures AfterBlocks(0, s) == if ByteOf(s) == 0 then Tail(s) else AfterBlocks(ByteOf(s), Tail(s))
  {
  }

  lemma {:induction false} SkipBytes(n: nat, s: seq<Byte>)
    ensures AfterBlocks(n, s) == AfterBlocks(0, if n <= |s| then s[n..] else [])
    decreases n
  {
    if n > 0 {
      SkipBytes(n - 1, Tail(s));
      if n <= |s| { assert s[1..][n - 1..] == s[n..]; }
    }
  }

  lemma NothingRead(s: seq<Byte>)
    ensures Stream(0, 0, 0, s) == ByteBits(Payload(0, s))
  {
  }

  lemma StreamEnds(st: State, c: nat, n: nat, s: seq<Byte>, f: Frame, canvas: Canvas)
    requires st.Valid() && n < st.width && Fits(f, canvas)
    ensures ByteOf(s) == 0 ==> Decode(st, Stream(c, n, 0, s)) == (true, [])
    ensures PutAll(f, canvas, []) == canvas
  {
  }

  lemma NextBlock(s: seq<Byte>, c: nat, n: nat)
    requires ByteOf(s) > 0
    ensures Payload(0, s) == Payload(ByteOf(s), Tail(s)) && Stream(c, n, 0, s) == Stream(c, n, ByteOf(s), Tail(s))
  {
  }

  lemma FetchByte(c: nat, n: nat, len: nat, s: seq<Byte>)
    requires c < Pow2(n)
    ensures Or(c, ShiftLeft(ByteOf(s), n)) < Pow2(n + 8)
    ensures Stream(Or(c, ShiftLeft(ByteOf(s), n)), n + 8, len, Tail(s)) == Stream(c, n, len + 1, s)
    ensures |Payload(len, Tail(s))| < |Payload(len + 1, s)|
  {
    hide Low, Or, ShiftLeft;
    AppendLow(c, n, ByteOf(s));
    var b := [ByteOf(s)];
    assert Payload(len + 1, s) == b + Payload(len, Tail(s));
    assert ByteBits(b + Payload(len, Tail(s))) == Low(ByteOf(s), 8) + ByteBits(Payload(len, Tail(s)));
  }

  lemma TakeCode(c: nat, n: nat, w: nat, len: nat, s: seq<Byte>)
    requires c < Pow2(n) && w <= n
    ensures ShiftRight(c, w) < Pow2(n - w)
    ensures |Stream(c, n, len, s)| >= w && Value(Stream(c, n, len, s)[..w]) == Mask(c, w)
    ensures Stream(c, n, len, s)[w..] == Stream(ShiftRight(c, w), n - w, len, s)
  {
    hide Payload, ByteBits;
    ShiftBound(c, w, n - w);
    LowSplit(c, w, n - w);
    var x := Low(Mask(c, w), w);
    assert Stream(c, n, len, s)[..w] == x;
    ValueLow(Mask(c, w), w);
    Digits(0, Mask(c, w), Pow2(w));
  }

  lemma DecodeOne(st: State, bits: seq<bool>, r: Step, f: Frame, c: Canvas)
    requires st.Valid() && |bits| >= st.width && r == Advance(st, Value(bits[..st.width])) && Fits(f, c)
    ensures PutAll(f, c, []) == c
    ensures !r.More? ==> Decode(st, bits) == (r.Finished?, [])
    ensures r.More? ==> Decode(st, bits).0 == Decode(r.state, bits[st.width..]).0
    ensures r.More? ==>
      PutAll(f, c, Decode(st, bits).1) == PutAll(f, PutAll(f, c, r.out), Decode(r.state, bits[st.width..]).1)
  {
    if r.More? {
      PutConcat(f, c, r.out, Decode(r.state, bits[st.width..]).1);
    }
  }

  /** The entry of a code tells its string: the symbol it ends with, and the code of what comes before. */
  ghost predicate Describes(e: Entry, d: Dictionary, c: nat)
    requires d.Defines(c) && d.Valid()
  {
    && e.first == d.Expand(c)[0]
    && (if e.prefix < 0 then d.Expand(c) == [e.suffix]
        else e.prefix < c && d.Defines(e.prefix) && d.Expand(c) == d.Expand(e.prefix) + [e.suffix])
  }

  lemma DescribesMore(e: Entry, d: Dictionary, c: nat, s: seq<Byte>)
    requires d.Valid() && d.Defines(c) && Describes(e, d, c) && s != []
    ensures d.Add(s).Valid() && Describes(e, d.Add(s), c)
  {
  }

  /** The new entry is right, although the code may be the one being defined. */
  lemma DescribesNew(e: Entry, prior: Entry, now: Entry, d: Dictionary, p: nat, code: nat)
    requires d.Valid() && d.Defines(p) && Describes(prior, d, p) && (d.Defines(code) || code == d.Next())
    requires d.Defines(code) ==> Describes(now, d, code)
    requires e == Entry(p, prior.first, if code == d.Next() then prior.first else now.first)
    ensures d.Add(NewString(d, p, code)).Valid() && Describes(e, d.Add(NewString(d, p, code)), d.Next())
  {
    var s := NewString(d, p, code);
    assert d.Add(s).Expand(d.Next()) == s;
    assert d.Add(s).Expand(p) == d.Expand(p);
    assert s[0] == d.Expand(p)[0];
  }

  /** The variables of the loop hold the abstract state. */
  ghost predicate Mirrors(st: State, lzwCs: nat, codesize: nat, avail: nat, oldcode: int, first: bool) {
    && st.dict.cs == lzwCs && codesize == st.width && avail == st.dict.Next()
    && oldcode == (if st.prior >= 0 then st.prior else -1) && first == !st.started
  }

  lemma PutLast(f: Frame, c: Canvas, s: seq<Byte>, symbol: Byte)
    requires Fits(f, c)
    ensures PutAll(f, c, s + [symbol]) == Put(f, PutAll(f, c, s), symbol)
    ensures PutAll(f, c, []) == c
  {
    PutConcat(f, c, s, [symbol]);
  }

  lemma RowOrder(row: nat, bottom: nat, size: nat)
    requires size == 0 ==> row >= bottom
    ensures row * size >= bottom * size <==> row >= bottom
  {
    if row >= bottom { MulMonotone(bottom, row, size); } else { MulMonotone(row + 1, bottom, size); }
  }

  /** Half of a pass distance, in rows and in offsets. */
  lemma PassStart(parse: nat, size: nat, top: nat)
    requires parse > 0
    ensures ShiftLeft(1, parse) == Pow2(parse)
    ensures top * size + ShiftRight(Pow2(parse) * size, 1) == (top + Pow2(parse) / 2) * size
  {
    var h := Pow2(parse - 1);
    assert Pow2(parse) * size == 2 * (h * size);
    assert Pow2(1) == 2;
    assert (top + h) * size == top * size + h * size;
  }
}
