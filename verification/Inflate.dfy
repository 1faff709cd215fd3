/** The DEFLATE decoder: an LSB-first bit reader, Huffman decoding, and expansion into a growing buffer. What it makes
    of its input is `DeflateReading`, for all bits whatsoever. */
module Inflate {
  import opened Arithmetic
  import opened BitReverse
  import opened Bits
  import opened CanonicalCode
  import opened Deflate
  import opened DeflateReading
  import opened DeflateTables
  import opened ZHuffman

  /** Where the input has been fetched to, when so many bits have been fetched from a position on. */
  function Fetched(start: nat, bits: nat, size: nat): nat {
    if start + bits / 8 <= size then start + bits / 8 else size
  }

  /** Of the bits from `start` on, `taken` have been consumed, and the next n are those of c. */
  ghost predicate Buffered(input: seq<Byte>, start: nat, taken: nat, pos: nat, c: nat, n: nat) {
    && start <= pos <= |input| && (taken + n) % 8 == 0 && pos == Fetched(start, taken + n, |input|)
    && c < Pow2(n) && Low(c, n) == BitsAt(ByteBits(input[start..]), taken, n)
  }

  class Inflater {
    const input: seq<Byte>
    var pos: nat
    var numBits: nat
    var codeBuffer: nat
    /** The output buffer, of which the first zout bytes are written. */
    var out: array<Byte>
    var zout: nat
    const expandable: bool
    const lengths: Table
    const distances: Table
    /** Where the stream of bits starts in the input, and how many of them have been consumed. */
    ghost var start: nat
    ghost var taken: nat

    ghost predicate Consistent()
      reads `pos, `numBits, `codeBuffer, `start, `taken
    {
      start <= pos <= |input| && numBits <= 32 && Buffered(input, start, taken, pos, codeBuffer, numBits)
    }

    ghost predicate Valid()
      reads this
    {
      && Consistent() && zout <= out.Length && (expandable ==> out.Length > 0)
      && lengths.Shape() && distances.Shape() && lengths.Repr !! distances.Repr
    }

    ghost function Output(): seq<Byte>
      requires zout <= out.Length
      reads `zout, `out, out
    {
      out[..zout]
    }

    /** The bound on the output of a fixed buffer. */
    ghost function Bound(): int
      reads `out
    {
      if expandable then -1 else out.Length
    }

    /** All bits of the stream. */
    ghost function Stream(): seq<bool>
      reads `start
    {
      if start <= |input| then ByteBits(input[start..]) else []
    }

    /** `stbi__do_zlib` with an output buffer of the caller's. */
    constructor (input: seq<Byte>, buffer: array<Byte>, expandable: bool)
      requires expandable ==> buffer.Length > 0
      ensures Valid() && fresh(lengths) && fresh(lengths.Repr) && fresh(distances) && fresh(distances.Repr)
      ensures this.input == input && this.expandable == expandable && out == buffer && zout == pos == 0
    {
      this.input, this.expandable, out, zout := input, expandable, buffer, 0;
      pos, numBits, codeBuffer, start, taken := 0, 0, 0, 0, 0;
      lengths := new Table();
      distances := new Table();
    }

    /** `stbi__zget8`: zero past the end of the input. */
    method Get8() returns (b: Byte)
      requires pos <= |input|
      modifies this`pos
      ensures b == InputByte(input, old(pos)) && pos == (if old(pos) < |input| then old(pos) + 1 else old(pos))
    {
      if pos >= |input| {
        return 0;
      }
      b := input[pos];
      pos := pos + 1;
    }

    /** `stbi__fill_bits`: more of the coming bits are in the buffer, with zeros past the end of the input. */
    method FillBits()
      requires Consistent() && numBits <= 24
      modifies this`pos, this`numBits, this`codeBuffer
      ensures Consistent() && numBits > 24
    {
      hide Buffered;
      var again := true;
      while again
        invariant Consistent() && (again <==> numBits <= 24)
        decreases 32 - numBits
      {
        FetchByte();
        again := numBits <= 24;
      }
    }

    method FetchByte()
      requires Consistent() && numBits <= 24
      modifies this`pos, this`numBits, this`codeBuffer
      ensures Consistent() && numBits == old(numBits) + 8
    {
      hide Or, ShiftLeft, Low, Pow2, ByteBits;
      ByteAppended(input, start, taken, pos, codeBuffer, numBits);
      var b := Get8();
      codeBuffer := Or(codeBuffer, ShiftLeft(b, numBits));
      numBits := numBits + 8;
    }

    /** `stbi__zreceive`: consumes n bits and returns the number that they are. */
    method Receive(n: nat) returns (k: nat)
      requires Consistent() && n <= 24
      modifies this`pos, this`numBits, this`codeBuffer, this`taken
      ensures Consistent() && taken == old(taken) + n && k == NumberAt(Stream(), old(taken), n)
    {
      hide Buffered, Mask, Low;
      if numBits < n {
        FillBits();
      }
      k := Mask(codeBuffer, n);
      Consume(n);
    }

    /** Shifts n bits out of the buffer. */
    method Consume(n: nat)
      requires Consistent() && n <= numBits
      modifies this`numBits, this`codeBuffer, this`taken
      ensures Consistent() && taken == old(taken) + n && numBits == old(numBits) - n
      ensures Mask(old(codeBuffer), n) == NumberAt(Stream(), old(taken), n)
    {
      hide Buffered, Mask, Low, ShiftRight;
      BitsConsumed(input, start, taken, pos, codeBuffer, numBits, n);
      codeBuffer := ShiftRight(codeBuffer, n);
      numBits := numBits - n;
      taken := taken + n;
    }

    /** `stbi__zhuffman_decode`: the symbol whose code comes next, or -1 when no code starts the bits. */
    method Decode(table: Table, ghost lens: Lengths) returns (z: int)
      requires Consistent() && table.Represents(lens)
      modifies this`pos, this`numBits, this`codeBuffer, this`taken
      ensures Consistent() && z == NextSymbol(lens, Stream(), old(taken))
      ensures taken == old(taken) + if z >= 0 then lens[z] else 0
    {
      hide Buffered, NextSymbol, Mask, ShiftRight, Low;
      if numBits < 16 {
        FillBits();
      }
      SixteenBits(input, start, taken, pos, codeBuffer, numBits);
      var b := table.fast[Mask(codeBuffer, FAST_BITS)];
      if b > 0 {
        ghost var i := FastSymbol(lens, codeBuffer, numBits, b);
        SymbolIs(lens, Stream(), taken, codeBuffer, numBits, i);
        Consume(ShiftRight(b, 9));
        return Mask(b, 9);
      }
      z := DecodeSlowly(table, lens);
    }

    /** `stbi__zhuffman_decode_slowpath` */
    method DecodeSlowly(table: Table, ghost lens: Lengths) returns (z: int)
      requires Consistent() && numBits >= 16 && table.Represents(lens)
      requires table.fast[Mask(codeBuffer, FAST_BITS)] == 0
      modifies this`numBits, this`codeBuffer, this`taken
      ensures Consistent() && z == NextSymbol(lens, Stream(), old(taken))
      ensures taken == old(taken) + if z >= 0 then lens[z] else 0
    {
      hide Buffered, NextSymbol, Low;
      SixteenBits(input, start, taken, pos, codeBuffer, numBits);
      var k := ReverseBits(codeBuffer, 16);
      ghost var x := Low(codeBuffer, numBits);
      var s := SlowLength(table, lens, codeBuffer, numBits, k);
      if s == 16 {
        PastLongest(lens, x);
        NoSymbol(lens, Stream(), taken, x);
        return -1;
      }
      ghost var i := SlowSymbol(lens, codeBuffer, numBits, s);
      BelowLimit(lens, codeBuffer, numBits, s);
      IndexBound(lens, i);
      SymbolIs(lens, Stream(), taken, codeBuffer, numBits, i);
      var b := ShiftRight(k, 16 - s) - table.firstCode[s] + table.firstSymbol[s];
      assert table.size[b] == s;
      Consume(s);
      return table.value[b];
    }

    /** The search for the code length: the first one beyond 9 whose limit the reversed buffer k is below. */
    static method SlowLength(table: Table, ghost lens: Lengths, ghost c: nat, ghost n: nat, k: nat) returns (s: nat)
      requires n >= 16 && table.Represents(lens) && table.fast[Mask(c, FAST_BITS)] == 0 && k == ReverseBits(c, 16)
      ensures FAST_BITS < s <= 16 && Past(lens, Low(c, n), s - 1)
      ensures s < 16 ==> Front(Low(c, n), s) < EndCode(lens, s)
    {
      MissedFast(lens, c, n);
      s := FAST_BITS + 1;
      while k >= table.maxCode[s]
        invariant FAST_BITS < s <= 16
        invariant Past(lens, Low(c, n), s - 1)
        decreases 16 - s
      {
        BeyondLimit(lens, c, n, s);
        s := s + 1;
      }
      if s < 16 {
        BelowLimit(lens, c, n, s);
      }
    }

    /** `stbi__zexpand`: makes room for n bytes after the first cur by doubling the buffer, which keeps what it
        holds. */
    method Expand(cur: nat, n: nat) returns (ok: bool)
      requires cur <= out.Length && (expandable ==> out.Length > 0)
      modifies this`out, this`zout
      ensures zout == cur && (ok <==> expandable)
      ensures !ok ==> out == old(out)
      ensures ok ==> fresh(out) && cur + n <= out.Length && out.Length >= old(out.Length)
      ensures ok ==> out[..old(out.Length)] == old(out[..]) && out[..cur] == old(out[..cur])
    {
      zout := cur;
      if !expandable {
        return false;
      }
      var limit := out.Length;
      while cur + n > limit
        invariant limit >= out.Length > 0
        decreases cur + n - limit
      {
        limit := limit * 2;
      }
      var was := out[..];
      var bigger := new Byte[limit](_ => 0);
      forall i | 0 <= i < |was| {
        bigger[i] := was[i];
      }
      assert bigger[..|was|] == was;
      assert bigger[..cur] == was[..cur];
      out := bigger;
      return true;
    }

    /** The end of one round of `stbi__parse_huffman_block`: repeats the bytes from the given distance back. */
    method CopyMatch(cur: nat, len: nat, distance: nat) returns (ok: bool, next: nat)
      requires cur <= out.Length && zout <= out.Length && (expandable ==> out.Length > 0) && distance > 0
      modifies this`out, this`zout, out
      ensures ok <==> distance <= cur && (expandable || cur + len <= old(out.Length))
      ensures ok ==> next == cur + len <= out.Length && out[..next] == Repeated(old(out[..cur]), distance, len)
      ensures zout <= out.Length && old(out.Length) <= out.Length && (out == old(out) || (expandable && fresh(out)))
    {
      next := cur;
      if cur < distance {
        return false, cur;
      }
      if cur + len > out.Length {
        ok := Expand(cur, len);
        if !ok {
          return;
        }
      }
      ok := true;
      if distance == 1 {
        next := RunOfByte(out, cur, len);
      } else {
        next := CopyForward(out, cur, len, distance);
      }
    }

    /** A run of one byte. */
    static method RunOfByte(buffer: array<Byte>, cur: nat, len: nat) returns (next: nat)
      requires 0 < cur && cur + len <= buffer.Length
      modifies buffer
      ensures next == cur + len && buffer[..next] == Repeated(old(buffer[..cur]), 1, len)
    {
      next := cur;
      var n, v := len, buffer[cur - 1];
      while n > 0
        invariant 0 <= n <= len && next == cur + len - n && v == buffer[next - 1]
        invariant Repeated(buffer[..next], 1, n) == Repeated(old(buffer[..cur]), 1, len)
      {
        buffer[next] := v;
        assert buffer[..next + 1] == buffer[..next] + [v];
        next := next + 1;
        n := n - 1;
      }
    }

    /** Source and destination may overlap: bytes written early are read again later. */
    static method CopyForward(buffer: array<Byte>, cur: nat, len: nat, distance: nat) returns (next: nat)
      requires 0 < distance <= cur && cur + len <= buffer.Length
      modifies buffer
      ensures next == cur + len && buffer[..next] == Repeated(old(buffer[..cur]), distance, len)
    {
      next := cur;
      var n, p := len, cur - distance;
      while n > 0
        invariant 0 <= n <= len && next == cur + len - n && p == next - distance
        invariant Repeated(buffer[..next], distance, n) == Repeated(old(buffer[..cur]), distance, len)
      {
        buffer[next] := buffer[p];
        assert buffer[..next + 1] == buffer[..next] + [buffer[p]];
        next := next + 1;
        p := p + 1;
        n := n - 1;
      }
    }

    /** `stbi__parse_huffman_block`: appends what the coming tokens denote, unless there is an error among them or a
        fixed buffer is too small. */
    method ParseHuffmanBlock(ghost lits: Lengths, ghost dists: Lengths, ghost n: nat) returns (ok: bool)
      requires Valid() && lengths.Represents(lits) && distances.Represents(dists)
      requires TokensRun(lits, dists, Stream(), taken, Output(), Bound(), n).Known()
      modifies this, out
      ensures start == old(start) && (out == old(out) || (expandable && fresh(out)))
      ensures var run := old(TokensRun(lits, dists, Stream(), taken, Output(), Bound(), n));
        (ok <==> run.Ends?) && (ok ==> Valid() && taken == run.next && Output() == run.out)
    {
      hide TokensRun, Table.Represents, Buffered, RoundAt, Apply;
      var cur: nat, more := zout, true;
      ghost var m, run := n, TokensRun(lits, dists, Stream(), taken, Output(), Bound(), n);
      ok := true;
      while more
        invariant Valid() && lengths.Represents(lits) && distances.Represents(dists) && cur <= out.Length
        invariant start == old(start) && Bound() == old(Bound())
        invariant more ==> TokensRun(lits, dists, Stream(), taken, out[..cur], Bound(), m) == run
        invariant !more ==> run == Ends(out[..cur], taken)
        invariant out == old(out) || (expandable && fresh(out))
        decreases m, more
      {
        KnownRound(lits, dists, Stream(), taken, out[..cur], Bound(), m);
        ok, more, cur := ParseToken(cur, lits, dists);
        if !ok {
          return;
        }
        m := m - 1;
      }
      zout := cur;
    }

    /** One round of `stbi__parse_huffman_block`: a literal, a copy or the end of the block. */
    method ParseToken(cur: nat, ghost lits: Lengths, ghost dists: Lengths) returns (ok: bool, more: bool, next: nat)
      requires Valid() && lengths.Represents(lits) && distances.Represents(dists) && cur <= out.Length
      requires !RoundAt(lits, dists, Stream(), taken).Odd?
      modifies this, out
      ensures start == old(start) && (out == old(out) || (expandable && fresh(out)))
      ensures match old(RoundAt(lits, dists, Stream(), taken))
              case Bad => !ok
              case Stop(q) => ok && !more && next == cur && taken == q && Valid() && out[..] == old(out[..])
              case Go(t, q) =>
                && (ok <==> Fitting(t, cur, old(Bound())))
                && (ok ==> more && Valid() && taken == q && next == cur + TokenLength(t) <= out.Length)
                && (ok ==> out[..next] == Apply(old(out[..cur]), t))
    {
      hide RoundAt, Table.Represents, Buffered;
      more, next := true, cur;
      var z, len, distance;
      ok, z, len, distance := ReadToken(lits, dists);
      if !ok {
        return;
      }
      if z < 256 {
        ok, next := PutLiteral(cur, z);
      } else if z == 256 {
        return true, false, cur;
      } else {
        ok, next := CopyMatch(cur, len, distance);
      }
    }

    /** The bits of one round: a symbol and, for a copy, its length and distance. */
    method ReadToken(ghost lits: Lengths, ghost dists: Lengths) returns (ok: bool, z: int, len: nat, distance: nat)
      requires Consistent() && lengths.Represents(lits) && distances.Represents(dists)
      requires !RoundAt(lits, dists, Stream(), taken).Odd?
      modifies this`pos, this`numBits, this`codeBuffer, this`taken
      ensures Consistent()
      ensures match old(RoundAt(lits, dists, Stream(), taken))
              case Bad => !ok
              case Stop(q) => ok && taken == q && z == 256
              case Go(t, q) =>
                && ok && taken == q && (t.Literal? ==> z == t.byte)
                && (t.Copy? ==> z > 256 && len == CopyLength(t) && distance == CopyDistance(t))
    {
      hide Table.Represents, Buffered, NextSymbol, CopyAt, CopyLength, CopyDistance;
      len, distance := 0, 0;
      z := Decode(lengths, lits);
      if z < 256 {
        ok := z >= 0;
      } else if z == 256 {
        ok := true;
      } else {
        ok, len, distance := ReadCopy(z - 257, dists);
      }
    }

    /** A literal byte in one round of `stbi__parse_huffman_block`. */
    method PutLiteral(cur: nat, z: Byte) returns (ok: bool, next: nat)
      requires cur <= out.Length && zout <= out.Length && (expandable ==> out.Length > 0)
      modifies this`out, this`zout, out
      ensures ok <==> expandable || cur < old(out.Length)
      ensures ok ==> next == cur + 1 <= out.Length && out[..next] == old(out[..cur]) + [z]
      ensures zout <= out.Length && old(out.Length) <= out.Length && (out == old(out) || (expandable && fresh(out)))
    {
      next := cur;
      if cur >= out.Length {
        ok := Expand(cur, 1);
        if !ok {
          return;
        }
      }
      ok := true;
      out[cur] := z;
      next := cur + 1;
    }

    /** The rest of a copy, after its length symbol. */
    method ReadCopy(l: nat, ghost dists: Lengths) returns (ok: bool, len: nat, distance: nat)
      requires Consistent() && distances.Represents(dists) && l < 31 && !CopyAt(l, dists, Stream(), taken).Odd?
      modifies this`pos, this`numBits, this`codeBuffer, this`taken
      ensures Consistent()
      ensures match old(CopyAt(l, dists, Stream(), taken))
              case Bad => !ok
              case Go(t, q) => ok && taken == q && t.Copy? && len == CopyLength(t) && distance == CopyDistance(t)
    {
      hide Table.Represents, Buffered, NextSymbol, LengthBits, DistanceBits, LengthBase, DistanceBase;
      distance := 0;
      len := ReadLength(l);
      var d := Decode(distances, dists);
      if d < 0 {
        return false, len, distance;
      }
      distance := ReadDistance(d);
      ok := true;
    }

    method ReadLength(l: nat) returns (len: nat)
      requires Consistent() && l < 31
      modifies this`pos, this`numBits, this`codeBuffer, this`taken
      ensures Consistent() && taken == old(taken) + LengthBits(l)
      ensures len == LengthBase(l) + NumberAt(Stream(), old(taken), LengthBits(l))
    {
      hide Buffered, LengthBits, LengthBase;
      LengthTable(l);
      LengthExtraTable(l);
      FewExtraBits(l);
      len := ReadExtra(LENGTH_BASE[l], LENGTH_EXTRA[l]);
    }

    method ReadDistance(d: nat) returns (distance: nat)
      requires Consistent() && d < 30
      modifies this`pos, this`numBits, this`codeBuffer, this`taken
      ensures Consistent() && taken == old(taken) + DistanceBits(d)
      ensures distance == DistanceBase(d) + NumberAt(Stream(), old(taken), DistanceBits(d))
    {
      hide Buffered, DistanceBits, DistanceBase;
      DistanceTable(d);
      DistanceExtraTable(d);
      FewExtraBits(d);
      distance := ReadExtra(DISTANCE_BASE[d], DISTANCE_EXTRA[d]);
    }

    /** A table entry plus the extra bits that it asks for. */
    method ReadExtra(base: nat, extra: nat) returns (r: nat)
      requires Consistent() && extra <= 13
      modifies this`pos, this`numBits, this`codeBuffer, this`taken
      ensures Consistent() && r == base + NumberAt(Stream(), old(taken), extra) && taken == old(taken) + extra
    {
      hide Buffered;
      r := base;
      if extra > 0 {
        var k := Receive(extra);
        r := r + k;
      }
    }

    /** Both tables are built. */
    method BuildBoth(lits: Lengths, dists: Lengths) returns (ok: bool)
      requires Valid() && |lits| <= 288 && |dists| <= 288
      modifies lengths.Repr, distances.Repr
      ensures Valid() && unchanged(out) && (ok <==> Accepted(lits) && Accepted(dists))
      ensures ok ==> lengths.Represents(lits) && distances.Represents(dists)
    {
      hide Table.Represents, Accepted, Buffered;
      ok := lengths.Build(lits);
      if !ok {
        return;
      }
      ok := distances.Build(dists);
    }

    /** `stbi__compute_huffman_codes`: builds the two codes that a dynamic block describes, if they exist. */
    method ComputeHuffmanCodes() returns (ok: bool)
      requires Valid()
      modifies this`pos, this`numBits, this`codeBuffer, this`taken, lengths.Repr, distances.Repr
      ensures Valid() && start == old(start) && out == old(out) && Output() == old(Output())
      ensures match old(HeaderAt(Stream(), taken))
              case Wrong => !ok
              case Read(c, q) => ok && taken == q && lengths.Represents(c.lits) && distances.Represents(c.dists)
    {
      hide BothAt, Table.Represents, LiteralCount, DistanceCount, Accepted, Buffered;
      var hlit, hdist, lencodes;
      ok, hlit, hdist, lencodes := ReadHeader();
      if !ok {
        return;
      }
      ghost var all := lencodes[..hlit + hdist];
      assert all[..hlit] == lencodes[..hlit] && all[hlit..] == lencodes[hlit..hlit + hdist];
      FewCodes(Stream(), old(taken));
      ok := BuildBoth(lencodes[..hlit], lencodes[hlit..hlit + hdist]);
    }

    /** The first part of `stbi__compute_huffman_codes`: the counts, and the code lengths of both codes. */
    method ReadHeader() returns (ok: bool, hlit: nat, hdist: nat, lencodes: array<Byte>)
      requires Consistent()
      modifies this`pos, this`numBits, this`codeBuffer, this`taken
      ensures Consistent()
      ensures hlit == LiteralCount(Stream(), old(taken)) && hdist == DistanceCount(Stream(), old(taken))
      ensures match old(BothAt(Stream(), taken))
              case Wrong => !ok
              case Read(lens, q) =>
                ok && taken == q && hlit + hdist <= lencodes.Length && lencodes[..hlit + hdist] == lens
    {
      hide LengthsAt, NumberAt, ThreesAt, CodeLengthLengths, Table.Represents, Accepted, Buffered;
      lencodes := new Byte[0];
      hlit := Receive(5);
      hlit := hlit + 257;
      hdist := Receive(5);
      hdist := hdist + 1;
      var hclen := Receive(4);
      hclen := hclen + 4;
      assert hclen == LengthCount(Stream(), old(taken));
      var sizes := ReadCodeLengthLengths(hclen);
      var codeLengths := new Table();
      ok := codeLengths.Build(sizes[..]);
      if ok {
        FewCodes(Stream(), old(taken));
        ok, lencodes := ReadItems(codeLengths, hlit + hdist, LengthCode(Stream(), old(taken)));
      }
    }

    method ReadCodeLengthLengths(hclen: nat) returns (sizes: array<Byte>)
      requires Consistent() && hclen <= 19
      modifies this`pos, this`numBits, this`codeBuffer, this`taken
      ensures Consistent() && fresh(sizes) && taken == old(taken) + 3 * hclen
      ensures sizes[..] == CodeLengthLengths(ThreesAt(Stream(), old(taken), hclen), hclen)
    {
      hide NumberAt, Buffered, OrderOf;
      ghost var clens := ThreesAt(Stream(), taken, hclen);
      sizes := new Byte[19](_ => 0);
      for i := 0 to hclen
        invariant Consistent() && taken == old(taken) + 3 * i
        invariant sizes[..] == CodeLengthLengths(clens, i)
      {
        OrderTable(i);
        var s := Receive(3);
        assert s == clens[i];
        sizes[ORDER[i]] := s;
      }
    }

    /** The loop over the code lengths: fills exactly as many entries as are wanted. */
    method ReadItems(table: Table, ntot: nat, ghost cl: Lengths) returns (ok: bool, lencodes: array<Byte>)
      requires Consistent() && table.Represents(cl) && |cl| == 19 && ntot <= 320
      modifies this`pos, this`numBits, this`codeBuffer, this`taken
      ensures Consistent() && fresh(lencodes)
      ensures match old(LengthsAt(cl, Stream(), taken, [], ntot))
              case Wrong => !ok
              case Read(lens, q) => ok && taken == q && ntot <= lencodes.Length && lencodes[..ntot] == lens
    {
      hide ItemAt, ApplyItem, Table.Represents, Buffered;
      ghost var both := LengthsAt(cl, Stream(), taken, [], ntot);
      lencodes := new Byte[286 + 32 + 137](_ => 0);
      var n: nat := 0;
      while n < ntot
        invariant Consistent() && n <= ntot && table.Represents(cl)
        invariant (forall k :: 0 <= k < n ==> lencodes[k] <= 15) &&
          LengthsAt(cl, Stream(), taken, lencodes[..n], ntot) == both
        decreases ntot - n
      {
        ok, n := ReadItem(table, lencodes, n, ntot, cl);
        if !ok {
          return;
        }
      }
      ok := n == ntot;
    }

    method ReadItem(table: Table, lencodes: array<Byte>, n: nat, ntot: nat, ghost cl: Lengths)
      returns (ok: bool, next: nat)
      requires Consistent() && table.Represents(cl) && |cl| == 19
      requires n < ntot <= lencodes.Length && forall k :: 0 <= k < n ==> lencodes[k] <= 15
      modifies this`pos, this`numBits, this`codeBuffer, this`taken, lencodes
      ensures Consistent()
      ensures match old(ItemAt(cl, Stream(), taken))
              case Wrong => !ok
              case Read(item, q) =>
                && (ok <==> (item.Previous? ==> n > 0) && n + ItemCount(item) <= ntot)
                && (ok ==> taken == q && next == n + ItemCount(item))
                && (ok ==> Applied(old(lencodes[..n]), item, lencodes[..next]))
    {
      hide NextSymbol, NumberAt, Table.Represents, Buffered;
      next := n;
      var c := Decode(table, cl);
      if c < 0 || c >= 19 {
        return false, next;
      }
      if c < 16 {
        lencodes[n] := c;
        assert lencodes[..n + 1] == old(lencodes[..n]) + Run(1, c);
        ok, next := true, n + 1;
      } else {
        var count, fill;
        ok, count, fill := ReadRepeat(c, lencodes, n);
        if !ok || ntot - n < count {
          return false, next;
        }
        PutBytes(lencodes, n, Run(count, fill));
        next := n + count;
      }
    }

    /** The symbols 16, 17 and 18: how often, and which length, to repeat. */
    method ReadRepeat(c: nat, lencodes: array<Byte>, n: nat) returns (ok: bool, count: nat, fill: Byte)
      requires Consistent() && 16 <= c < 19 && n <= lencodes.Length && forall k :: 0 <= k < n ==> lencodes[k] <= 15
      modifies this`pos, this`numBits, this`codeBuffer, this`taken
      ensures Consistent() && taken == old(taken) + ItemExtra(ItemOf(c, 0))
      ensures var item := ItemOf(c, NumberAt(Stream(), old(taken), ItemExtra(ItemOf(c, 0))));
        (ok <==> (item.Previous? ==> n > 0)) &&
        (ok ==> count == ItemCount(item) && fill == ItemFill(lencodes[..n], item))
    {
      hide NumberAt, Buffered;
      ok, count, fill := true, 0, 0;
      if c == 16 {
        count := Receive(2);
        count := count + 3;
        if n == 0 {
          return false, count, fill;
        }
        fill := lencodes[n - 1];
      } else if c == 17 {
        count := Receive(3);
        count := count + 3;
      } else {
        count := Receive(7);
        count := count + 11;
      }
    }

    /** `memcpy` */
    static method PutBytes(buffer: array<Byte>, at: nat, data: seq<Byte>)
      requires at + |data| <= buffer.Length
      modifies buffer
      ensures buffer[..at + |data|] == old(buffer[..at]) + data
    {
      forall k | at <= k < at + |data| {
        buffer[k] := data[k - at];
      }
    }

    /** `stbi__parse_uncompressed_block`: skips to a byte boundary, checks the length and copies the data. */
    method ParseUncompressedBlock() returns (ok: bool)
      requires Valid()
      modifies this, out
      ensures start == old(start) && (out == old(out) || (expandable && fresh(out)))
      ensures var run := old(StoredRun(Stream(), taken, Output(), Bound()));
        (ok <==> run.Ends?) && (ok ==> Valid() && taken == run.next && Output() == run.out)
    {
      hide StoredRun, BytesAt, Boundary, Word, Xor, Table.Shape, Buffered;
      var header := ReadStoredHeader();
      var len := Word(header[0], header[1]);
      var nlen := Word(header[2], header[3]);
      StoredOutcome(input, start, old(taken), pos, codeBuffer, header[..], old(Output()), old(Bound()));
      if nlen != Xor(len, 0xFFFF) {
        return false;
      }
      ok := CopyStored(len);
      if ok {
        taken := taken + 8 * len;
      }
    }

    /** The data of a stored block. */
    method CopyStored(len: nat) returns (ok: bool)
      requires pos <= |input| && zout <= out.Length && (expandable ==> out.Length > 0)
      modifies this`pos, this`out, this`zout, out
      ensures ok <==> old(pos) + len <= |input| && (expandable || old(zout) + len <= old(out.Length))
      ensures ok ==> pos == old(pos) + len && zout == old(zout) + len <= out.Length
      ensures ok ==> Output() == old(Output()) + input[old(pos)..old(pos) + len] && old(out.Length) <= out.Length
      ensures out == old(out) || (expandable && fresh(out))
    {
      if pos + len > |input| {
        return false;
      }
      if zout + len > out.Length {
        ok := Expand(zout, len);
        if !ok {
          return;
        }
      }
      PutBytes(out, zout, input[pos..pos + len]);
      pos := pos + len;
      zout := zout + len;
      ok := true;
    }

    /** Skips to a byte boundary and takes four bytes, first those already in the buffer. */
    method ReadStoredHeader() returns (header: array<Byte>)
      requires Consistent()
      modifies this`pos, this`numBits, this`codeBuffer, this`taken
      ensures Consistent() && numBits == 0 && taken == Boundary(old(taken)) + 32
      ensures fresh(header) && header.Length == 4 && header[..] == BytesAt(Stream(), Boundary(old(taken)), 4)
    {
      hide BytesAt, Boundary, Buffered;
      Align();
      header := new Byte[4](_ => 0);
      ghost var q := taken;
      var k := DrainBuffer(header);
      FetchHeader(header, k, q);
    }

    /** Takes what is missing of the header from the input. */
    method FetchHeader(header: array<Byte>, drained: nat, ghost q: nat)
      requires Consistent() && numBits == 0 && header.Length == 4 && drained <= 4 && taken == q + 8 * drained
      requires header[..drained] == BytesAt(Stream(), q, drained)
      modifies this`pos, this`taken, header
      ensures Consistent() && taken == q + 32 && header[..] == BytesAt(Stream(), q, 4)
    {
      hide BytesAt, Buffered, ByteAt, ByteBits, InputByte;
      var k := drained;
      while k < 4
        invariant k <= 4 && Consistent() && taken == q + 8 * k
        invariant header[..k] == BytesAt(Stream(), q, k)
      {
        ByteFetched(input, start, taken, pos, codeBuffer);
        BytesMore(Stream(), q, k);
        header[k] := Get8();
        assert header[..k + 1] == header[..k] + [header[k]];
        k, taken := k + 1, taken + 8;
      }
      assert header[..4] == header[..];
    }

    /** Discards the rest of the current byte. */
    method Align()
      requires Consistent()
      modifies this`pos, this`numBits, this`codeBuffer, this`taken
      ensures Consistent() && numBits % 8 == 0 && taken == Boundary(old(taken))
    {
      hide Boundary, Low, Pow2, ByteBits;
      ToBoundary(taken, numBits);
      if numBits % 8 != 0 {
        var _ := Receive(numBits % 8);
      }
      WholeBytes(taken, numBits);
    }

    /** Empties the buffer into the header, byte by byte. */
    method DrainBuffer(header: array<Byte>) returns (k: nat)
      requires Consistent() && numBits % 8 == 0 && header.Length == 4
      modifies this`numBits, this`codeBuffer, this`taken, header
      ensures Consistent() && numBits == 0 && k <= 4 && taken == old(taken) + 8 * k
      ensures header[..k] == BytesAt(Stream(), old(taken), k)
    {
      hide BytesAt, Buffered, Mask, NumberAt;
      k := 0;
      assert Pow2(8) == 256 by { Pow2Values(); }
      while numBits > 0
        invariant Consistent() && numBits + 8 * k == old(numBits) && numBits % 8 == 0 && taken == old(taken) + 8 * k
        invariant header[..k] == BytesAt(Stream(), old(taken), k)
        decreases numBits
      {
        BytesMore(Stream(), old(taken), k);
        header[k] := Mask(codeBuffer, 8);
        assert header[..k + 1] == header[..k] + [header[k]];
        Consume(8);
        k := k + 1;
      }
    }

    /** `stbi__parse_zlib_header` (RFC 1950). */
    method ParseZlibHeader() returns (ok: bool)
      requires pos <= |input|
      modifies this`pos
      ensures ok <==> ZlibHeader(InputByte(input, old(pos)), InputByte(input, old(pos) + 1))
      ensures pos == (if old(pos) + 2 <= |input| then old(pos) + 2 else |input|)
    {
      var cmf := Get8();
      var flg := Get8();
      HeaderMasks(cmf, flg);
      if Word(flg, cmf) % 31 != 0 {
        return false;
      }
      if And(flg, 32) != 0 {
        return false;
      }
      if And(cmf, 15) != 8 {
        return false;
      }
      return true;
    }

    /** The input as it is seen behind the zlib header, if there is to be one. */
    ghost function Body(parseHeader: bool): seq<bool>
      reads `pos
    {
      var p := if parseHeader then pos + 2 else pos;
      if p <= |input| then ByteBits(input[p..]) else []
    }

    ghost predicate RightHeader(parseHeader: bool)
      reads `pos
    {
      parseHeader ==> ZlibHeader(InputByte(input, pos), InputByte(input, pos + 1))
    }

    /** `stbi__parse_zlib`: appends what the blocks give, unless the zlib header is wrong, there is an error in the
        blocks or a fixed buffer is too small. */
    method ParseZlib(parseHeader: bool) returns (ok: bool)
      requires Valid() && (RightHeader(parseHeader) ==> Inflated(Body(parseHeader), Output(), Bound()).Known())
      modifies this, out, lengths.Repr, distances.Repr
      ensures out == old(out) || (expandable && fresh(out))
      ensures ok <==> old(RightHeader(parseHeader)) && old(Inflated(Body(parseHeader), Output(), Bound())).Ends?
      ensures ok ==> Valid() && Ends(Output(), taken) == old(Inflated(Body(parseHeader), Output(), Bound()))
    {
      hide BlocksRun, BlockRun, ZlibHeader, Table.Shape, Buffered, LastAt;
      ghost var all, run := Body(parseHeader), Inflated(Body(parseHeader), Output(), Bound());
      if parseHeader {
        ok := ParseZlibHeader();
        if !ok {
          return;
        }
      }
      numBits, codeBuffer, start, taken := 0, 0, pos, 0;
      NothingBuffered(input, pos);
      ghost var m := Rounds(all, Output(), Bound());
      assert Stream() == all;
      var final := false;
      while !final
        invariant Valid() && Stream() == all && Bound() == old(Bound())
        invariant if final then run == Ends(Output(), taken)
                  else run == BlocksRun(all, taken, Output(), Bound(), m)
        invariant out == old(out) || (expandable && fresh(out))
        decreases m, !final
      {
        KnownBlock(all, taken, Output(), Bound(), m);
        ok, final := ParseBlock(m);
        if !ok {
          return;
        }
        m := m - 1;
      }
      return true;
    }

    /** One round of `stbi__parse_zlib`. */
    method ParseBlock(ghost n: nat) returns (ok: bool, final: bool)
      requires Valid() && BlockRun(Stream(), taken, Output(), Bound(), n).Known()
      modifies this, out, lengths.Repr, distances.Repr
      ensures start == old(start) && (out == old(out) || (expandable && fresh(out)))
      ensures var run := old(BlockRun(Stream(), taken, Output(), Bound(), n));
        (ok <==> run.Ends?) && (ok ==> Valid() && taken == run.next && Output() == run.out)
      ensures final <==> old(LastAt(Stream(), taken))
    {
      hide NumberAt, StoredRun, DynamicRun, TokensRun, FixedLiterals, FixedDistances, Table.Shape, Buffered;
      var bit := Receive(1);
      var kind := Receive(2);
      final := bit == 1;
      if kind == 0 {
        ok := ParseUncompressedBlock();
      } else if kind == 3 {
        ok := false;
      } else {
        Pow2Values();
        ok := ParseCompressed(kind, n);
      }
    }

    /** A compressed block, with the fixed codes or with codes of its own. */
    method ParseCompressed(kind: nat, ghost n: nat) returns (ok: bool)
      requires Valid() && 1 <= kind <= 2 && CompressedRun(kind, Stream(), taken, Output(), Bound(), n).Known()
      modifies this, out, lengths.Repr, distances.Repr
      ensures start == old(start) && (out == old(out) || (expandable && fresh(out)))
      ensures var run := old(CompressedRun(kind, Stream(), taken, Output(), Bound(), n));
        (ok <==> run.Ends?) && (ok ==> Valid() && taken == run.next && Output() == run.out)
    {
      hide HeaderAt, TokensRun, FixedLiterals, FixedDistances, Table.Represents, Table.Shape, Buffered;
      if kind == 1 {
        ok := BuildFixedCodes();
        if ok {
          ok := ParseHuffmanBlock(FixedLiterals(), FixedDistances(), n);
        }
      } else {
        ghost var codes := HeaderAt(Stream(), taken);
        ok := ComputeHuffmanCodes();
        if ok {
          ok := ParseHuffmanBlock(codes.value.lits, codes.value.dists, n);
        }
      }
    }

    method BuildFixedCodes() returns (ok: bool)
      requires Valid()
      modifies lengths.Repr, distances.Repr
      ensures ok && lengths.Represents(FixedLiterals()) && distances.Represents(FixedDistances())
      ensures Valid() && start == old(start) && taken == old(taken) && out == old(out) && Output() == old(Output())
    {
      hide FixedLiterals, FixedDistances, DefaultLengths, DefaultDistances, Table.Represents, Buffered;
      FixedAccepted();
      DefaultTables();
      ok := lengths.Build(DefaultLengths());
      if ok {
        ok := distances.Build(DefaultDistances());
      }
    }
  }

  // ---------- Headers ----------

  /** The lengths have been extended as the item says. */
  ghost predicate Applied(was: seq<nat>, item: Item, now: seq<nat>) {
    && (forall k :: 0 <= k < |was| ==> was[k] <= 15) && (item.Single? ==> item.length < 16) &&
         (item.Previous? ==> |was| > 0)
    && now == ApplyItem(was, item)
  }

  lemma FewCodes(all: seq<bool>, p: nat)
    ensures LiteralCount(all, p) <= 288 && DistanceCount(all, p) <= 32
  {
    hide NumberAt;
    Pow2Values();
  }

  /** The first two bytes of a zlib stream (section 2.2 of RFC 1950): the lower half of the first one is method 8, bit 5
      of the second one tells that there is no preset dictionary, and as a number, the first byte on top, they are a
      multiple of 31. */
  predicate ZlibHeader(cmf: Byte, flg: Byte) {
    cmf % 16 == 8 && flg / 32 % 2 == 0 && (cmf * 256 + flg) % 31 == 0
  }

  lemma HeaderMasks(cmf: Byte, flg: Byte)
    ensures And(flg, 32) == flg / 32 % 2 * 32 && And(cmf, 15) == cmf % 16
  {
    Pow2Values();
    AndPower(flg, 5);
    AndOnes(cmf, 4);
  }

  /** Two bytes, the low one first. */
  function Word(lo: nat, hi: nat): nat {
    hi * 256 + lo
  }

  /** The length of a stored block and its complement. */
  lemma StoredWords(all: seq<bool>, q: nat, header: seq<Byte>)
    requires header == BytesAt(all, q, 4)
    ensures var len := WordAt(all, q);
      && len == Word(header[0], header[1]) && WordAt(all, q + 16) == Word(header[2], header[3])
      && Xor(len, 0xFFFF) == 0xFFFF - len
  {
    hide ByteAt, Xor;
    FourBytes(all, q);
    Pow2Values();
    Complement(WordAt(all, q), 16);
  }

  function InputByte(input: seq<Byte>, i: nat): Byte {
    if i < |input| then input[i] else 0
  }

  // ---------- The bits in the buffer ----------

  /** The bits of byte f are the eight from 8 * f on, and zeros behind the last byte. */
  lemma {:induction false} ByteBitsAt(s: seq<Byte>, f: nat)
    ensures BitsAt(ByteBits(s), 8 * f, 8) == Low(InputByte(s, f), 8)
    decreases f
  {
    hide Low;
    var all := ByteBits(s);
    if s == [] {
      ZeroByte();
    } else if f == 0 {
      assert all[..8] == Low(s[0], 8);
    } else {
      ByteBitsAt(s[1..], f - 1);
      assert all[8..] == ByteBits(s[1..]);
      assert BitsAt(all, 8 * f, 8) == BitsAt(all[8..], 8 * (f - 1), 8);
    }
  }

  lemma ZeroByte()
    ensures Low(0, 8) == [false, false, false, false, false, false, false, false]
  {
    assert Low(0, 4) == [false, false, false, false];
    LowAppend(0, 4, 0, 4);
  }

  /** Fetching a byte, or a zero behind the end. */
  lemma ByteAppended(input: seq<Byte>, start: nat, taken: nat, pos: nat, c: nat, n: nat)
    requires Buffered(input, start, taken, pos, c, n)
    ensures var b := InputByte(input, pos);
      Buffered(input, start, taken, if pos < |input| then pos + 1 else pos, Or(c, ShiftLeft(b, n)), n + 8)
  {
    hide Low, Or, ShiftLeft, Pow2, ByteBits;
    var b, s, f := InputByte(input, pos), input[start..], (taken + n) / 8;
    AppendLow(c, n, b);
    BitsSplit(ByteBits(s), taken, n, 8);
    ByteBitsAt(s, f);
    assert InputByte(s, f) == b;
    assert (taken + (n + 8)) / 8 == f + 1;
  }

  lemma BitsConsumed(input: seq<Byte>, start: nat, taken: nat, pos: nat, c: nat, n: nat, k: nat)
    requires Buffered(input, start, taken, pos, c, n) && k <= n
    ensures start <= |input| && Buffered(input, start, taken + k, pos, ShiftRight(c, k), n - k)
    ensures Mask(c, k) == NumberAt(ByteBits(input[start..]), taken, k)
  {
    hide Low, ByteBits, Mask, ShiftRight;
    var all := ByteBits(input[start..]);
    LowSplit(c, k, n - k);
    ShiftBound(c, k, n - k);
    BitsSplit(all, taken, k, n - k);
    var x, y := Low(Mask(c, k), k), Low(ShiftRight(c, k), n - k);
    assert x == (x + y)[..k] == BitsAt(all, taken, k) && y == (x + y)[k..] == BitsAt(all, taken + k, n - k);
    ValueLow(Mask(c, k), k);
    MaskTwice(c, k);
  }

  lemma MaskTwice(c: nat, k: nat)
    ensures Mask(Mask(c, k), k) == Mask(c, k)
  {
    Digits(0, Mask(c, k), Pow2(k));
  }

  /** A buffer of sixteen bits holds any code that comes. */
  lemma SixteenBits(input: seq<Byte>, start: nat, taken: nat, pos: nat, c: nat, n: nat)
    requires Buffered(input, start, taken, pos, c, n) && n >= 16
    ensures start <= |input| && Low(c, n)[..16] == BitsAt(ByteBits(input[start..]), taken, 16)
  {
    BitsSplit(ByteBits(input[start..]), taken, 16, n - 16);
  }

  /** A code that starts the buffer is the one read. */
  lemma SymbolIs(lens: Lengths, all: seq<bool>, p: nat, c: nat, n: nat, i: nat)
    requires Accepted(lens) && Used(lens, i) && n >= 16 && Low(c, n)[..16] == BitsAt(all, p, 16)
    requires Low(Mask(c, lens[i]), lens[i]) == Code(lens, i)
    ensures NextSymbol(lens, all, p) == i
  {
    hide Accepted, Code, NextSymbol, Low, Mask;
    var m, x := lens[i], Low(c, n);
    LowPrefix(c, m, n);
    BitsSplit(all, p, m, 16 - m);
    assert x[..16][..m] == x[..m] && BitsAt(all, p, 16)[..m] == BitsAt(all, p, m);
    AtCode(lens, all, p, i);
  }

  lemma NoSymbol(lens: Lengths, all: seq<bool>, p: nat, x: seq<bool>)
    requires |x| >= 16 && x[..16] == BitsAt(all, p, 16) && forall i :: 0 <= i < |lens| ==> !Starts(lens, i, x)
    ensures NextSymbol(lens, all, p) == -1
  {
    hide Code;
    forall i: nat | i < |lens| ensures !Starts(lens, i, BitsAt(all, p, 16)) {
      assert !Starts(lens, i, x);
      var c := Code(lens, i);
      if c <= x[..16] { assert c == x[..16][..|c|] == x[..|c|]; }
    }
  }

  // ---------- Bytes ----------

  /** The odd bits in the buffer lead to the next byte boundary. */
  lemma ToBoundary(p: nat, n: nat)
    requires (p + n) % 8 == 0
    ensures p + n % 8 == Boundary(p) && (n % 8 == 0 <==> p == Boundary(p))
  {
    var k := n / 8;
    assert p + n % 8 == p + n - 8 * k;
    BoundaryIs(p, n % 8);
  }

  lemma WholeBytes(p: nat, n: nat)
    requires (p + n) % 8 == 0 && p % 8 == 0
    ensures n % 8 == 0
  {
  }

  lemma NothingBuffered(input: seq<Byte>, pos: nat)
    requires pos <= |input|
    ensures Buffered(input, pos, 0, pos, 0, 0)
  {
  }

  /** With an empty buffer, the byte that comes next. */
  lemma ByteFetched(input: seq<Byte>, start: nat, taken: nat, pos: nat, c: nat)
    requires Buffered(input, start, taken, pos, c, 0)
    ensures start <= |input| && InputByte(input, pos) == ByteAt(ByteBits(input[start..]), taken)
    ensures Buffered(input, start, taken + 8, if pos < |input| then pos + 1 else pos, c, 0)
  {
    hide ByteBits, Low, ByteAt;
    var s, f := input[start..], taken / 8;
    ByteBitsAt(s, f);
    assert InputByte(s, f) == InputByte(input, pos);
    ByteThere(ByteBits(s), taken, InputByte(s, f));
    assert taken == 8 * f && (taken + 8) / 8 == f + 1;
  }

  lemma BytesMore(all: seq<bool>, q: nat, k: nat)
    ensures BytesAt(all, q, k + 1) == BytesAt(all, q, k) + [ByteAt(all, q + 8 * k)]
  {
    hide ByteAt;
  }

  /** The data of a stored block is there, and is the coming bytes of the input. */
  lemma StoredBytes(input: seq<Byte>, start: nat, taken: nat, pos: nat, c: nat, len: nat)
    requires Buffered(input, start, taken, pos, c, 0)
    ensures start <= |input| && |ByteBits(input[start..])| == 8 * (|input| - start)
    ensures pos + len <= |input| <==> len == 0 || taken + 8 * len <= 8 * (|input| - start)
    ensures pos + len <= |input| ==>
      && input[pos..pos + len] == BytesAt(ByteBits(input[start..]), taken, len)
      && Buffered(input, start, taken + 8 * len, pos + len, c, 0)
  {
    if pos + len <= |input| {
      ComingBytes(input, start, taken, pos, c, len);
    }
  }

  /** What the header of a stored block, which has been read, decides. */
  lemma StoredOutcome(input: seq<Byte>, start: nat, p: nat, pos: nat, c: nat, header: seq<Byte>, out: seq<Byte>,
                      cap: int)
    requires Buffered(input, start, Boundary(p) + 32, pos, c, 0)
    requires start <= |input| && header == BytesAt(ByteBits(input[start..]), Boundary(p), 4)
    ensures var len, nlen := Word(header[0], header[1]), Word(header[2], header[3]);
      var run := StoredRun(ByteBits(input[start..]), p, out, cap);
      && (run.Ends? <==> nlen == Xor(len, 0xFFFF) && pos + len <= |input| && Room(cap, |out| + len))
      && (pos + len <= |input| ==> Buffered(input, start, Boundary(p) + 32 + 8 * len, pos + len, c, 0))
      && (run.Ends? ==> run == Ends(out + input[pos..pos + len], Boundary(p) + 32 + 8 * len))
      && (run.Ends? || run == Fails)
  {
    hide Boundary, BytesAt, Buffered, WordAt, Word, Xor;
    StoredWords(ByteBits(input[start..]), Boundary(p), header);
    StoredBytes(input, start, Boundary(p) + 32, pos, c, Word(header[0], header[1]));
  }

  lemma {:induction false} ComingBytes(input: seq<Byte>, start: nat, taken: nat, pos: nat, c: nat, len: nat)
    requires Buffered(input, start, taken, pos, c, 0) && pos + len <= |input|
    ensures input[pos..pos + len] == BytesAt(ByteBits(input[start..]), taken, len)
    ensures Buffered(input, start, taken + 8 * len, pos + len, c, 0)
    decreases len
  {
    hide BytesAt, Buffered, ByteAt;
    if len > 0 {
      ComingBytes(input, start, taken, pos, c, len - 1);
      ByteFetched(input, start, taken + 8 * (len - 1), pos + len - 1, c);
      BytesMore(ByteBits(input[start..]), taken, len - 1);
      assert input[pos..pos + len] == input[pos..pos + len - 1] + [input[pos + len - 1]];
    }
  }

  lemma FewExtraBits(z: nat)
    ensures z < 31 ==> LENGTH_EXTRA[z] <= 13
    ensures z < 30 ==> DISTANCE_EXTRA[z] <= 13
  {
  }

  /** A result that is known comes from a round that is defined. */
  lemma KnownRound(lits: Lengths, dists: Lengths, all: seq<bool>, p: nat, out: seq<Byte>, cap: int, n: nat)
    requires TokensRun(lits, dists, all, p, out, cap, n).Known()
    ensures n > 0 && !RoundAt(lits, dists, all, p).Odd?
    ensures var run := TokensRun(lits, dists, all, p, out, cap, n);
      match RoundAt(lits, dists, all, p)
      case Bad => run == Fails
      case Stop(q) => run == Ends(out, q)
      case Go(t, q) =>
        if !Fitting(t, |out|, cap) then run == Fails
        else (t.Copy? ==> CopyDistance(t) <= |out|) && run == TokensRun(lits, dists, all, q, Apply(out, t), cap, n - 1)
  {
    hide RoundAt, Apply;
  }

  /** A result that is known comes from a block with a known result. */
  lemma KnownBlock(all: seq<bool>, p: nat, out: seq<Byte>, cap: int, n: nat)
    requires BlocksRun(all, p, out, cap, n).Known()
    ensures n > 0 && BlockRun(all, p, out, cap, n).Known()
    ensures var run, r := BlocksRun(all, p, out, cap, n), BlockRun(all, p, out, cap, n);
      run == if r.Ends? && !LastAt(all, p) then BlocksRun(all, r.next, r.out, cap, n - 1) else r
  {
    hide BlockRun, LastAt;
  }

  /** A code of at most 9 bits, found through the 9 lowest bits of the buffer, is what the buffer starts with. */
  lemma FastSymbol(lens: Lengths, c: nat, n: nat, b: nat) returns (i: nat)
    requires |lens| <= 288 && FAST_BITS <= n && b > 0 && FastEntry(lens, |lens|, Mask(c, FAST_BITS), b)
    ensures i < |lens| && 0 < lens[i] <= FAST_BITS
    ensures ShiftRight(b, 9) == lens[i] && Mask(b, 9) == i
    ensures Low(Mask(c, lens[i]), lens[i]) == Code(lens, i)
  {
    i :| 0 <= i < |lens| && FastStarts(lens, i, Mask(c, FAST_BITS)) && b == lens[i] * 512 + i;
    EntryFields(lens[i], i);
    LowPrefix(c, FAST_BITS, n);
    LowPrefix(c, lens[i], n);
  }

  lemma EntryFields(s: nat, i: nat)
    requires i < 512
    ensures ShiftRight(s * 512 + i, 9) == s && Mask(s * 512 + i, 9) == i
  {
    Digits(s, i, 512);
    Pow2Values();
  }

  lemma LowPrefix(c: nat, m: nat, n: nat)
    requires m <= n
    ensures Low(c, n)[..m] == Low(Mask(c, m), m)
  {
    LowSplit(c, m, n - m);
  }

  /** A reversed buffer is below the preshifted limit of length s exactly when its first s bits are below the end of the
      codes. */
  lemma BelowLimit(lens: Lengths, c: nat, n: nat, s: nat)
    requires 1 <= s <= 15 && n >= 16
    ensures ReverseBits(c, 16) < ShiftLeft(EndCode(lens, s), 16 - s) <==> Front(Low(c, n), s) < EndCode(lens, s)
    ensures ShiftRight(ReverseBits(c, 16), 16 - s) == Front(Low(c, n), s)
  {
    var k, m, e := ReverseBits(c, 16), 16 - s, EndCode(lens, s);
    assert k == BitReverse16(c);
    ReverseIsFront(c, n, s);
    ShiftOrder(k, m, e);
  }

  lemma ShiftOrder(k: nat, m: nat, e: nat)
    ensures k < ShiftLeft(e, m) <==> ShiftRight(k, m) < e
  {
    var q, p := ShiftRight(k, m), Pow2(m);
    if q < e { MulMonotone(q + 1, e, p); } else { MulMonotone(e, q, p); }
  }

  /** The fast table misses exactly when the reversed buffer is at or above the limit of the 9-bit codes. */
  lemma FastMiss(lens: Lengths, c: nat, n: nat)
    requires Accepted(lens) && n >= 16
    ensures FastEntry(lens, |lens|, Mask(c, FAST_BITS), 0) <==>
            ReverseBits(c, 16) >= ShiftLeft(EndCode(lens, FAST_BITS), 16 - FAST_BITS)
  {
    var x, j := Low(c, n), Mask(c, FAST_BITS);
    BelowLimit(lens, c, n, FAST_BITS);
    LowPrefix(c, FAST_BITS, n);
    forall i | 0 <= i < |lens| ensures FastStarts(lens, i, j) <==> lens[i] <= FAST_BITS && Starts(lens, i, x) {
      assert lens[i] <= FAST_BITS ==> (Code(lens, i) <= x <==> Code(lens, i) <= x[..FAST_BITS]);
    }
    StartWithin(lens, x, FAST_BITS);
  }

  /** Past the codes of length m means past the codes of every length up to m. */
  lemma PastAll(lens: Lengths, x: seq<bool>, m: nat)
    requires 1 <= m <= |x| && Front(x, m) >= EndCode(lens, m)
    ensures Past(lens, x, m)
  {
    forall t | 1 <= t <= m ensures Front(x, t) >= EndCode(lens, t) {
      if t < m && Front(x, t) < EndCode(lens, t) { StaysBelow(lens, x, t, m); }
    }
  }

  ghost predicate Past(lens: Lengths, x: seq<bool>, m: nat)
    requires m <= |x|
  {
    forall t {:trigger EndCode(lens, t)} :: 1 <= t <= m ==> Front(x, t) >= EndCode(lens, t)
  }

  lemma MissedFast(lens: Lengths, c: nat, n: nat)
    requires Accepted(lens) && n >= 16 && FastEntry(lens, |lens|, Mask(c, FAST_BITS), 0)
    ensures Past(lens, Low(c, n), FAST_BITS) && ReverseBits(c, 16) < 0x10000
  {
    FastMiss(lens, c, n);
    BelowLimit(lens, c, n, FAST_BITS);
    PastAll(lens, Low(c, n), FAST_BITS);
    ReversedBound(c, 16);
    Pow2Values();
  }

  lemma BeyondLimit(lens: Lengths, c: nat, n: nat, s: nat)
    requires 1 <= s <= 15 && n >= 16 && Past(lens, Low(c, n), s - 1)
    requires ReverseBits(c, 16) >= ShiftLeft(EndCode(lens, s), 16 - s)
    ensures Past(lens, Low(c, n), s)
  {
    BelowLimit(lens, c, n, s);
    PastAll(lens, Low(c, n), s);
  }

  /** Past the codes of all lengths but not past those of length s, the symbol is found through its table index. */
  lemma SlowSymbol(lens: Lengths, c: nat, n: nat, s: nat) returns (i: nat)
    requires Accepted(lens) && 1 < s <= 15 && s <= n && Past(lens, Low(c, n), s - 1) &&
      Front(Low(c, n), s) < EndCode(lens, s)
    ensures i < |lens| && lens[i] == s
    ensures Index(lens, i) == FirstSymbol(lens, s) + Front(Low(c, n), s) - FirstCode(lens, s)
    ensures Low(Mask(c, s), s) == Code(lens, i)
  {
    var x := Low(c, n);
    forall t | 1 <= t < s ensures Front(x, t) >= EndCode(lens, t) {
      assert EndCode(lens, t) >= 0;
    }
    StaysAbove(lens, x, s);
    i := StartOfLength(lens, x, s);
    LowPrefix(c, s, n);
    assert x[..s] == Code(lens, i);
  }

  lemma PastLongest(lens: Lengths, x: seq<bool>)
    requires Accepted(lens) && |x| >= 16 && Past(lens, x, 15)
    ensures forall i :: 0 <= i < |lens| ==> !Starts(lens, i, x)
  {
    assert EndCode(lens, 15) <= Front(x, 15);
    StartWithin(lens, x, 15);
  }
}
