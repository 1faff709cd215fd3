/** `bit_reinterpret`, and base64 (section 4 of RFC 4648) on top of it. */
module Base64 {
  import opened Arithmetic
  import opened Bits
  import opened BitCells

  /** The number of cells of width w that hold n bits. */
  function CellCount(n: nat, w: nat): nat
    requires w > 0
  {
    if n == 0 then 0 else (n - 1) / w + 1
  }

  ghost predicate AllNarrow(cells: seq<Byte>, w: nat) {
    forall j :: 0 <= j < |cells| ==> Narrow(cells[j], w)
  }

  /** The same bits, padded with zeros to a whole number of cells. */
  ghost predicate SameStream(src: seq<Byte>, inl: nat, out: seq<Byte>, outl: nat)
    requires inl > 0 && outl > 0
  {
    && |out| == CellCount(|src| * inl, outl) && AllNarrow(out, outl)
    && forall n :: 0 <= n < |out| * outl ==> StreamBit(out, outl, n) == (n < |src| * inl && StreamBit(src, inl, n))
  }

  /** `bit_reinterpret`, for nonempty input: moves a stream of bits to cells of another width. */
  method BitReinterpret(src: seq<Byte>, inl: nat, outl: nat) returns (out: array<Byte>, outlen: nat)
    requires src != [] && 0 < inl <= 8 && 0 < outl <= 8 && AllNarrow(src, inl)
    ensures fresh(out) && outlen <= out.Length && SameStream(src, inl, out[..outlen], outl)
  {
    hide Piece, Or, TopBit, Copied, SameStream, StreamBit, AllNarrow;
    var inlen := |src|;
    outlen := inlen * inl / outl + 1;
    Allocated(inlen * inl, outl);
    out := new Byte[outlen];
    var srccur: nat, cur: nat, pos: nat := 0, 0, 0;
    out[cur] := 0;
    Start(src, inl, out[..], outl);
    ghost var pi: nat, po: nat := 0, 0;
    while srccur < inlen
      invariant pos == srccur * inl + pi == cur * outl + po && pi < inl && (pi == 0 || po == 0)
      invariant srccur <= inlen && (srccur == inlen ==> pi == 0)
      invariant out.Length * outl > inlen * inl && Copied(src, inl, out[..], outl, cur, po)
      decreases inlen - srccur, inl - pi
    {
      srccur, cur, pos, pi, po := MoveBits(src, inl, out, outl, srccur, cur, pos, pi, po);
    }
    Remainders(src, inl, srccur, pi, out[..], outl, cur, po, pos);
    outlen := cur + if pos % outl > 0 then 1 else 0;
    Finish(src, inl, out[..], outl, cur, po);
  }

  /** One round of `bit_reinterpret`. */
  method MoveBits(src: seq<Byte>, inl: nat, out: array<Byte>, outl: nat, srccur: nat, cur: nat, pos: nat, ghost pi: nat,
                  ghost po: nat)
    returns (srccur': nat, cur': nat, pos': nat, ghost pi': nat, ghost po': nat)
    requires pi < inl <= 8 && 0 < outl <= 8 && (pi == 0 || po == 0) && pos == srccur * inl + pi == cur * outl + po
    requires srccur < |src| && AllNarrow(src, inl) && Copied(src, inl, out[..], outl, cur, po) &&
      out.Length * outl > |src| * inl
    modifies out
    ensures pi' < inl && (pi' == 0 || po' == 0) && pos' == srccur' * inl + pi' == cur' * outl + po'
    ensures (srccur' == srccur && pi' > pi) || (srccur' == srccur + 1 && pi' == 0)
    ensures Copied(src, inl, out[..], outl, cur', po')
  {
    hide Piece, Or, TopBit, Copied, StreamBit;
    Remainders(src, inl, srccur, pi, out[..], outl, cur, po, pos);
    OrByte(out[cur], Piece(src[srccur], pos % inl, pos % outl, inl, outl));
    var cell: Byte := Or(out[cur], Piece(src[srccur], pos % inl, pos % outl, inl, outl));
    var incr := if inl - pos % inl > outl - pos % outl then outl - pos % outl else inl - pos % inl;
    Round(src, inl, srccur, pi, out[..], outl, cur, po, cell);
    ghost var was := out[..];
    srccur', cur', pos' := srccur, cur, pos;
    out[cur] := cell;
    assert out[..] == was[cur := cell];
    if pos % outl + incr >= outl {
      cur' := cur + 1;
      out[cur'] := 0;
      assert out[..] == was[cur := cell][cur' := 0];
    }
    if pos % inl + incr >= inl {
      srccur' := srccur + 1;
    }
    pos' := pos + incr;
    pi' := if pi + incr >= inl then 0 else pi + incr;
    po' := if po + incr >= outl then 0 else po + incr;
    NextCell(srccur, inl);
    NextCell(cur, outl);
  }

  lemma Allocated(n: nat, w: nat)
    requires w > 0
    ensures (n / w + 1) * w > n
  {
    CellOf(n, w);
  }

  lemma NextCell(c: nat, w: nat)
    ensures (c + 1) * w == c * w + w
  {
  }

  lemma Remainders(src: seq<Byte>, inl: nat, s: nat, pi: nat, out: seq<Byte>, outl: nat, c: nat, po: nat, pos: nat)
    requires pi < inl && outl > 0 && pos == s * inl + pi == c * outl + po && Copied(src, inl, out, outl, c, po)
    ensures pos % inl == pi && pos % outl == po < outl && c < |out|
  {
    InCell(pos, s, inl);
    InCell(pos, c, outl);
  }

  lemma Start(src: seq<Byte>, inl: nat, out: seq<Byte>, outl: nat)
    requires inl > 0 && outl > 0 && |out| > 0 && out[0] == 0
    ensures Copied(src, inl, out, outl, 0, 0)
  {
    forall i: nat ensures !Bit(0, i) { ZeroBit(i); }
  }

  /** One round: as many bits are moved as the source and the target cell both have left. */
  lemma Round(src: seq<Byte>, inl: nat, s: nat, pi: nat, out: seq<Byte>, outl: nat, c: nat, po: nat, cell: Byte)
    requires pi < inl <= 8 && po < outl <= 8 && (pi == 0 || po == 0) && s * inl + pi == c * outl + po
    requires s < |src| && AllNarrow(src, inl) && Copied(src, inl, out, outl, c, po) && |out| * outl > |src| * inl
    requires c < |out| && cell == Or(out[c], Piece(src[s], pi, po, inl, outl))
    ensures outl - po > inl - pi ==> Copied(src, inl, out[c := cell], outl, c, po + (inl - pi))
    ensures outl - po <= inl - pi ==> c + 1 < |out| && Copied(src, inl, out[c := cell][c + 1 := 0], outl, c + 1, 0)
  {
    hide Or, Piece, Copied, TopBit, StreamBit;
    MovePiece(src, inl, s, pi, out, outl, c, po, cell);
    if outl - po > inl - pi {
      Continue(src, inl, out, outl, c, po, inl - pi, cell);
    } else {
      assert (s + 1) * inl == s * inl + inl && (c + 1) * outl == c * outl + outl;
      MulMonotone(s + 1, |src|, inl);
      if c + 1 >= |out| { MulMonotone(|out|, c + 1, outl); }
      Complete(src, inl, out, outl, c, po, cell);
    }
  }

  /** A round that does not complete the target cell. */
  lemma Continue(src: seq<Byte>, inl: nat, out: seq<Byte>, outl: nat, c: nat, po: nat, incr: nat, cell: Byte)
    requires 0 < inl && 0 < outl <= 8 && Copied(src, inl, out, outl, c, po) && po + incr < outl
    requires forall n :: 0 <= n < c * outl + po + incr ==> StreamBit(out[c := cell], outl, n) == StreamBit(src, inl, n)
    requires forall t :: po + incr <= t < 8 ==> !TopBit(cell, t)
    ensures Copied(src, inl, out[c := cell], outl, c, po + incr)
  {
    hide StreamBit, TopBit;
  }

  /** A round that completes the target cell: the next one is cleared. */
  lemma Complete(src: seq<Byte>, inl: nat, out: seq<Byte>, outl: nat, c: nat, po: nat, cell: Byte)
    requires 0 < inl && 0 < outl <= 8 && Copied(src, inl, out, outl, c, po) && c + 1 < |out|
    requires forall n :: 0 <= n < c * outl + outl ==> StreamBit(out[c := cell], outl, n) == StreamBit(src, inl, n)
    requires forall t :: outl <= t < 8 ==> !TopBit(cell, t)
    ensures Copied(src, inl, out[c := cell][c + 1 := 0], outl, c + 1, 0)
  {
    hide TopBit, StreamBit;
    Clear();
    assert (c + 1) * outl == c * outl + outl;
    forall n | 0 <= n < (c + 1) * outl
      ensures StreamBit(out[c := cell][c + 1 := 0], outl, n) == StreamBit(src, inl, n)
    {
      BitBefore(out[c := cell], outl, c + 1, n);
    }
  }

  /** A cell behind a bit does not matter. */
  lemma BitBefore(cells: seq<Byte>, w: nat, c: nat, n: nat)
    requires w > 0 && c < |cells| && n < c * w
    ensures StreamBit(cells[c := 0], w, n) == StreamBit(cells, w, n)
  {
    hide TopBit;
    CellOf(n, w);
    if n / w >= c { MulMonotone(c, n / w, w); }
  }

  lemma Clear()
    ensures forall t :: 0 <= t < 8 ==> !TopBit(0, t)
  {
    forall i: nat ensures !Bit(0, i) { ZeroBit(i); }
  }

  /** When all source bits have been moved, the cells used are the stream, padded with zeros. */
  lemma Finish(src: seq<Byte>, inl: nat, out: seq<Byte>, outl: nat, c: nat, po: nat)
    requires 0 < inl && 0 < outl <= 8 && src != [] && Copied(src, inl, out, outl, c, po) && c * outl + po == |src| * inl
    ensures SameStream(src, inl, out[..c + if po > 0 then 1 else 0], outl)
  {
    hide TopBit, StreamBit, Narrow, CellCount, Copied, AllNarrow;
    var cells := c + if po > 0 then 1 else 0;
    FinishedCells(src, inl, out, outl, c, po);
    Ceiling(c * outl + po, c, po, outl);
    MulMonotone(1, |src|, inl);
    forall n | 0 <= n < cells * outl
      ensures StreamBit(out[..cells], outl, n) == (n < |src| * inl && StreamBit(src, inl, n))
    {
      CellOf(n, outl);
      FinalBit(src, inl, out, outl, c, po, cells, n, n / outl, n % outl);
    }
  }

  lemma FinishedCells(src: seq<Byte>, inl: nat, out: seq<Byte>, outl: nat, c: nat, po: nat)
    requires 0 < inl && 0 < outl <= 8 && Copied(src, inl, out, outl, c, po)
    ensures po < outl && c < |out| && AllNarrow(out[..c + if po > 0 then 1 else 0], outl)
  {
    hide TopBit, StreamBit;
  }

  lemma Ceiling(n: nat, c: nat, r: nat, w: nat)
    requires n == c * w + r && r < w
    ensures CellCount(n, w) == c + if r > 0 then 1 else 0
  {
    if r > 0 {
      InCell(n - 1, c, w);
    } else if n > 0 {
      assert c > 0;
      assert (c - 1) * w == n - w;
      InCell(n - 1, c - 1, w);
    } else {
      SmallMultiple(c, w);
    }
  }

  lemma FinalBit(src: seq<Byte>, inl: nat, out: seq<Byte>, outl: nat, c: nat, po: nat, cells: nat, n: nat, j: nat,
                 t: nat)
    requires 0 < inl && 0 < outl <= 8 && Copied(src, inl, out, outl, c, po) && cells == c + if po > 0 then 1 else 0
    requires n < cells * outl && j == n / outl && t == n % outl && n == j * outl + t && t < outl
    ensures StreamBit(out[..cells], outl, n) == (n < c * outl + po && StreamBit(src, inl, n))
  {
    hide TopBit, Narrow;
    Compare(n, j, t, cells, 0, outl);
    Compare(n, j, t, c, po, outl);
    if n < c * outl + po {
      assert StreamBit(out, outl, n) == StreamBit(src, inl, n);
    }
  }

  /** Positions are ordered by cell, then by place in the cell. */
  lemma Compare(n: nat, j: nat, t: nat, c: nat, r: nat, w: nat)
    requires n == j * w + t && t < w && r < w
    ensures n < c * w + r <==> j < c || (j == c && t < r)
  {
    if j < c { MulMonotone(j + 1, c, w); }
    if j > c { MulMonotone(c + 1, j, w); }
  }

  // ---------- The alphabet ----------

  const B64_ALPHABET: string := "ABCDEFGHIJKLMNOPQRSTUVWXYZ" + "abcdefghijklmnopqrstuvwxyz" + "0123456789+/"

  /** Table 1 of RFC 4648. */
  function Letter(v: nat): char
    requires v < 64
  {
    if v < 26 then (65 + v) as char else if v < 52 then (71 + v) as char else if v < 62 then (v - 4) as char
    else if v == 62 then '+' else '/'
  }

  lemma Alphabet(v: nat)
    requires v < 64
    ensures |B64_ALPHABET| == 64 && B64_ALPHABET[v] == Letter(v)
  {
    if v < 26 { UpperCase(v); } else if v < 52 { LowerCase(v); } else { DigitsAndSigns(v); }
  }

  lemma UpperCase(v: nat)
    requires v < 26
    ensures |B64_ALPHABET| == 64 && B64_ALPHABET[v] == (65 + v) as char
  {
  }

  lemma LowerCase(v: nat)
    requires 26 <= v < 52
    ensures |B64_ALPHABET| == 64 && B64_ALPHABET[v] == (71 + v) as char
  {
  }

  lemma DigitsAndSigns(v: nat)
    requires 52 <= v < 64
    ensures |B64_ALPHABET| == 64 && B64_ALPHABET[v] == Letter(v)
  {
  }

  lemma LettersDiffer(v: nat, w: nat)
    requires v < 64 && w < 64 && Letter(v) == Letter(w)
    ensures v == w
  {
  }

  // ---------- Encoding ----------

  /** The bits of the j-th group, the lowest one first. */
  function GroupBits(src: seq<Byte>, j: nat): (s: seq<bool>)
    ensures |s| == 6 && forall i :: 0 <= i < 6 ==> s[i] == StreamBit(src, 8, 6 * j + (5 - i))
  {
    seq(6, i requires 0 <= i < 6 => StreamBit(src, 8, 6 * j + (5 - i)))
  }

  /** The j-th group of six bits of the input, with zeros beyond its end. */
  function SixBits(src: seq<Byte>, j: nat): (v: nat)
    ensures v < 64
  {
    Pow2Values();
    Value(GroupBits(src, j))
  }

  /** The text that encodes the input: letters for its groups of six bits, and padding to a multiple of four. */
  ghost predicate Encodes(text: seq<char>, src: seq<Byte>) {
    && |text| == (|src| + 2) / 3 * 4
    && (forall j :: 0 <= j < |text| ==> text[j] == if j < CellCount(8 * |src|, 6) then Letter(SixBits(src, j)) else '=')
  }

  /** `base64_encode` */
  method Encode(src: seq<Byte>) returns (o: array<char>, olen: nat)
    requires src != []
    ensures fresh(o) && olen < o.Length && Encodes(o[..olen], src) && o[olen] == '\0'
  {
    hide SixBits, SameStream, Letter, StreamBit, Narrow;
    Widths(src);
    var s, cells := BitReinterpret(src, 8, 6);
    ghost var data := s[..cells];
    CellTotal(src, data);
    o := new char[(|src| + 2) / 3 * 4 + 1];
    for i := 0 to cells
      modifies o
      invariant s[..cells] == data && forall j :: 0 <= j < i ==> o[j] == Letter(SixBits(src, j))
    {
      CellLetter(src, data, i);
      o[i] := B64_ALPHABET[ShiftRight(s[i], 2)];
    }
    olen := cells;
    while olen * 6 / 24 != (|src| + 2) / 3
      modifies o
      invariant cells <= olen <= (|src| + 2) / 3 * 4
      invariant forall j :: 0 <= j < olen ==> o[j] == if j < cells then Letter(SixBits(src, j)) else '='
      decreases (|src| + 2) / 3 * 4 - olen
    {
      o[olen] := '=';
      olen := olen + 1;
    }
    o[olen] := '\0';
  }

  lemma Widths(src: seq<Byte>)
    ensures AllNarrow(src, 8)
  {
  }

  lemma CellTotal(src: seq<Byte>, cells: seq<Byte>)
    requires src != [] && SameStream(src, 8, cells, 6)
    ensures |cells| == CellCount(8 * |src|, 6) <= (|src| + 2) / 3 * 4
  {
  }

  /** A cell of six bits, shifted down, is the group of six bits. */
  lemma CellLetter(src: seq<Byte>, cells: seq<Byte>, j: nat)
    requires SameStream(src, 8, cells, 6) && j < |cells|
    ensures ShiftRight(cells[j], 2) == SixBits(src, j) && |B64_ALPHABET| == 64
    ensures B64_ALPHABET[ShiftRight(cells[j], 2)] == Letter(SixBits(src, j))
  {
    hide Letter, SameStream, StreamBit;
    var q := ShiftRight(cells[j], 2);
    Pow2Values();
    ShiftBound(cells[j], 2, 6);
    var bits := seq(6, i requires 0 <= i < 6 => StreamBit(src, 8, 6 * j + (5 - i)));
    forall i | 0 <= i < 6 ensures Low(q, 6)[i] == bits[i] {
      CellBit(src, cells, j, i);
    }
    assert Low(q, 6) == bits;
    ValueLow(q, 6);
    Digits(0, q, 64);
    Alphabet(q);
  }

  lemma CellBit(src: seq<Byte>, cells: seq<Byte>, j: nat, i: nat)
    requires SameStream(src, 8, cells, 6) && j < |cells| && i < 6
    ensures Low(ShiftRight(cells[j], 2), 6)[i] == StreamBit(src, 8, 6 * j + (5 - i))
  {
    hide Narrow;
    var n := 6 * j + (5 - i);
    LowBit(ShiftRight(cells[j], 2), 6, i);
    BitShiftRight(cells[j], 2, i);
    InCell(n, j, 6);
    assert StreamBit(cells, 6, n) == TopBit(cells[j], 5 - i);
  }

  // ---------- Decoding ----------

  /** `strchr(B64_ALPHABET, c) - B64_ALPHABET` */
  method IndexOf(c: char, ghost v: nat) returns (i: nat)
    requires v < 64 && c == Letter(v)
    ensures i == v
  {
    hide Letter;
    i := 0;
    Alphabet(v);
    while B64_ALPHABET[i] != c
      invariant i <= v && |B64_ALPHABET| == 64
      decreases v - i
    {
      i := i + 1;
    }
    Alphabet(i);
    LettersDiffer(i, v);
  }

  /** The text is letters for the given values, followed by some padding. */
  ghost predicate Spells(text: seq<char>, values: seq<nat>) {
    && |values| <= |text|
    && (forall j :: 0 <= j < |values| ==> values[j] < 64 && text[j] == Letter(values[j]))
    && (forall j :: |values| <= j < |text| ==> text[j] == '=')
  }

  /** The values in the upper bits of bytes. */
  function Shifted(values: seq<nat>): (cells: seq<Byte>)
    requires forall j :: 0 <= j < |values| ==> values[j] < 64
    ensures |cells| == |values|
  {
    seq(|values|, j requires 0 <= j < |values| => values[j] * 4)
  }

  /** `base64_decode`: the bits of the letters in cells of eight; the length returned is less by the amount of
      padding. */
  method Decode(src: array<char>, ghost values: seq<nat>) returns (s: array<Byte>, len: int)
    requires values != [] && Spells(src[..], values)
    ensures fresh(s) && CellCount(6 * |values|, 8) <= s.Length &&
      SameStream(Shifted(values), 6, s[..CellCount(6 * |values|, 8)], 8)
    ensures len == CellCount(6 * |values|, 8) - (src.Length - |values|)
  {
    hide Letter, SameStream;
    var slen: nat, lenOff: nat := src.Length, 0;
    while slen > 0 && src[slen - 1] == '='
      invariant |values| <= slen <= src.Length && lenOff == src.Length - slen
    {
      if slen == |values| { Alphabet(values[slen - 1]); NoPadding(values[slen - 1]); }
      slen := slen - 1;
      lenOff := lenOff + 1;
    }
    var cells := new Byte[slen];
    for i := 0 to slen
      invariant slen == |values| && forall j :: 0 <= j < i ==> cells[j] == values[j] * 4
    {
      var v := IndexOf(src[i], values[i]);
      cells[i] := v * 4;
    }
    assert cells[..] == Shifted(values);
    ShiftedNarrow(values);
    var outlen: nat;
    s, outlen := BitReinterpret(cells[..], 6, 8);
    CellsOf(Shifted(values), 6, s[..outlen], 8);
    len := outlen as int - lenOff as int;
  }

  lemma NoPadding(v: nat)
    requires v < 64
    ensures Letter(v) != '='
  {
  }

  lemma CellsOf(src: seq<Byte>, inl: nat, out: seq<Byte>, outl: nat)
    requires inl > 0 && outl > 0 && SameStream(src, inl, out, outl)
    ensures |out| == CellCount(|src| * inl, outl)
  {
  }

  /** Four times a number has its bits two places up. */
  lemma ShiftedNarrow(values: seq<nat>)
    requires forall j :: 0 <= j < |values| ==> values[j] < 64
    ensures AllNarrow(Shifted(values), 6)
  {
    forall j | 0 <= j < |values| ensures Narrow(Shifted(values)[j], 6) {
      ShiftedBits(values[j]);
    }
  }

  lemma ShiftedBits(v: nat)
    requires v < 64
    ensures Narrow(v * 4, 6) && forall t :: 0 <= t < 6 ==> TopBit(v * 4, t) == Bit(v, 5 - t)
  {
    Pow2Values();
    assert v * 4 == ShiftLeft(v, 2);
    forall t | 0 <= t < 8 ensures TopBit(v * 4, t) == (t < 6 && Bit(v, 5 - t)) {
      BitShiftLeft(v, 2, 7 - t);
    }
  }

  // ---------- Round trip ----------

  /** The values of the letters that encode the input. */
  function Values(src: seq<Byte>): (v: seq<nat>)
    ensures |v| == CellCount(8 * |src|, 6) && forall j :: 0 <= j < |v| ==> v[j] == SixBits(src, j) < 64
  {
    seq(CellCount(8 * |src|, 6), j requires 0 <= j => SixBits(src, j))
  }

  lemma EncodedSpells(text: seq<char>, src: seq<Byte>)
    requires Encodes(text, src)
    ensures Spells(text, Values(src))
  {
  }

  /** How many cells of eight bits n bytes become on the way through cells of six. */
  lemma DecodedLength(n: nat)
    ensures CellCount(6 * CellCount(8 * n, 6), 8) >= n
    ensures CellCount(6 * CellCount(8 * n, 6), 8) - ((n + 2) / 3 * 4 - CellCount(8 * n, 6)) == n <==>
      n % 3 != 1 || n == 0
  {
    var q, r := n / 3, n % 3;
    if n > 0 {
      assert CellCount(8 * n, 6) == 4 * q + if r == 0 then 0 else r + 1;
      assert CellCount(6 * CellCount(8 * n, 6), 8) == 3 * q + if r == 0 then 0 else r + 1;
    }
  }

  /** Decoding an encoded text gives the bytes that were encoded, but the length is theirs exactly when
      their number does not leave a remainder of one modulo three. */
  lemma RoundTrip(src: seq<Byte>, text: seq<char>, out: seq<Byte>)
    requires src != [] && Encodes(text, src) && SameStream(Shifted(Values(src)), 6, out, 8)
    ensures src <= out
    ensures |out| - (|text| - |Values(src)|) == |src| <==> |src| % 3 != 1
  {
    hide StreamBit, SixBits, Letter;
    var cells := Shifted(Values(src));
    DecodedLength(|src|);
    forall i | 0 <= i < |src| ensures out[i] == src[i] {
      hide Values, Encodes;
      SameByte(src, cells, out, i);
    }
  }

  /** `base64_decode` after `base64_encode` */
  method EncodeDecode(src: seq<Byte>) returns (out: array<Byte>, len: int)
    requires src != []
    ensures src <= out[..] && (len == |src| <==> |src| % 3 != 1)
  {
    hide Encodes, Spells, SameStream, SixBits, Values, Shifted;
    var o, olen := Encode(src);
    ghost var sent := o[..olen];
    EncodedSpells(sent, src);
    var text := new char[olen](i requires 0 <= i < olen && olen <= o.Length reads o => o[i]);
    assert text[..] == sent;
    out, len := Decode(text, Values(src));
    ghost var cells := out[..CellCount(6 * |Values(src)|, 8)];
    RoundTrip(src, sent, cells);
    assert cells <= out[..];
  }

  lemma SameByte(src: seq<Byte>, cells: seq<Byte>, out: seq<Byte>, i: nat)
    requires src != [] && cells == Shifted(Values(src)) && SameStream(cells, 6, out, 8) && i < |src| && i < |out|
    ensures out[i] == src[i]
  {
    hide SameStream, Values, Shifted, Narrow;
    forall b | 0 <= b < 8 ensures Bit(out[i], b) == Bit(src[i], b) {
      CarriedBit(src, cells, out, 8 * i + (7 - b));
      InCell(8 * i + (7 - b), i, 8);
    }
    Pow2Values();
    SameBits(out[i], src[i], 8);
  }

  lemma CarriedBit(src: seq<Byte>, cells: seq<Byte>, out: seq<Byte>, n: nat)
    requires src != [] && cells == Shifted(Values(src)) && SameStream(cells, 6, out, 8) && n < 8 * |src| &&
      n < 8 * |out|
    ensures StreamBit(out, 8, n) == StreamBit(src, 8, n)
  {
    hide SixBits, Narrow;
    var j, t := n / 6, n % 6;
    assert n < 6 * |cells|;
    assert StreamBit(out, 8, n) == StreamBit(cells, 6, n);
    ShiftedBits(SixBits(src, j));
    SixBit(src, j, 5 - t);
  }

  lemma SixBit(src: seq<Byte>, j: nat, i: nat)
    requires i < 6
    ensures Bit(SixBits(src, j), i) == StreamBit(src, 8, 6 * j + (5 - i))
  {
    hide StreamBit, Value, Bit, Low;
    LowValue(GroupBits(src, j));
    LowBit(SixBits(src, j), 6, i);
  }
}
