/** The meaning of DEFLATE streams (RFC 1951): what the blocks of a stream denote, and how they are written as bits. */
module Deflate {
  import opened Arithmetic
  import opened Bits
  import opened CanonicalCode

  // ---------- Literals and copies (section 3.2.5) ----------

  /** A literal byte, or the length and distance symbols of a copy with the values of their extra bits. */
  datatype Token =
    | Literal(byte: Byte)
    | Copy(length: nat, lengthExtra: nat, distance: nat, distanceExtra: nat)

  function LengthBits(z: nat): nat {
    if z < 8 || z >= 28 then 0 else (z - 4) / 4
  }

  /** Each length symbol takes over where the range of the one before it ends; the last one stands for 258 alone. The
      reserved symbols behind it, 286 and 287, are taken for copies of nothing. */
  function LengthBase(z: nat): nat {
    if z > 28 then 0 else if z == 28 then 258 else if z == 0 then 3
    else LengthBase(z - 1) + Pow2(LengthBits(z - 1))
  }

  function DistanceBits(z: nat): nat {
    if z < 4 then 0 else z / 2 - 1
  }

  function DistanceBase(z: nat): (d: nat)
    ensures d > 0
  {
    if z == 0 then 1 else DistanceBase(z - 1) + Pow2(DistanceBits(z - 1))
  }

  function CopyLength(t: Token): nat
    requires t.Copy?
  {
    LengthBase(t.length) + t.lengthExtra
  }

  function CopyDistance(t: Token): (d: nat)
    requires t.Copy?
    ensures d > 0
  {
    DistanceBase(t.distance) + t.distanceExtra
  }

  const END_OF_BLOCK := 256

  predicate Used(lens: Lengths, i: nat) {
    i < |lens| && lens[i] > 0
  }

  /** A token may follow n bytes of output: its symbols have codes, its extra values fit and it does not reach too far
      back. */
  predicate TokenFits(t: Token, n: nat, lits: Lengths, dists: Lengths) {
    match t
    case Literal(b) => Used(lits, b)
    case Copy(l, le, d, de) =>
      && l < 31 && Used(lits, 257 + l) && le < Pow2(LengthBits(l))
      && d < 30 && Used(dists, d) && de < Pow2(DistanceBits(d)) && CopyDistance(t) <= n
  }

  function TokenLength(t: Token): nat {
    if t.Literal? then 1 else CopyLength(t)
  }

  function TokensLength(ts: seq<Token>): nat {
    if ts == [] then 0 else TokenLength(ts[0]) + TokensLength(ts[1..])
  }

  predicate TokensFit(ts: seq<Token>, n: nat, lits: Lengths, dists: Lengths) {
    ts == [] || (TokenFits(ts[0], n, lits, dists) && TokensFit(ts[1..], n + TokenLength(ts[0]), lits, dists))
  }

  function TokenBits(t: Token, n: nat, lits: Lengths, dists: Lengths): seq<bool>
    requires TokenFits(t, n, lits, dists)
  {
    match t
    case Literal(b) => Code(lits, b)
    case Copy(l, _, _, _) => Code(lits, 257 + l) + CopyRest(t, dists)
  }

  /** The bits of a copy after its length symbol. */
  function CopyRest(t: Token, dists: Lengths): seq<bool>
    requires t.Copy? && Used(dists, t.distance)
  {
    Low(t.lengthExtra, LengthBits(t.length)) + (Code(dists, t.distance) +
      Low(t.distanceExtra, DistanceBits(t.distance)))
  }

  /** The tokens, then the end-of-block symbol. */
  function TokensBits(ts: seq<Token>, n: nat, lits: Lengths, dists: Lengths): seq<bool>
    requires Used(lits, END_OF_BLOCK) && TokensFit(ts, n, lits, dists)
  {
    if ts == [] then Code(lits, END_OF_BLOCK)
    else TokenBits(ts[0], n, lits, dists) + TokensBits(ts[1..], n + TokenLength(ts[0]), lits, dists)
  }

  /** Appends n bytes, each equal to the one a fixed distance before it. */
  function Repeated(out: seq<Byte>, distance: nat, n: nat): (r: seq<Byte>)
    requires 0 < distance <= |out|
    ensures |r| == |out| + n
    decreases n
  {
    if n == 0 then out else Repeated(out + [out[|out| - distance]], distance, n - 1)
  }

  function Apply(out: seq<Byte>, t: Token): (r: seq<Byte>)
    requires t.Copy? ==> CopyDistance(t) <= |out|
    ensures |r| == |out| + TokenLength(t)
  {
    match t
    case Literal(b) => out + [b]
    case Copy(_, _, _, _) => Repeated(out, CopyDistance(t), CopyLength(t))
  }

  function ApplyAll(out: seq<Byte>, ts: seq<Token>, lits: Lengths, dists: Lengths): (r: seq<Byte>)
    requires TokensFit(ts, |out|, lits, dists)
    ensures |r| == |out| + TokensLength(ts)
    decreases |ts|
  {
    if ts == [] then out else ApplyAll(Apply(out, ts[0]), ts[1..], lits, dists)
  }

  /** What the copy rule of section 3.2.3 says of every byte. */
  lemma {:induction false} RepeatedAt(out: seq<Byte>, distance: nat, n: nat, i: nat)
    requires 0 < distance <= |out| && i < |out| + n
    ensures Repeated(out, distance, n)[i] == if i < |out| then out[i] else Repeated(out, distance, n)[i - distance]
    decreases n
  {
    if n > 0 {
      var next := out + [out[|out| - distance]];
      RepeatedAt(next, distance, n - 1, i);
      if i == |out| {
        RepeatedAt(next, distance, n - 1, i - distance);
      }
    }
  }

  // ---------- Fixed codes (section 3.2.6) ----------

  function FixedLength(symbol: nat): (n: nat)
    ensures n < 16
  {
    if symbol < 144 then 8 else if symbol < 256 then 9 else if symbol < 280 then 7 else 8
  }

  function FixedLiterals(): (lens: Lengths)
    ensures |lens| == 288
  {
    seq(288, i requires 0 <= i => FixedLength(i))
  }

  function FixedDistances(): (lens: Lengths)
    ensures |lens| == 32
  {
    Run(32, 5)
  }

  /** The same length n times. */
  function Run(n: nat, length: nat): (r: Lengths)
    requires length < 16
    ensures |r| == n
  {
    seq(n, _ => length)
  }

  // ---------- Dynamic codes (section 3.2.7) ----------

  /** A code length, or one of the symbols 16, 17 and 18 with the value of its extra bits. */
  datatype Item = Single(length: nat) | Previous(extra: nat) | Zeros(extra: nat) | ManyZeros(extra: nat)

  /** The counts of codes above their minima, the lengths of the code length codes in the order of the stream, and the
      items. */
  datatype Header = Header(hlit: nat, hdist: nat, clens: seq<nat>, items: seq<Item>)

  /** The order of the code length codes in a header: the symbols for repeats, then length 0, then the other lengths
      from the middle outwards, first 8, then 7 and 9, then 6 and 10, to 1 and 15. */
  function OrderOf(i: nat): (symbol: nat)
    requires i < 19
    ensures symbol < 19
  {
    if i < 3 then 16 + i else if i == 3 then 0 else if i % 2 == 0 then 6 + i / 2 else 8 - (i - 3) / 2
  }

  /** Lengths that fit in 3 bits. */
  predicate Small(clens: seq<nat>) {
    forall i :: 0 <= i < |clens| ==> clens[i] < 8
  }

  /** The lengths of the 19 code length codes, when the first n of the stream are given. */
  function CodeLengthLengths(clens: seq<nat>, n: nat): (r: seq<nat>)
    requires n <= |clens| <= 19
    ensures |r| == 19
    ensures Small(clens) ==> Small(r)
  {
    if n == 0 then seq(19, _ => 0) else
      CodeLengthLengths(clens, n - 1)[OrderOf(n - 1) := clens[n - 1]]
  }

  /** Length i of the header belongs to the symbol that comes at place i; symbols without a place have no code. */
  lemma {:induction false} LengthPlaces(clens: seq<nat>, n: nat, i: nat)
    requires n <= |clens| <= 19 && i < 19
    ensures CodeLengthLengths(clens, n)[OrderOf(i)] == if i < n then clens[i] else 0
  {
    hide OrderOf;
    if n > 0 {
      LengthPlaces(clens, n - 1, i);
      if OrderOf(i) == OrderOf(n - 1) { SamePlaceInOrder(i, n - 1); }
    }
  }

  lemma SamePlaceInOrder(i: nat, j: nat)
    requires i < 19 && j < 19 && OrderOf(i) == OrderOf(j)
    ensures i == j
  {
  }

  function ItemSymbol(item: Item): nat {
    match item
    case Single(n) => n
    case Previous(_) => 16
    case Zeros(_) => 17
    case ManyZeros(_) => 18
  }

  function ItemExtra(item: Item): nat {
    match item
    case Single(_) => 0
    case Previous(_) => 2
    case Zeros(_) => 3
    case ManyZeros(_) => 7
  }

  function ItemCount(item: Item): (n: nat)
    ensures n > 0
  {
    match item
    case Single(_) => 1
    case Previous(e) => 3 + e
    case Zeros(e) => 3 + e
    case ManyZeros(e) => 11 + e
  }

  function ItemBits(item: Item, cl: Lengths): seq<bool>
    requires Used(cl, ItemSymbol(item))
  {
    Code(cl, ItemSymbol(item)) + if item.Single? then [] else Low(item.extra, ItemExtra(item))
  }

  /** An item may come after the given number of lengths. */
  predicate ItemFits(item: Item, n: nat, cl: Lengths) {
    && Used(cl, ItemSymbol(item))
    && (if item.Single? then item.length < 16 else item.extra < Pow2(ItemExtra(item)))
    && (item.Previous? ==> n > 0)
  }

  /** The length that an item appends. */
  function ItemFill(lens: Lengths, item: Item): (n: nat)
    requires item.Single? ==> item.length < 16
    requires item.Previous? ==> |lens| > 0
    ensures n < 16
  {
    if item.Single? then item.length else if item.Previous? then lens[|lens| - 1] else 0
  }

  function ApplyItem(lens: Lengths, item: Item): (r: Lengths)
    requires item.Single? ==> item.length < 16
    requires item.Previous? ==> |lens| > 0
    ensures |r| == |lens| + ItemCount(item)
  {
    lens + Run(ItemCount(item), ItemFill(lens, item))
  }

  predicate ItemsFit(items: seq<Item>, n: nat, cl: Lengths) {
    items == [] || (ItemFits(items[0], n, cl) && ItemsFit(items[1..], n + ItemCount(items[0]), cl))
  }

  function ItemsBits(items: seq<Item>, n: nat, cl: Lengths): seq<bool>
    requires ItemsFit(items, n, cl)
  {
    if items == [] then [] else ItemBits(items[0], cl) + ItemsBits(items[1..], n + ItemCount(items[0]), cl)
  }

  function ApplyItems(lens: Lengths, items: seq<Item>, cl: Lengths): (r: Lengths)
    requires ItemsFit(items, |lens|, cl)
    ensures |r| >= |lens| && (items != [] ==> |r| > |lens|)
    decreases |items|
  {
    if items == [] then lens else ApplyItems(ApplyItem(lens, items[0]), items[1..], cl)
  }

  function HeaderCode(h: Header): (cl: Lengths)
    requires |h.clens| <= 19 && Small(h.clens)
    ensures |cl| == 19
  {
    CodeLengthLengths(h.clens, |h.clens|)
  }

  /** The header is complete and describes codes that exist. */
  ghost predicate HeaderFits(h: Header) {
    && h.hlit < 32 && h.hdist < 32 && 4 <= |h.clens| <= 19 && Small(h.clens)
    && Accepted(HeaderCode(h)) && ItemsFit(h.items, 0, HeaderCode(h))
    && |ApplyItems([], h.items, HeaderCode(h))| == h.hlit + 257 + (h.hdist + 1)
    && Accepted(HeaderLiterals(h)) && Accepted(HeaderDistances(h))
  }

  function HeaderLengths(h: Header): Lengths
    requires |h.clens| <= 19 && Small(h.clens) && ItemsFit(h.items, 0, HeaderCode(h))
  {
    ApplyItems([], h.items, HeaderCode(h))
  }

  function HeaderLiterals(h: Header): Lengths
    requires |h.clens| <= 19 && Small(h.clens) && ItemsFit(h.items, 0, HeaderCode(h))
    requires |HeaderLengths(h)| >= h.hlit + 257
  {
    HeaderLengths(h)[..h.hlit + 257]
  }

  function HeaderDistances(h: Header): Lengths
    requires |h.clens| <= 19 && Small(h.clens) && ItemsFit(h.items, 0, HeaderCode(h))
    requires |HeaderLengths(h)| >= h.hlit + 257
  {
    HeaderLengths(h)[h.hlit + 257..]
  }

  /** The lengths of the code length codes, 3 bits each. */
  function ThreeBits(clens: seq<nat>): seq<bool> {
    if clens == [] then [] else Low(clens[0], 3) + ThreeBits(clens[1..])
  }

  function HeaderBits(h: Header): seq<bool>
    requires HeaderFits(h)
  {
    Low(h.hlit, 5) + (Low(h.hdist, 5) + (Low(|h.clens| - 4, 4) +
      (ThreeBits(h.clens) + ItemsBits(h.items, 0, HeaderCode(h)))))
  }

  // ---------- Blocks (section 3.2.3) ----------

  datatype Block =
    | Stored(padding: seq<bool>, data: seq<Byte>)
    | Fixed(tokens: seq<Token>)
    | Dynamic(header: Header, tokens: seq<Token>)

  function BlockType(b: Block): (t: nat)
    ensures t < 3
  {
    match b
    case Stored(_, _) => 0
    case Fixed(_) => 1
    case Dynamic(_, _) => 2
  }

  /** A block may come after n bytes of output. */
  ghost predicate BlockFits(b: Block, n: nat) {
    match b
    case Stored(padding, data) => |padding| < 8 && |data| < 0x10000
    case Fixed(ts) => CompressedFits(ts, n, FixedLiterals(), FixedDistances())
    case Dynamic(h, ts) => HeaderFits(h) && CompressedFits(ts, n, HeaderLiterals(h), HeaderDistances(h))
  }

  predicate CompressedFits(ts: seq<Token>, n: nat, lits: Lengths, dists: Lengths) {
    Used(lits, END_OF_BLOCK) && TokensFit(ts, n, lits, dists)
  }

  /** The length of a stored block, and its complement, in two bytes each. */
  function StoredHeader(n: nat): (s: seq<Byte>)
    requires n < 0x10000
    ensures |s| == 4
  {
    [n % 256, n / 256, (0xFFFF - n) % 256, (0xFFFF - n) / 256]
  }

  function BlockBody(b: Block, n: nat): seq<bool>
    requires BlockFits(b, n)
  {
    match b
    case Stored(padding, data) => padding + (ByteBits(StoredHeader(|data|)) + ByteBits(data))
    case Fixed(ts) => TokensBits(ts, n, FixedLiterals(), FixedDistances())
    case Dynamic(h, ts) => HeaderBits(h) + TokensBits(ts, n, HeaderLiterals(h), HeaderDistances(h))
  }

  function BlockBits(b: Block, final: bool, n: nat): (r: seq<bool>)
    requires BlockFits(b, n)
    ensures |r| == 3 + |BlockBody(b, n)|
  {
    Low(if final then 1 else 0, 1) + (Low(BlockType(b), 2) + BlockBody(b, n))
  }

  /** The number of bytes that a block denotes. */
  function BlockLength(b: Block): nat {
    match b
    case Stored(_, data) => |data|
    case Fixed(ts) => TokensLength(ts)
    case Dynamic(_, ts) => TokensLength(ts)
  }

  function ApplyBlock(out: seq<Byte>, b: Block): (r: seq<Byte>)
    requires BlockFits(b, |out|)
    ensures |r| == |out| + BlockLength(b)
  {
    match b
    case Stored(_, data) => out + data
    case Fixed(ts) => ApplyAll(out, ts, FixedLiterals(), FixedDistances())
    case Dynamic(h, ts) => ApplyAll(out, ts, HeaderLiterals(h), HeaderDistances(h))
  }

  ghost predicate BlocksFit(bs: seq<Block>, n: nat) {
    bs == [] || (BlockFits(bs[0], n) && BlocksFit(bs[1..], n + BlockLength(bs[0])))
  }

  function BlocksLength(bs: seq<Block>): nat {
    if bs == [] then 0 else BlockLength(bs[0]) + BlocksLength(bs[1..])
  }

  /** The bits of the blocks; the last one is marked final. */
  function BlocksBits(bs: seq<Block>, n: nat): seq<bool>
    requires BlocksFit(bs, n)
  {
    if bs == [] then [] else BlockBits(bs[0], |bs| == 1, n) + BlocksBits(bs[1..], n + BlockLength(bs[0]))
  }

  /** The stored data starts at a byte boundary, when the blocks start at the given bit offset. */
  ghost predicate Aligned(bs: seq<Block>, offset: nat, n: nat)
    requires BlocksFit(bs, n)
  {
    bs == [] || (
      && (bs[0].Stored? ==> (offset + 3 + |bs[0].padding|) % 8 == 0)
      && Aligned(bs[1..], offset + 3 + |BlockBody(bs[0], n)|, n + BlockLength(bs[0])))
  }

  /** The bytes that the blocks denote, after those in out. */
  function ApplyBlocks(out: seq<Byte>, bs: seq<Block>): (r: seq<Byte>)
    requires BlocksFit(bs, |out|)
    ensures |r| == |out| + BlocksLength(bs)
    decreases |bs|
  {
    if bs == [] then out else ApplyBlocks(ApplyBlock(out, bs[0]), bs[1..])
  }
}
