/** What any bits mean to a decoder of DEFLATE streams, with zeros behind their end: which codes, tokens and blocks are
    found at a position, and where reading fails. It finds exactly what RFC 1951 says was written there. */
module DeflateReading {
  import opened Arithmetic
  import opened Bits
  import opened CanonicalCode
  import opened Deflate
  import opened DeflateTables

  // ---------- Bits, numbers and symbols ----------

  function BitAt(all: seq<bool>, i: nat): bool {
    i < |all| && all[i]
  }

  function BitsAt(all: seq<bool>, p: nat, n: nat): (s: seq<bool>)
    ensures |s| == n && forall i :: 0 <= i < n ==> s[i] == BitAt(all, p + i)
  {
    seq(n, i requires 0 <= i => BitAt(all, p + i))
  }

  /** The bits e come at p. */
  predicate At(all: seq<bool>, p: nat, e: seq<bool>) {
    BitsAt(all, p, |e|) == e
  }

  function NumberAt(all: seq<bool>, p: nat, n: nat): (k: nat)
    ensures k < Pow2(n)
  {
    Value(BitsAt(all, p, n))
  }

  /** The symbol whose code comes at p, or -1. */
  ghost function NextSymbol(lens: Lengths, all: seq<bool>, p: nat): (z: int)
    ensures z < |lens| && (z >= 0 ==> lens[z] > 0)
  {
    if i: nat :| i < |lens| && Starts(lens, i, BitsAt(all, p, 16)) then i else -1
  }

  lemma BitsSplit(all: seq<bool>, p: nat, a: nat, b: nat)
    ensures BitsAt(all, p, a + b) == BitsAt(all, p, a) + BitsAt(all, p + a, b)
  {
  }

  lemma AtSplit(all: seq<bool>, p: nat, a: seq<bool>, b: seq<bool>)
    ensures At(all, p, a + b) <==> At(all, p, a) && At(all, p + |a|, b)
  {
    BitsSplit(all, p, |a|, |b|);
    var x, y := BitsAt(all, p, |a|), BitsAt(all, p + |a|, |b|);
    if x + y == a + b {
      assert (x + y)[..|a|] == x && (a + b)[..|a|] == a && (x + y)[|a|..] == y && (a + b)[|a|..] == b;
    }
  }

  /** A number comes at p exactly when it is the one read there. */
  lemma AtLow(all: seq<bool>, p: nat, v: nat, n: nat)
    requires v < Pow2(n)
    ensures At(all, p, Low(v, n)) <==> NumberAt(all, p, n) == v
  {
    ValueLow(v, n);
    Digits(0, v, Pow2(n));
    LowValue(BitsAt(all, p, n));
  }

  /** A code comes at p exactly when its symbol is the one read there. */
  lemma AtCode(lens: Lengths, all: seq<bool>, p: nat, i: nat)
    requires Accepted(lens) && Used(lens, i)
    ensures At(all, p, Code(lens, i)) <==> NextSymbol(lens, all, p) == i
  {
    hide Accepted, Code;
    var x := BitsAt(all, p, 16);
    CodeStartsAt(lens, all, p, i);
    if At(all, p, Code(lens, i)) {
      assert Starts(lens, i, x);
      UniqueStart(lens, i, NextSymbol(lens, all, p), x);
    }
  }

  lemma CodeStartsAt(lens: Lengths, all: seq<bool>, p: nat, i: nat)
    requires Used(lens, i)
    ensures Starts(lens, i, BitsAt(all, p, 16)) <==> At(all, p, Code(lens, i))
  {
    hide Code;
    var c := Code(lens, i);
    assert |c| == lens[i] <= 15;
    BitsSplit(all, p, |c|, 16 - |c|);
    var x := BitsAt(all, p, |c|);
    assert (x + BitsAt(all, p + |c|, 16 - |c|))[..|c|] == x;
  }

  // ---------- Compressed data ----------

  /** What one round finds: nothing that is a code, a symbol without a meaning, the end, or a token. */
  datatype Round = Bad | Odd | Stop(next: nat) | Go(token: Token, next: nat)

  ghost function RoundAt(lits: Lengths, dists: Lengths, all: seq<bool>, p: nat): Round {
    var z := NextSymbol(lits, all, p);
    if z < 0 then Bad
    else if z < 256 then Go(Literal(z), p + lits[z])
    else if z == END_OF_BLOCK then Stop(p + lits[z])
    else if z >= 257 + 31 then Odd
    else CopyAt(z - 257, dists, all, p + lits[z])
  }

  /** A copy, behind its length symbol. */
  ghost function CopyAt(l: nat, dists: Lengths, all: seq<bool>, p: nat): (r: Round)
    ensures !r.Stop?
  {
    var q := p + LengthBits(l);
    var d := NextSymbol(dists, all, q);
    if d < 0 then Bad
    else if d >= 30 then Odd
    else
      var r := q + dists[d];
      Go(Copy(l, NumberAt(all, p, LengthBits(l)), d, NumberAt(all, r, DistanceBits(d))), r + DistanceBits(d))
  }

  /** What comes out of reading: not known after so many rounds, without a meaning, an error, or the bytes written
      and the position behind what was read. */
  datatype Outcome = Going | Undefined | Fails | Ends(out: seq<Byte>, next: nat) {
    predicate Known() {
      Fails? || Ends?
    }
  }

  /** An output of n bytes has room; there is no bound if it is negative. */
  predicate Room(cap: int, n: nat) {
    cap < 0 || n <= cap
  }

  /** A token may follow n bytes of output: a copy does not reach back before them, and there is room. */
  predicate Fitting(t: Token, n: nat, cap: int) {
    (t.Copy? ==> CopyDistance(t) <= n) && Room(cap, n + TokenLength(t))
  }

  /** At most n rounds. */
  ghost function TokensRun(lits: Lengths, dists: Lengths, all: seq<bool>, p: nat, out: seq<Byte>, cap: int,
                           n: nat): Outcome
    decreases n
  {
    if n == 0 then Going
    else
      match RoundAt(lits, dists, all, p)
      case Bad => Fails
      case Odd => Undefined
      case Stop(q) => Ends(out, q)
      case Go(t, q) =>
        if Fitting(t, |out|, cap) then TokensRun(lits, dists, all, q, Apply(out, t), cap, n - 1) else Fails
  }

  /** More rounds change nothing once the result is known. */
  lemma {:induction false} TokensRunMore(lits: Lengths, dists: Lengths, all: seq<bool>, p: nat, out: seq<Byte>,
                                         cap: int, n: nat, m: nat)
    requires n <= m && !TokensRun(lits, dists, all, p, out, cap, n).Going?
    ensures TokensRun(lits, dists, all, p, out, cap, m) == TokensRun(lits, dists, all, p, out, cap, n)
    decreases n
  {
    hide RoundAt, Apply;
    match RoundAt(lits, dists, all, p)
    case Go(t, q) =>
      if Fitting(t, |out|, cap) {
        TokensRunMore(lits, dists, all, q, Apply(out, t), cap, n - 1, m - 1);
      }
    case _ =>
  }

  /** A token that was written is found. */
  lemma TokenFound(lits: Lengths, dists: Lengths, all: seq<bool>, p: nat, t: Token, n: nat)
    requires Accepted(lits) && Accepted(dists) && TokenFits(t, n, lits, dists)
    requires At(all, p, TokenBits(t, n, lits, dists))
    ensures RoundAt(lits, dists, all, p) == Go(t, p + |TokenBits(t, n, lits, dists)|)
  {
    hide At, Code, Accepted, NextSymbol, CopyAt, CopyRest;
    match t
    case Literal(b) =>
      AtCode(lits, all, p, b);
    case Copy(l, _, _, _) =>
      AtSplit(all, p, Code(lits, 257 + l), CopyRest(t, dists));
      AtCode(lits, all, p, 257 + l);
      CopyFound(dists, all, p + lits[257 + l], t);
  }

  lemma CopyFound(dists: Lengths, all: seq<bool>, p: nat, t: Token)
    requires Accepted(dists) && t.Copy? && t.distance < 30 && Used(dists, t.distance)
    requires t.lengthExtra < Pow2(LengthBits(t.length)) && t.distanceExtra < Pow2(DistanceBits(t.distance))
    ensures At(all, p, CopyRest(t, dists)) <==> CopyAt(t.length, dists, all, p) == Go(t, p + |CopyRest(t, dists)|)
  {
    hide At, Code, Accepted, Low, NextSymbol, NumberAt, LengthBits, DistanceBits, CopyRest, Pow2;
    CopyParts(dists, all, p, t);
    var q := p + LengthBits(t.length);
    AtLow(all, p, t.lengthExtra, LengthBits(t.length));
    AtCode(dists, all, q, t.distance);
    AtLow(all, q + dists[t.distance], t.distanceExtra, DistanceBits(t.distance));
  }

  /** The parts of a copy behind its length symbol. */
  lemma CopyParts(dists: Lengths, all: seq<bool>, p: nat, t: Token)
    requires t.Copy? && Used(dists, t.distance)
    ensures At(all, p, CopyRest(t, dists)) <==>
      && At(all, p, Low(t.lengthExtra, LengthBits(t.length)))
      && At(all, p + LengthBits(t.length), Code(dists, t.distance))
      && At(all, p + LengthBits(t.length) + dists[t.distance], Low(t.distanceExtra, DistanceBits(t.distance)))
    ensures |CopyRest(t, dists)| == LengthBits(t.length) + dists[t.distance] + DistanceBits(t.distance)
  {
    hide At, Code, Low;
    var a, b, c := Low(t.lengthExtra, LengthBits(t.length)), Code(dists, t.distance),
      Low(t.distanceExtra, DistanceBits(t.distance));
    AtSplit(all, p, a, b + c);
    AtSplit(all, p + |a|, b, c);
  }

  /** A token that is found was written, if it does not reach too far back. */
  lemma FoundToken(lits: Lengths, dists: Lengths, all: seq<bool>, p: nat, n: nat)
    requires Accepted(lits) && Accepted(dists) && RoundAt(lits, dists, all, p).Go?
    ensures var t := RoundAt(lits, dists, all, p).token;
      (t.Copy? ==> CopyDistance(t) <= n) ==>
        && TokenFits(t, n, lits, dists) && At(all, p, TokenBits(t, n, lits, dists))
        && RoundAt(lits, dists, all, p).next == p + |TokenBits(t, n, lits, dists)|
  {
    hide At, Code, Accepted, NextSymbol, CopyAt, CopyRest, CopyDistance, LengthBits, DistanceBits;
    var t := RoundAt(lits, dists, all, p).token;
    var z := NextSymbol(lits, all, p);
    AtCode(lits, all, p, z);
    if z >= 257 {
      FoundCopy(z - 257, dists, all, p + lits[z]);
      CopyFound(dists, all, p + lits[z], t);
      AtSplit(all, p, Code(lits, z), CopyRest(t, dists));
    }
  }

  lemma FoundCopy(l: nat, dists: Lengths, all: seq<bool>, p: nat)
    requires CopyAt(l, dists, all, p).Go?
    ensures var t := CopyAt(l, dists, all, p).token;
      && t.Copy? && t.length == l && t.distance < 30 && Used(dists, t.distance)
      && t.lengthExtra < Pow2(LengthBits(l)) && t.distanceExtra < Pow2(DistanceBits(t.distance))
      && CopyAt(l, dists, all, p).next == p + |CopyRest(t, dists)|
  {
    hide NextSymbol, NumberAt, Code, Low, LengthBits, DistanceBits;
  }

  /** The end code is found exactly where it was written. */
  lemma EndFound(lits: Lengths, dists: Lengths, all: seq<bool>, p: nat)
    requires Accepted(lits)
    ensures RoundAt(lits, dists, all, p).Stop? <==> Used(lits, END_OF_BLOCK) && At(all, p, Code(lits, END_OF_BLOCK))
    ensures RoundAt(lits, dists, all, p).Stop? ==> RoundAt(lits, dists, all, p).next == p + lits[END_OF_BLOCK]
  {
    hide At, Code, Accepted, NextSymbol;
    if Used(lits, END_OF_BLOCK) { AtCode(lits, all, p, END_OF_BLOCK); }
  }

  /** Tokens that were written give what they denote, if it has room. */
  lemma {:induction false} TokensFound(lits: Lengths, dists: Lengths, all: seq<bool>, p: nat, out: seq<Byte>, cap: int,
                                       n: nat, ts: seq<Token>)
    requires Accepted(lits) && Accepted(dists) && CompressedFits(ts, |out|, lits, dists) && n > |ts|
    requires At(all, p, TokensBits(ts, |out|, lits, dists)) && Room(cap, |out|)
    ensures TokensRun(lits, dists, all, p, out, cap, n) ==
      if Room(cap, |out| + TokensLength(ts))
      then Ends(ApplyAll(out, ts, lits, dists), p + |TokensBits(ts, |out|, lits, dists)|) else Fails
    decreases |ts|
  {
    hide At, Code, Accepted, RoundAt, Apply, TokenBits;
    if ts == [] {
      EndFound(lits, dists, all, p);
    } else {
      var t, rest := ts[0], TokensBits(ts[1..], |out| + TokenLength(ts[0]), lits, dists);
      AtSplit(all, p, TokenBits(t, |out|, lits, dists), rest);
      TokenFound(lits, dists, all, p, t, |out|);
      if Room(cap, |out| + TokenLength(t)) {
        TokensFound(lits, dists, all, p + |TokenBits(t, |out|, lits, dists)|, Apply(out, t), cap, n - 1, ts[1..]);
      }
    }
  }

  /** Output that ends comes from tokens that were written. */
  lemma {:induction false} FoundTokens(lits: Lengths, dists: Lengths, all: seq<bool>, p: nat, out: seq<Byte>, cap: int,
                                       n: nat)
    returns (ts: seq<Token>)
    requires Accepted(lits) && Accepted(dists) && TokensRun(lits, dists, all, p, out, cap, n).Ends?
    ensures CompressedFits(ts, |out|, lits, dists) && At(all, p, TokensBits(ts, |out|, lits, dists))
    ensures TokensRun(lits, dists, all, p, out, cap, n) ==
      Ends(ApplyAll(out, ts, lits, dists), p + |TokensBits(ts, |out|, lits, dists)|)
    decreases n
  {
    hide At, Code, Accepted, RoundAt, Apply, TokenBits;
    match RoundAt(lits, dists, all, p)
    case Stop(q) =>
      EndFound(lits, dists, all, p);
      ts := [];
    case Go(t, q) =>
      FoundToken(lits, dists, all, p, |out|);
      var more := FoundTokens(lits, dists, all, q, Apply(out, t), cap, n - 1);
      ts := [t] + more;
      assert ts[1..] == more;
      AtSplit(all, p, TokenBits(t, |out|, lits, dists), TokensBits(more, |out| + TokenLength(t), lits, dists));
  }

  // ---------- The header of a dynamic block ----------

  datatype Reading<T> = Wrong | Read(value: T, next: nat)

  /** The item of a code length symbol with the value of its extra bits. */
  function ItemOf(c: nat, extra: nat): (item: Item)
    requires c < 19
    ensures ItemSymbol(item) == c
  {
    if c < 16 then Single(c) else if c == 16 then Previous(extra) else if c == 17 then Zeros(extra)
    else ManyZeros(extra)
  }

  ghost function ItemAt(cl: Lengths, all: seq<bool>, p: nat): (r: Reading<Item>)
    requires |cl| == 19
    ensures r.Read? && r.value.Single? ==> r.value.length < 16
  {
    var c := NextSymbol(cl, all, p);
    if c < 0 then Wrong
    else
      var q, n := p + cl[c], ItemExtra(ItemOf(c, 0));
      Read(ItemOf(c, NumberAt(all, q, n)), q + n)
  }

  /** Items up to exactly the wanted number of lengths. */
  ghost function LengthsAt(cl: Lengths, all: seq<bool>, p: nat, lens: Lengths, total: nat): (r: Reading<Lengths>)
    requires |cl| == 19 && |lens| <= total
    ensures r.Read? ==> |r.value| == total
    decreases total - |lens|
  {
    if |lens| == total then Read(lens, p)
    else
      match ItemAt(cl, all, p)
      case Wrong => Wrong
      case Read(item, q) =>
        if (item.Previous? && lens == []) || |lens| + ItemCount(item) > total then Wrong
        else LengthsAt(cl, all, q, ApplyItem(lens, item), total)
  }

  /** Numbers of three bits. */
  function ThreesAt(all: seq<bool>, p: nat, n: nat): (s: seq<nat>)
    ensures |s| == n && Small(s)
  {
    assert Pow2(3) == 8;
    seq(n, i requires 0 <= i => NumberAt(all, p + 3 * i, 3))
  }

  datatype Codes = Codes(lits: Lengths, dists: Lengths)

  /** How many literal and length codes the header at p announces. */
  function LiteralCount(all: seq<bool>, p: nat): nat {
    NumberAt(all, p, 5) + 257
  }

  function DistanceCount(all: seq<bool>, p: nat): nat {
    NumberAt(all, p + 5, 5) + 1
  }

  function LengthCount(all: seq<bool>, p: nat): (n: nat)
    ensures 4 <= n < 20
  {
    Pow2Values();
    NumberAt(all, p + 10, 4) + 4
  }

  /** The code of the code lengths. */
  function LengthCode(all: seq<bool>, p: nat): (cl: Lengths)
    ensures |cl| == 19
  {
    var n := LengthCount(all, p);
    CodeLengthLengths(ThreesAt(all, p + 14, n), n)
  }

  /** The lengths of both codes. */
  ghost function BothAt(all: seq<bool>, p: nat): (r: Reading<Lengths>)
    ensures r.Read? ==> |r.value| == LiteralCount(all, p) + DistanceCount(all, p)
  {
    if Accepted(LengthCode(all, p)) then
      LengthsAt(LengthCode(all, p), all, p + 14 + 3 * LengthCount(all, p), [],
        LiteralCount(all, p) + DistanceCount(all, p))
    else Wrong
  }

  /** The two codes that a header describes. */
  ghost function HeaderAt(all: seq<bool>, p: nat): (r: Reading<Codes>)
    ensures r.Read? ==> Accepted(r.value.lits) && Accepted(r.value.dists)
    ensures r.Read? ==> |r.value.lits| <= 288 && |r.value.dists| <= 32
  {
    Pow2Values();
    match BothAt(all, p)
    case Wrong => Wrong
    case Read(lens, q) =>
      var lits, dists := lens[..LiteralCount(all, p)], lens[LiteralCount(all, p)..];
      if Accepted(lits) && Accepted(dists) then Read(Codes(lits, dists), q) else Wrong
  }

  lemma ItemThere(cl: Lengths, all: seq<bool>, p: nat, item: Item, n: nat)
    requires Accepted(cl) && |cl| == 19 && ItemFits(item, n, cl)
    ensures At(all, p, ItemBits(item, cl)) <==> ItemAt(cl, all, p) == Read(item, p + |ItemBits(item, cl)|)
  {
    hide At, Code, Accepted, Low, NextSymbol;
    var c, k := ItemSymbol(item), ItemExtra(item);
    AtCode(cl, all, p, c);
    if !item.Single? {
      AtSplit(all, p, Code(cl, c), Low(item.extra, k));
      AtLow(all, p + cl[c], item.extra, k);
    } else {
      assert Code(cl, c) + [] == Code(cl, c);
    }
  }

  lemma FoundItem(cl: Lengths, all: seq<bool>, p: nat, n: nat)
    requires Accepted(cl) && |cl| == 19 && ItemAt(cl, all, p).Read?
    ensures var item := ItemAt(cl, all, p).value;
      (item.Previous? ==> n > 0) ==>
        && ItemFits(item, n, cl) && At(all, p, ItemBits(item, cl))
        && ItemAt(cl, all, p).next == p + |ItemBits(item, cl)|
  {
    hide At, Code, Accepted, Low, NextSymbol, ItemBits;
    var item := ItemAt(cl, all, p).value;
    if item.Previous? ==> n > 0 {
      ItemLength(item, cl);
      ItemThere(cl, all, p, item, n);
    }
  }

  lemma ItemLength(item: Item, cl: Lengths)
    requires Used(cl, ItemSymbol(item))
    ensures |ItemBits(item, cl)| == cl[ItemSymbol(item)] + ItemExtra(item)
  {
  }

  lemma {:induction false} ItemsFound(cl: Lengths, all: seq<bool>, p: nat, lens: Lengths, items: seq<Item>, total: nat)
    requires Accepted(cl) && |cl| == 19 && ItemsFit(items, |lens|, cl) && |ApplyItems(lens, items, cl)| == total
    requires At(all, p, ItemsBits(items, |lens|, cl))
    ensures LengthsAt(cl, all, p, lens, total) ==
      Read(ApplyItems(lens, items, cl), p + |ItemsBits(items, |lens|, cl)|)
    decreases |items|
  {
    hide At, Code, Accepted, ItemAt, ItemBits, Run;
    if items != [] {
      var item, more := items[0], ItemsBits(items[1..], |lens| + ItemCount(items[0]), cl);
      AtSplit(all, p, ItemBits(item, cl), more);
      ItemThere(cl, all, p, item, |lens|);
      ItemsFound(cl, all, p + |ItemBits(item, cl)|, ApplyItem(lens, item), items[1..], total);
    }
  }

  lemma {:induction false} FoundItems(cl: Lengths, all: seq<bool>, p: nat, lens: Lengths, total: nat)
    returns (items: seq<Item>)
    requires Accepted(cl) && |cl| == 19 && |lens| <= total && LengthsAt(cl, all, p, lens, total).Read?
    ensures ItemsFit(items, |lens|, cl) && At(all, p, ItemsBits(items, |lens|, cl))
    ensures LengthsAt(cl, all, p, lens, total) ==
      Read(ApplyItems(lens, items, cl), p + |ItemsBits(items, |lens|, cl)|)
    decreases total - |lens|
  {
    hide At, Code, Accepted, ItemAt, ItemBits, Run;
    if |lens| == total {
      items := [];
      NothingAt(all, p);
    } else {
      var item, q := ItemAt(cl, all, p).value, ItemAt(cl, all, p).next;
      FoundItem(cl, all, p, |lens|);
      var more := FoundItems(cl, all, q, ApplyItem(lens, item), total);
      items := [item] + more;
      assert items[1..] == more;
      AtSplit(all, p, ItemBits(item, cl), ItemsBits(more, |lens| + ItemCount(item), cl));
    }
  }

  lemma NothingAt(all: seq<bool>, p: nat)
    ensures At(all, p, [])
  {
  }

  lemma {:induction false} ThreesThere(all: seq<bool>, p: nat, clens: seq<nat>)
    requires Small(clens)
    ensures At(all, p, ThreeBits(clens)) <==> ThreesAt(all, p, |clens|) == clens
    ensures |ThreeBits(clens)| == 3 * |clens|
    decreases |clens|
  {
    hide At, Low, NumberAt, ThreesAt;
    if clens == [] {
      NothingAt(all, p);
    } else {
      assert Pow2(3) == 8;
      ThreesThere(all, p + 3, clens[1..]);
      AtSplit(all, p, Low(clens[0], 3), ThreeBits(clens[1..]));
      AtLow(all, p, clens[0], 3);
      ThreesHead(all, p, |clens|);
      SameHead(NumberAt(all, p, 3), ThreesAt(all, p + 3, |clens| - 1), clens);
    }
  }

  lemma ThreesHead(all: seq<bool>, p: nat, n: nat)
    requires n > 0
    ensures ThreesAt(all, p, n) == [NumberAt(all, p, 3)] + ThreesAt(all, p + 3, n - 1)
  {
    hide NumberAt;
    var a, b := ThreesAt(all, p, n), ThreesAt(all, p + 3, n - 1);
    forall i | 0 <= i < n ensures a[i] == ([NumberAt(all, p, 3)] + b)[i] {
      if i > 0 { assert p + 3 + 3 * (i - 1) == p + 3 * i; }
    }
  }

  lemma SameHead<T>(x: T, s: seq<T>, t: seq<T>)
    requires t != []
    ensures [x] + s == t <==> x == t[0] && s == t[1..]
  {
    if [x] + s == t {
      assert ([x] + s)[1..] == s;
    }
  }

  /** The fields of a header that was written. */
  lemma HeaderParts(h: Header, all: seq<bool>, p: nat)
    requires HeaderFits(h)
    ensures At(all, p, HeaderBits(h)) <==>
      && At(all, p, Low(h.hlit, 5)) && At(all, p + 5, Low(h.hdist, 5)) && At(all, p + 10, Low(|h.clens| - 4, 4))
      && At(all, p + 14, ThreeBits(h.clens))
      && At(all, p + 14 + 3 * |h.clens|, ItemsBits(h.items, 0, HeaderCode(h)))
    ensures |HeaderBits(h)| == 14 + 3 * |h.clens| + |ItemsBits(h.items, 0, HeaderCode(h))|
  {
    hide At, Low, ThreeBits, ItemsBits, Accepted, ItemsFit, ApplyItems;
    var a, b, c, d, e := Low(h.hlit, 5), Low(h.hdist, 5), Low(|h.clens| - 4, 4), ThreeBits(h.clens),
      ItemsBits(h.items, 0, HeaderCode(h));
    ThreesThere(all, p + 14, h.clens);
    AtSplit(all, p, a, b + (c + (d + e)));
    AtSplit(all, p + 5, b, c + (d + e));
    AtSplit(all, p + 10, c, d + e);
    AtSplit(all, p + 14, d, e);
  }

  /** The numbers of a header that was written are those that are read. */
  lemma HeaderNumbers(h: Header, all: seq<bool>, p: nat)
    requires h.hlit < 32 && h.hdist < 32 && 4 <= |h.clens| <= 19 && Small(h.clens)
    ensures
      && At(all, p, Low(h.hlit, 5)) && At(all, p + 5, Low(h.hdist, 5)) && At(all, p + 10, Low(|h.clens| - 4, 4))
      && At(all, p + 14, ThreeBits(h.clens)) <==>
      && NumberAt(all, p, 5) == h.hlit && NumberAt(all, p + 5, 5) == h.hdist
      && NumberAt(all, p + 10, 4) + 4 == |h.clens| && ThreesAt(all, p + 14, |h.clens|) == h.clens
  {
    hide At, Low, ThreeBits, NumberAt;
    Pow2Values();
    AtLow(all, p, h.hlit, 5);
    AtLow(all, p + 5, h.hdist, 5);
    AtLow(all, p + 10, |h.clens| - 4, 4);
    ThreesThere(all, p + 14, h.clens);
  }

  /** A header that was written gives its codes. */
  lemma HeaderFound(h: Header, all: seq<bool>, p: nat)
    requires HeaderFits(h) && At(all, p, HeaderBits(h))
    ensures HeaderAt(all, p) == Read(Codes(HeaderLiterals(h), HeaderDistances(h)), p + |HeaderBits(h)|)
  {
    hide At, Low, ThreeBits, ItemsBits, Accepted, ItemsFit, ApplyItems, NumberAt, HeaderBits, LengthsAt, Small,
      CodeLengthLengths;
    HeaderParts(h, all, p);
    HeaderNumbers(h, all, p);
    ItemsFound(HeaderCode(h), all, p + 14 + 3 * |h.clens|, [], h.items, h.hlit + 257 + (h.hdist + 1));
  }

  /** Codes that are found come from a header that was written. */
  lemma FoundHeader(all: seq<bool>, p: nat) returns (h: Header)
    requires HeaderAt(all, p).Read?
    ensures HeaderFits(h) && At(all, p, HeaderBits(h))
    ensures HeaderAt(all, p) == Read(Codes(HeaderLiterals(h), HeaderDistances(h)), p + |HeaderBits(h)|)
  {
    hide At, Low, ThreeBits, ItemsBits, Accepted, ItemsFit, ApplyItems, NumberAt, HeaderBits, LengthsAt,
      CodeLengthLengths;
    Pow2Values();
    var n := NumberAt(all, p + 10, 4) + 4;
    var clens := ThreesAt(all, p + 14, n);
    var cl := CodeLengthLengths(clens, n);
    var total := NumberAt(all, p, 5) + 257 + (NumberAt(all, p + 5, 5) + 1);
    var items := FoundItems(cl, all, p + 14 + 3 * n, [], total);
    h := Header(NumberAt(all, p, 5), NumberAt(all, p + 5, 5), clens, items);
    assert HeaderCode(h) == cl;
    HeaderNumbers(h, all, p);
    HeaderParts(h, all, p);
  }

  // ---------- Stored blocks ----------

  /** The next byte boundary. */
  function Boundary(p: nat): (q: nat)
    ensures p <= q < p + 8 && q % 8 == 0
  {
    (p + 7) / 8 * 8
  }

  function ByteAt(all: seq<bool>, p: nat): Byte {
    assert Pow2(8) == 256 by { Pow2Values(); }
    NumberAt(all, p, 8)
  }

  function BytesAt(all: seq<bool>, p: nat, n: nat): (s: seq<Byte>)
    ensures |s| == n
  {
    seq(n, j requires 0 <= j => ByteAt(all, p + 8 * j))
  }

  /** Two bytes, the low one first. */
  function WordAt(all: seq<bool>, p: nat): nat {
    ByteAt(all, p) + 256 * ByteAt(all, p + 8)
  }

  /** The data of a stored block, if the length is confirmed by its complement and there is so much data. */
  function StoredAt(all: seq<bool>, p: nat): Reading<seq<Byte>> {
    var q := Boundary(p);
    var len := WordAt(all, q);
    if WordAt(all, q + 16) != 0xFFFF - len || (len > 0 && q + 32 + 8 * len > |all|) then Wrong
    else Read(BytesAt(all, q + 32, len), q + 32 + 8 * len)
  }

  lemma {:induction false} BytesThere(all: seq<bool>, p: nat, s: seq<Byte>)
    ensures At(all, p, ByteBits(s)) <==> BytesAt(all, p, |s|) == s
    decreases |s|
  {
    hide At, Low, ByteAt, BytesAt;
    if s == [] {
      NothingAt(all, p);
    } else {
      BytesThere(all, p + 8, s[1..]);
      AtSplit(all, p, Low(s[0], 8), ByteBits(s[1..]));
      ByteThere(all, p, s[0]);
      BytesHead(all, p, |s|);
      SameHead(ByteAt(all, p), BytesAt(all, p + 8, |s| - 1), s);
    }
  }

  lemma BytesHead(all: seq<bool>, p: nat, n: nat)
    requires n > 0
    ensures BytesAt(all, p, n) == [ByteAt(all, p)] + BytesAt(all, p + 8, n - 1)
  {
    hide ByteAt;
    var a, b := BytesAt(all, p, n), BytesAt(all, p + 8, n - 1);
    forall i | 0 <= i < n ensures a[i] == ([ByteAt(all, p)] + b)[i] {
      if i > 0 { assert p + 8 + 8 * (i - 1) == p + 8 * i; }
    }
  }

  lemma ByteThere(all: seq<bool>, p: nat, b: Byte)
    ensures At(all, p, Low(b, 8)) <==> ByteAt(all, p) == b
  {
    Pow2Values();
    AtLow(all, p, b, 8);
  }

  lemma StoredHeaderThere(all: seq<bool>, q: nat, n: nat)
    requires n < 0x10000
    ensures At(all, q, ByteBits(StoredHeader(n))) <==> WordAt(all, q) == n && WordAt(all, q + 16) == 0xFFFF - n
  {
    hide ByteAt, At, ByteBits, BytesAt, StoredHeader;
    BytesThere(all, q, StoredHeader(n));
    FourBytes(all, q);
    HeaderWords(ByteAt(all, q), ByteAt(all, q + 8), ByteAt(all, q + 16), ByteAt(all, q + 24), n);
  }

  lemma FourBytes(all: seq<bool>, q: nat)
    ensures BytesAt(all, q, 4) == [ByteAt(all, q), ByteAt(all, q + 8), ByteAt(all, q + 16), ByteAt(all, q + 24)]
  {
    hide ByteAt;
  }

  lemma HeaderWords(a: Byte, b: Byte, c: Byte, d: Byte, n: nat)
    requires n < 0x10000
    ensures [a, b, c, d] == StoredHeader(n) <==> a + 256 * b == n && c + 256 * d == 0xFFFF - n
  {
    var h := StoredHeader(n);
    if a + 256 * b == n && c + 256 * d == 0xFFFF - n {
      Digits(b, a, 256);
      Digits(d, c, 256);
    }
    assert [a, b, c, d] == h <==> a == h[0] && b == h[1] && c == h[2] && d == h[3];
  }

  /** The parts of a stored block behind its first three bits. */
  lemma StoredParts(all: seq<bool>, p: nat, padding: seq<bool>, data: seq<Byte>)
    requires |data| < 0x10000
    ensures At(all, p, padding + (ByteBits(StoredHeader(|data|)) + ByteBits(data))) <==>
      && At(all, p, padding) && At(all, p + |padding|, ByteBits(StoredHeader(|data|)))
      && At(all, p + |padding| + 32, ByteBits(data))
  {
    hide At, ByteBits;
    var a, b := ByteBits(StoredHeader(|data|)), ByteBits(data);
    AtSplit(all, p, padding, a + b);
    AtSplit(all, p + |padding|, a, b);
  }

  lemma BoundaryIs(p: nat, n: nat)
    requires n < 8
    ensures (p + n) % 8 == 0 <==> Boundary(p) == p + n
  {
  }

  lemma StoredFound(all: seq<bool>, p: nat, padding: seq<bool>, data: seq<Byte>)
    requires |padding| < 8 && (p + |padding|) % 8 == 0 && |data| < 0x10000
    requires At(all, p, padding + (ByteBits(StoredHeader(|data|)) + ByteBits(data)))
    requires p + |padding| + 32 + 8 * |data| <= |all|
    ensures StoredAt(all, p) == Read(data, p + |padding| + 32 + 8 * |data|)
  {
    hide At, ByteBits, WordAt, BytesAt, Boundary, StoredHeader, StoredAt;
    var q := p + |padding|;
    StoredParts(all, p, padding, data);
    StoredIs(all, p, q, data);
  }

  lemma StoredIs(all: seq<bool>, p: nat, q: nat, data: seq<Byte>)
    requires p <= q < p + 8 && q % 8 == 0 && |data| < 0x10000 && q + 32 + 8 * |data| <= |all|
    requires At(all, q, ByteBits(StoredHeader(|data|))) && At(all, q + 32, ByteBits(data))
    ensures StoredAt(all, p) == Read(data, q + 32 + 8 * |data|)
  {
    hide At, ByteBits, WordAt, BytesAt, Boundary, StoredHeader;
    assert Boundary(p) == q by { BoundaryIs(p, q - p); }
    StoredHeaderThere(all, q, |data|);
    BytesThere(all, q + 32, data);
  }

  lemma FoundStored(all: seq<bool>, p: nat) returns (padding: seq<bool>, data: seq<Byte>)
    requires StoredAt(all, p).Read?
    ensures |padding| < 8 && (p + |padding|) % 8 == 0 && |data| < 0x10000
    ensures At(all, p, padding + (ByteBits(StoredHeader(|data|)) + ByteBits(data)))
    ensures StoredAt(all, p) == Read(data, p + |padding| + 32 + 8 * |data|)
  {
    hide ByteBits, BytesAt, Boundary, ByteAt;
    var q := Boundary(p);
    padding, data := BitsAt(all, p, q - p), StoredAt(all, p).value;
    BoundaryIs(p, |padding|);
    StoredParts(all, p, padding, data);
    StoredHeaderThere(all, q, |data|);
    BytesThere(all, q + 32, data);
  }

  // ---------- Blocks ----------

  /** What comes of the block at p: of its first bit depends only whether another one follows. */
  ghost function BlockRun(all: seq<bool>, p: nat, out: seq<Byte>, cap: int, n: nat): Outcome {
    var kind := NumberAt(all, p + 1, 2);
    if kind == 0 then StoredRun(all, p + 3, out, cap)
    else if kind < 3 then CompressedRun(kind, all, p + 3, out, cap, n)
    else Fails
  }

  ghost function CompressedRun(kind: nat, all: seq<bool>, p: nat, out: seq<Byte>, cap: int, n: nat): Outcome {
    if kind == 1 then TokensRun(FixedLiterals(), FixedDistances(), all, p, out, cap, n)
    else DynamicRun(all, p, out, cap, n)
  }

  function StoredRun(all: seq<bool>, p: nat, out: seq<Byte>, cap: int): Outcome {
    match StoredAt(all, p)
    case Wrong => Fails
    case Read(data, q) => if Room(cap, |out| + |data|) then Ends(out + data, q) else Fails
  }

  ghost function DynamicRun(all: seq<bool>, p: nat, out: seq<Byte>, cap: int, n: nat): Outcome {
    match HeaderAt(all, p)
    case Wrong => Fails
    case Read(c, q) => TokensRun(c.lits, c.dists, all, q, out, cap, n)
  }

  predicate LastAt(all: seq<bool>, p: nat) {
    NumberAt(all, p, 1) == 1
  }

  /** At most n blocks, of at most n rounds each. */
  ghost function BlocksRun(all: seq<bool>, p: nat, out: seq<Byte>, cap: int, n: nat): Outcome
    decreases n
  {
    if n == 0 then Going
    else
      var r := BlockRun(all, p, out, cap, n);
      if r.Ends? && !LastAt(all, p) then BlocksRun(all, r.next, r.out, cap, n - 1) else r
  }

  lemma BlockRunMore(all: seq<bool>, p: nat, out: seq<Byte>, cap: int, n: nat, m: nat)
    requires n <= m && !BlockRun(all, p, out, cap, n).Going?
    ensures BlockRun(all, p, out, cap, m) == BlockRun(all, p, out, cap, n)
  {
    hide TokensRun, HeaderAt, StoredRun, NumberAt;
    var kind := NumberAt(all, p + 1, 2);
    if kind == 1 {
      TokensRunMore(FixedLiterals(), FixedDistances(), all, p + 3, out, cap, n, m);
    } else if kind == 2 && HeaderAt(all, p + 3).Read? {
      var c, q := HeaderAt(all, p + 3).value, HeaderAt(all, p + 3).next;
      TokensRunMore(c.lits, c.dists, all, q, out, cap, n, m);
    }
  }

  /** More blocks and rounds change nothing once the result is known. */
  lemma {:induction false} BlocksRunMore(all: seq<bool>, p: nat, out: seq<Byte>, cap: int, n: nat, m: nat)
    requires n <= m && !BlocksRun(all, p, out, cap, n).Going?
    ensures BlocksRun(all, p, out, cap, m) == BlocksRun(all, p, out, cap, n)
    decreases n
  {
    hide BlockRun, LastAt;
    BlockRunMore(all, p, out, cap, n, m);
    var r := BlockRun(all, p, out, cap, n);
    if r.Ends? && !LastAt(all, p) { BlocksRunMore(all, r.next, r.out, cap, n - 1, m - 1); }
  }

  /** The first three bits of a block that was written, and the others. */
  lemma BlockStart(all: seq<bool>, p: nat, b: Block, last: bool, n: nat)
    requires BlockFits(b, n)
    ensures At(all, p, BlockBits(b, last, n)) <==>
      LastAt(all, p) == last && NumberAt(all, p + 1, 2) == BlockType(b) && At(all, p + 3, BlockBody(b, n))
  {
    hide At, BlockBody, BlockFits, NumberAt, Low;
    Pow2Values();
    var a, c := Low(if last then 1 else 0, 1), Low(BlockType(b), 2);
    AtSplit(all, p, a, c + BlockBody(b, n));
    AtSplit(all, p + 1, c, BlockBody(b, n));
    AtLow(all, p, if last then 1 else 0, 1);
    AtLow(all, p + 1, BlockType(b), 2);
  }

  /** A block that was written gives what it denotes, if it has room and its data is there. */
  lemma BlockFound(all: seq<bool>, p: nat, out: seq<Byte>, cap: int, n: nat, b: Block, last: bool)
    requires BlockFits(b, |out|) && At(all, p, BlockBits(b, last, |out|)) && Room(cap, |out|)
    requires b.Stored? ==> (p + 3 + |b.padding|) % 8 == 0 && p + 3 + |BlockBody(b, |out|)| <= |all|
    requires n > TokenCount(b)
    ensures LastAt(all, p) == last
    ensures BlockRun(all, p, out, cap, n) ==
      if Room(cap, |out| + BlockLength(b)) then Ends(ApplyBlock(out, b), p + 3 + |BlockBody(b, |out|)|) else Fails
  {
    hide At, NumberAt, TokensRun, StoredRun, DynamicRun, LastAt, BlockBits, BlockBody, BlockFits, FixedLiterals,
      FixedDistances, ApplyBlock, BlockLength;
    BlockStart(all, p, b, last, |out|);
    match b
    case Stored(padding, data) => StoredBlockFound(all, p + 3, out, cap, b);
    case Fixed(ts) => FixedBlockFound(all, p + 3, out, cap, n, b);
    case Dynamic(h, ts) => DynamicBlockFound(all, p + 3, out, cap, n, b);
  }

  lemma StoredBlockFound(all: seq<bool>, p: nat, out: seq<Byte>, cap: int, b: Block)
    requires b.Stored? && BlockFits(b, |out|) && At(all, p, BlockBody(b, |out|))
    requires (p + |b.padding|) % 8 == 0 && p + |BlockBody(b, |out|)| <= |all|
    ensures StoredRun(all, p, out, cap) ==
      if Room(cap, |out| + BlockLength(b)) then Ends(ApplyBlock(out, b), p + |BlockBody(b, |out|)|) else Fails
  {
    hide At, StoredAt, ByteBits;
    StoredFound(all, p, b.padding, b.data);
  }

  lemma FixedBlockFound(all: seq<bool>, p: nat, out: seq<Byte>, cap: int, n: nat, b: Block)
    requires b.Fixed? && BlockFits(b, |out|) && At(all, p, BlockBody(b, |out|)) && Room(cap, |out|) && n > |b.tokens|
    ensures TokensRun(FixedLiterals(), FixedDistances(), all, p, out, cap, n) ==
      if Room(cap, |out| + BlockLength(b)) then Ends(ApplyBlock(out, b), p + |BlockBody(b, |out|)|) else Fails
  {
    hide At, TokensRun, TokensBits, FixedLiterals, FixedDistances, ApplyAll, CompressedFits, Accepted;
    FixedAccepted();
    TokensFound(FixedLiterals(), FixedDistances(), all, p, out, cap, n, b.tokens);
  }

  lemma DynamicBlockFound(all: seq<bool>, p: nat, out: seq<Byte>, cap: int, n: nat, b: Block)
    requires b.Dynamic? && BlockFits(b, |out|) && At(all, p, BlockBody(b, |out|)) && Room(cap, |out|) && n > |b.tokens|
    ensures DynamicRun(all, p, out, cap, n) ==
      if Room(cap, |out| + BlockLength(b)) then Ends(ApplyBlock(out, b), p + |BlockBody(b, |out|)|) else Fails
  {
    hide At, TokensRun, TokensBits, HeaderBits, HeaderAt, HeaderLiterals, HeaderDistances, ApplyAll, TokensFit,
      Accepted, ItemsFit, ApplyItems, Small;
    var h := b.header;
    AtSplit(all, p, HeaderBits(h), TokensBits(b.tokens, |out|, HeaderLiterals(h), HeaderDistances(h)));
    HeaderFound(h, all, p);
    HeaderAccepted(h);
    TokensFound(HeaderLiterals(h), HeaderDistances(h), all, p + |HeaderBits(h)|, out, cap, n, b.tokens);
  }

  lemma HeaderAccepted(h: Header)
    requires HeaderFits(h)
    ensures Accepted(HeaderLiterals(h)) && Accepted(HeaderDistances(h))
  {
  }

  /** A block that ends was written. */
  lemma FoundBlock(all: seq<bool>, p: nat, out: seq<Byte>, cap: int, n: nat) returns (b: Block)
    requires BlockRun(all, p, out, cap, n).Ends?
    ensures BlockFits(b, |out|) && At(all, p, BlockBits(b, LastAt(all, p), |out|))
    ensures b.Stored? ==> (p + 3 + |b.padding|) % 8 == 0
    ensures BlockRun(all, p, out, cap, n) == Ends(ApplyBlock(out, b), p + 3 + |BlockBody(b, |out|)|)
  {
    hide At, NumberAt, TokensRun, StoredRun, DynamicRun, LastAt, BlockBits, BlockBody, BlockFits, FixedLiterals,
      FixedDistances, ApplyBlock, BlockLength;
    var kind := NumberAt(all, p + 1, 2);
    if kind == 0 {
      b := FoundStoredBlock(all, p + 3, out, cap);
    } else if kind == 1 {
      b := FoundFixedBlock(all, p + 3, out, cap, n);
    } else {
      b := FoundDynamicBlock(all, p + 3, out, cap, n);
    }
    BlockStart(all, p, b, LastAt(all, p), |out|);
  }

  lemma FoundStoredBlock(all: seq<bool>, p: nat, out: seq<Byte>, cap: int) returns (b: Block)
    requires StoredRun(all, p, out, cap).Ends?
    ensures b.Stored? && BlockFits(b, |out|) && At(all, p, BlockBody(b, |out|)) && (p + |b.padding|) % 8 == 0
    ensures StoredRun(all, p, out, cap) == Ends(ApplyBlock(out, b), p + |BlockBody(b, |out|)|)
  {
    hide At, StoredAt, ByteBits;
    var padding, data := FoundStored(all, p);
    b := Stored(padding, data);
  }

  lemma FoundFixedBlock(all: seq<bool>, p: nat, out: seq<Byte>, cap: int, n: nat) returns (b: Block)
    requires TokensRun(FixedLiterals(), FixedDistances(), all, p, out, cap, n).Ends?
    ensures b.Fixed? && BlockFits(b, |out|) && At(all, p, BlockBody(b, |out|))
    ensures TokensRun(FixedLiterals(), FixedDistances(), all, p, out, cap, n) ==
      Ends(ApplyBlock(out, b), p + |BlockBody(b, |out|)|)
  {
    hide At, TokensRun, TokensBits, FixedLiterals, FixedDistances, ApplyAll, CompressedFits, Accepted;
    FixedAccepted();
    var ts := FoundTokens(FixedLiterals(), FixedDistances(), all, p, out, cap, n);
    b := Fixed(ts);
  }

  lemma FoundDynamicBlock(all: seq<bool>, p: nat, out: seq<Byte>, cap: int, n: nat) returns (b: Block)
    requires DynamicRun(all, p, out, cap, n).Ends?
    ensures b.Dynamic? && BlockFits(b, |out|) && At(all, p, BlockBody(b, |out|))
    ensures DynamicRun(all, p, out, cap, n) == Ends(ApplyBlock(out, b), p + |BlockBody(b, |out|)|)
  {
    hide At, TokensRun, TokensBits, HeaderBits, HeaderAt, HeaderLiterals, HeaderDistances, ApplyAll, TokensFit,
      Accepted, ItemsFit, ApplyItems, Small;
    var h := FoundHeader(all, p);
    HeaderAccepted(h);
    var lits, dists, q := HeaderLiterals(h), HeaderDistances(h), p + |HeaderBits(h)|;
    var ts := FoundTokens(lits, dists, all, q, out, cap, n);
    AtSplit(all, p, HeaderBits(h), TokensBits(ts, |out|, lits, dists));
    b := Dynamic(h, ts);
  }

  function TokenCount(b: Block): nat {
    if b.Stored? then 0 else |b.tokens|
  }

  /** n rounds are enough for every one of the blocks. */
  predicate Enough(bs: seq<Block>, n: nat) {
    n > 0 && (bs == [] || (n > TokenCount(bs[0]) && Enough(bs[1..], n - 1)))
  }

  /** Blocks that were written give what they denote, if it has room. */
  lemma {:induction false} BlocksFound(all: seq<bool>, p: nat, out: seq<Byte>, cap: int, n: nat, bs: seq<Block>)
    requires bs != [] && BlocksFit(bs, |out|) && Aligned(bs, p, |out|) && Enough(bs, n) && Room(cap, |out|)
    requires At(all, p, BlocksBits(bs, |out|)) && p + |BlocksBits(bs, |out|)| <= |all|
    ensures BlocksRun(all, p, out, cap, n) ==
      if Room(cap, |out| + BlocksLength(bs)) then Ends(ApplyBlocks(out, bs), p + |BlocksBits(bs, |out|)|) else Fails
    decreases |bs|
  {
    hide At, BlockRun, LastAt, BlockBits, BlockBody, BlockFits, ApplyBlock, BlockLength, TokenCount;
    var b, last, more := bs[0], |bs| == 1, BlocksBits(bs[1..], |out| + BlockLength(bs[0]));
    AtSplit(all, p, BlockBits(b, last, |out|), more);
    BlockFound(all, p, out, cap, n, b, last);
    if !last && Room(cap, |out| + BlockLength(b)) {
      BlocksFound(all, p + 3 + |BlockBody(b, |out|)|, ApplyBlock(out, b), cap, n - 1, bs[1..]);
    }
  }

  /** Output that ends comes from blocks that were written. */
  lemma {:induction false} FoundBlocks(all: seq<bool>, p: nat, out: seq<Byte>, cap: int, n: nat)
    returns (bs: seq<Block>)
    requires BlocksRun(all, p, out, cap, n).Ends?
    ensures bs != [] && BlocksFit(bs, |out|) && Aligned(bs, p, |out|) && At(all, p, BlocksBits(bs, |out|))
    ensures BlocksRun(all, p, out, cap, n) == Ends(ApplyBlocks(out, bs), p + |BlocksBits(bs, |out|)|)
    decreases n
  {
    hide At, BlockRun, LastAt, BlockBits, BlockBody, BlockFits, ApplyBlock, BlockLength, TokenCount;
    var b := FoundBlock(all, p, out, cap, n);
    if LastAt(all, p) {
      bs := [b];
      OneBlock(b, p, out);
    } else {
      var more := FoundBlocks(all, p + 3 + |BlockBody(b, |out|)|, ApplyBlock(out, b), cap, n - 1);
      bs := [b] + more;
      assert bs[1..] == more;
      AtSplit(all, p, BlockBits(b, false, |out|), BlocksBits(more, |out| + BlockLength(b)));
    }
  }

  lemma OneBlock(b: Block, p: nat, out: seq<Byte>)
    requires BlockFits(b, |out|) && (b.Stored? ==> (p + 3 + |b.padding|) % 8 == 0)
    ensures BlocksFit([b], |out|) && Aligned([b], p, |out|) && BlocksBits([b], |out|) == BlockBits(b, true, |out|)
    ensures ApplyBlocks(out, [b]) == ApplyBlock(out, b)
  {
    hide BlockBits, BlockBody, BlockFits, ApplyBlock, BlockLength;
    assert [b][1..] == [];
  }

  // ---------- Streams ----------

  /** What comes out of the whole stream; nothing is known if the rounds do not end. */
  ghost function Inflated(all: seq<bool>, out: seq<Byte>, cap: int): Outcome {
    if n: nat :| !BlocksRun(all, 0, out, cap, n).Going? then BlocksRun(all, 0, out, cap, n) else Going
  }

  lemma InflatedIs(all: seq<bool>, out: seq<Byte>, cap: int, n: nat)
    requires !BlocksRun(all, 0, out, cap, n).Going?
    ensures Inflated(all, out, cap) == BlocksRun(all, 0, out, cap, n)
  {
    hide BlocksRun;
    var m: nat :| !BlocksRun(all, 0, out, cap, m).Going? && Inflated(all, out, cap) == BlocksRun(all, 0, out, cap, m);
    if n <= m {
      BlocksRunMore(all, 0, out, cap, n, m);
    } else {
      BlocksRunMore(all, 0, out, cap, m, n);
    }
  }

  /** Enough rounds for the whole stream. */
  lemma Rounds(all: seq<bool>, out: seq<Byte>, cap: int) returns (n: nat)
    requires !Inflated(all, out, cap).Going?
    ensures Inflated(all, out, cap) == BlocksRun(all, 0, out, cap, n)
  {
    hide BlocksRun;
    n :| !BlocksRun(all, 0, out, cap, n).Going? && Inflated(all, out, cap) == BlocksRun(all, 0, out, cap, n);
  }

  /** A stream that blocks were written to gives what they denote, if it has room; anything may follow them. */
  lemma StreamOfBlocks(all: seq<bool>, out: seq<Byte>, cap: int, bs: seq<Block>)
    requires bs != [] && BlocksFit(bs, |out|) && Aligned(bs, 0, |out|) && BlocksBits(bs, |out|) <= all
    requires Room(cap, |out|)
    ensures Inflated(all, out, cap) ==
      if Room(cap, |out| + BlocksLength(bs)) then Ends(ApplyBlocks(out, bs), |BlocksBits(bs, |out|)|) else Fails
  {
    hide BlocksFit, Aligned, BlocksBits, BlocksRun, Inflated, ApplyBlocks, Enough;
    var n := RoundsFor(bs);
    assert At(all, 0, BlocksBits(bs, |out|));
    BlocksFound(all, 0, out, cap, n, bs);
    InflatedIs(all, out, cap, n);
  }

  /** A stream that ends was written as blocks, but for zeros behind its end. */
  lemma BlocksOfStream(all: seq<bool>, out: seq<Byte>, cap: int) returns (bs: seq<Block>)
    requires Inflated(all, out, cap).Ends?
    ensures bs != [] && BlocksFit(bs, |out|) && Aligned(bs, 0, |out|) && At(all, 0, BlocksBits(bs, |out|))
    ensures Inflated(all, out, cap) == Ends(ApplyBlocks(out, bs), |BlocksBits(bs, |out|)|)
  {
    hide BlocksFit, Aligned, BlocksBits, BlocksRun, Inflated, ApplyBlocks;
    var n := Rounds(all, out, cap);
    bs := FoundBlocks(all, 0, out, cap, n);
  }

  function RoundsFor(bs: seq<Block>): (n: nat)
    ensures n > 0 && forall m :: m >= n ==> Enough(bs, m)
  {
    if bs == [] then 1 else Max(TokenCount(bs[0]), RoundsFor(bs[1..])) + 1
  }
}
