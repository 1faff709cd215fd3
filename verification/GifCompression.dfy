/** LZW compression as appendix F of GIF89a describes it: the data is cut into phrases, each of which is a symbol or a
    phrase before it with the symbol that came next, and is written as its number in the compressor's table. */
module GifCompression {
  import opened Arithmetic
  import opened Bits
  import opened StringTable

  /** The phrases written after a clear code, and their codes. */
  datatype Group = Group(phrases: seq<seq<Byte>>, codes: seq<nat>)

  /** The string that the compressor enters in its table behind phrase j: the phrase and the symbol after it. */
  function Entered(phrases: seq<seq<Byte>>, j: nat): (s: seq<Byte>)
    requires j + 1 < |phrases| && phrases[j + 1] != []
    ensures s != []
  {
    phrases[j] + [phrases[j + 1][0]]
  }

  predicate NoneEmpty(phrases: seq<seq<Byte>>) {
    forall k :: 0 <= k < |phrases| ==> phrases[k] != []
  }

  /** The code stands for phrase k: it is its only symbol, or the number of an entry that is in the table by then. */
  predicate Names(cs: nat, phrases: seq<seq<Byte>>, k: nat, code: nat)
    requires k < |phrases| && NoneEmpty(phrases)
  {
    if code < Pow2(cs) then phrases[k] == [code % 256]
    else Pow2(cs) + 2 <= code < Pow2(cs) + 2 + k && phrases[k] == Entered(phrases, code - Pow2(cs) - 2)
  }

  /** Every phrase has a code, of at most 12 bits, and there are not more of them than the program takes. */
  predicate GroupFits(cs: nat, g: Group) {
    && |g.codes| == |g.phrases| && |g.codes| + Pow2(cs) < MAX_ENTRIES && NoneEmpty(g.phrases)
    && forall k :: 0 <= k < |g.codes| ==> Names(cs, g.phrases, k, g.codes[k]) && g.codes[k] <= 0xFFF
  }

  function Join(phrases: seq<seq<Byte>>): seq<Byte> {
    if phrases == [] then [] else phrases[0] + Join(phrases[1..])
  }

  /** The bits that numbers up to n need, at least the given width and at most 12. */
  function BitsFor(width: nat, n: nat): (w: nat)
    ensures w >= width
    decreases 12 - width
  {
    if n < Pow2(width) || width >= 12 then width else BitsFor(width + 1, n)
  }

  /** The width of code k after a clear code: the greatest number that it can be is that of the newest entry. */
  function CodeWidth(cs: nat, k: nat): (w: nat)
    ensures w > cs
  {
    BitsFor(cs + 1, Pow2(cs) + 1 + k)
  }

  /** The codes of a group from code k on. */
  function CodesBits(cs: nat, codes: seq<nat>, k: nat): seq<bool>
    requires k <= |codes|
    decreases |codes| - k
  {
    if k == |codes| then [] else Low(codes[k], CodeWidth(cs, k)) + CodesBits(cs, codes, k + 1)
  }

  /** A clear code before every group, and an end code behind the last one; `last` codes have come since the clear code
      before. */
  function MessageBits(cs: nat, groups: seq<Group>, last: nat): seq<bool>
    decreases |groups|
  {
    if groups == [] then Low(Pow2(cs) + 1, CodeWidth(cs, last))
    else
      Low(Pow2(cs), CodeWidth(cs, last)) +
      (CodesBits(cs, groups[0].codes, 0) + MessageBits(cs, groups[1..], |groups[0].codes|))
  }

  predicate MessageFits(cs: nat, groups: seq<Group>) {
    forall i :: 0 <= i < |groups| ==> GroupFits(cs, groups[i])
  }

  /** The symbols of all phrases. */
  function Symbols(groups: seq<Group>): seq<Byte> {
    if groups == [] then [] else Join(groups[0].phrases) + Symbols(groups[1..])
  }

  // ---------- The decoder follows ----------

  /** The first n entries of the compressor's table. */
  function Entries(phrases: seq<seq<Byte>>, n: nat): (s: seq<seq<Byte>>)
    requires NoneEmpty(phrases) && (n == 0 || n < |phrases|)
    ensures |s| == n && forall j :: 0 <= j < n ==> s[j] == Entered(phrases, j)
  {
    seq(n, j requires 0 <= j < n => Entered(phrases, j))
  }

  /** The state of the decoder after k codes: its table is one entry behind. */
  ghost function StateOf(cs: nat, g: Group, k: nat): (st: State)
    requires GroupFits(cs, g) && k <= |g.codes|
  {
    if k == 0 then Cleared(cs)
    else State(Dictionary(cs, Entries(g.phrases, k - 1)), g.codes[k - 1], true, CodeWidth(cs, k))
  }

  lemma {:induction false} BitsForFits(cs: nat, width: nat, n: nat)
    requires cs + 1 <= width <= 12 && (width > cs + 1 ==> Pow2(width - 1) <= n)
    ensures Fitting(cs, n, BitsFor(width, n))
    decreases 12 - width
  {
    if n >= Pow2(width) && width < 12 { BitsForFits(cs, width + 1, n); }
  }

  /** There is only one width that fits. */
  lemma FittingOnce(cs: nat, n: nat, a: nat, b: nat)
    requires Fitting(cs, n, a) && Fitting(cs, n, b)
    ensures a == b
  {
    if a < b { Pow2Monotone(a, b - 1); }
    if b < a { Pow2Monotone(b, a - 1); }
  }

  /** The decoder's width grows with the compressor's. */
  lemma WidthGrows(cs: nat, k: nat)
    requires 1 <= cs <= 11
    ensures Widen(CodeWidth(cs, k), Pow2(cs) + 2 + k) == CodeWidth(cs, k + 1)
  {
    hide Widen, Fitting, BitsFor;
    LeastWidths(cs, Pow2(cs) + 1 + k);
  }

  lemma LeastWidths(cs: nat, n: nat)
    requires 1 <= cs <= 11 && 0 < n
    ensures Widen(BitsFor(cs + 1, n), n + 1) == BitsFor(cs + 1, n + 1)
  {
    hide Widen, Fitting, BitsFor, Pow2;
    BitsForFits(cs, cs + 1, n);
    BitsForFits(cs, cs + 1, n + 1);
    WidenFits(cs, n, n + 1, BitsFor(cs + 1, n));
    FittingOnce(cs, n + 1, BitsFor(cs + 1, n + 1), Widen(BitsFor(cs + 1, n), n + 1));
  }

  /** The first two codes after a clear code have the least width. */
  lemma FirstWidths(cs: nat)
    requires 2 <= cs <= 11
    ensures CodeWidth(cs, 0) == CodeWidth(cs, 1) == cs + 1 && Widen(cs + 1, Pow2(cs) + 2) == cs + 1
  {
    Pow2Values();
    Pow2Monotone(2, cs);
    Digits(0, Pow2(cs) + 2, Pow2(cs + 1));
  }

  lemma EntriesValid(cs: nat, phrases: seq<seq<Byte>>, n: nat)
    requires NoneEmpty(phrases) && (n == 0 || n < |phrases|)
    ensures Dictionary(cs, Entries(phrases, n)).Valid() &&
      Dictionary(cs, Entries(phrases, n)).Next() == Pow2(cs) + 2 + n
  {
    hide Entered, NoneEmpty, Pow2;
  }

  /** What the code of phrase k is to a table of n entries. */
  lemma NamedIn(cs: nat, phrases: seq<seq<Byte>>, n: nat, k: nat, code: nat)
    requires NoneEmpty(phrases) && (n == 0 || n < |phrases|) && k < |phrases| && Names(cs, phrases, k, code)
    ensures var d := Dictionary(cs, Entries(phrases, n));
      && code != d.Clear() && code != d.Clear() + 1 && code < Pow2(cs) + 2 + k
      && (d.Defines(code) <==> code < Pow2(cs) + 2 + n)
      && (d.Defines(code) ==> d.Expand(code) == phrases[k])
      && (code == Pow2(cs) + 2 + n ==> n < k && phrases[k] == Entered(phrases, n))
  {
    hide Entered, NoneEmpty, Pow2;
  }

  /** A code of the decoder's table, or the next one. */
  lemma NamedBefore(cs: nat, g: Group, k: nat)
    requires GroupFits(cs, g) && 0 < k < |g.codes|
    ensures var d := Dictionary(cs, Entries(g.phrases, k - 1));
      && d.Valid() && d.Next() == Pow2(cs) + 1 + k
      && d.Defines(g.codes[k - 1]) && d.Expand(g.codes[k - 1]) == g.phrases[k - 1]
      && g.codes[k] <= d.Next() && g.codes[k] != Pow2(cs) && g.codes[k] != Pow2(cs) + 1
      && (d.Defines(g.codes[k]) ==> d.Expand(g.codes[k]) == g.phrases[k])
      && (!d.Defines(g.codes[k]) ==> g.codes[k] == d.Next() && g.phrases[k] == Entered(g.phrases, k - 1))
  {
    hide Entered, NoneEmpty, Pow2, Names, Entries, Dictionary.Expand, Dictionary.Defines, Dictionary.Valid;
    EntriesValid(cs, g.phrases, k - 1);
    NamedIn(cs, g.phrases, k - 1, k - 1, g.codes[k - 1]);
    NamedIn(cs, g.phrases, k - 1, k, g.codes[k]);
  }

  /** The entry that the decoder adds is the one that the compressor added a code earlier. */
  lemma SameEntry(cs: nat, g: Group, k: nat)
    requires GroupFits(cs, g) && 0 < k < |g.codes|
    ensures var d := Dictionary(cs, Entries(g.phrases, k - 1));
      && d.Valid() && d.Defines(g.codes[k - 1]) && (d.Defines(g.codes[k]) || g.codes[k] == d.Next())
      && g.phrases[k] != [] && NewString(d, g.codes[k - 1], g.codes[k]) == Entered(g.phrases, k - 1)
      && d.Add(Entered(g.phrases, k - 1)) == Dictionary(cs, Entries(g.phrases, k))
      && Dictionary(cs, Entries(g.phrases, k)).Defines(g.codes[k])
      && Dictionary(cs, Entries(g.phrases, k)).Expand(g.codes[k]) == g.phrases[k]
  {
    hide Names, Pow2, Dictionary.Expand, Dictionary.Defines, Dictionary.Valid, Entries;
    NamedBefore(cs, g, k);
    NamedIn(cs, g.phrases, k, k, g.codes[k]);
    NextEntry(g.phrases, k);
  }

  lemma NextEntry(phrases: seq<seq<Byte>>, k: nat)
    requires NoneEmpty(phrases) && 0 < k < |phrases|
    ensures Entries(phrases, k) == Entries(phrases, k - 1) + [Entered(phrases, k - 1)]
    ensures phrases[k - 1] != [] && phrases[k] != []
  {
  }

  /** What a later code does to a state, by its parts. */
  lemma LaterStep(st: State, code: nat, e: seq<Byte>, next: Dictionary)
    requires st.Valid() && st.started && st.prior >= 0
    requires code <= st.dict.Next() < MAX_ENTRIES && code != st.dict.Clear() && code != st.dict.Clear() + 1
    requires st.dict.Defines(code) || code == st.dict.Next()
    requires e == NewString(st.dict, st.prior, code) && next == st.dict.Add(e) && next.Defines(code)
    ensures Advance(st, code) == More(State(next, code, true, Widen(st.width, next.Next())), next.Expand(code))
  {
    hide Widen, NewString;
  }

  lemma FirstDecoded(cs: nat, g: Group)
    requires 2 <= cs <= 8 && GroupFits(cs, g) && 0 < |g.codes|
    ensures StateOf(cs, g, 0).Valid()
    ensures Advance(StateOf(cs, g, 0), g.codes[0]) == More(StateOf(cs, g, 1), g.phrases[0])
  {
    hide Widen, CodeWidth, NewString;
    assert Names(cs, g.phrases, 0, g.codes[0]);
    FirstWidths(cs);
    assert Entries(g.phrases, 0) == [];
  }

  lemma LaterDecoded(cs: nat, g: Group, k: nat)
    requires 2 <= cs <= 8 && GroupFits(cs, g) && 0 < k < |g.codes|
    ensures StateOf(cs, g, k).Valid()
    ensures Advance(StateOf(cs, g, k), g.codes[k]) == More(StateOf(cs, g, k + 1), g.phrases[k])
  {
    hide Widen, CodeWidth, NewString, Entries, Entered, NoneEmpty, Names, Dictionary.Expand;
    NamedBefore(cs, g, k);
    SameEntry(cs, g, k);
    WidthGrows(cs, k);
    EntriesNumber(g.phrases, k);
    LaterStep(StateOf(cs, g, k), g.codes[k], Entered(g.phrases, k - 1), Dictionary(cs, Entries(g.phrases, k)));
  }

  lemma EntriesNumber(phrases: seq<seq<Byte>>, k: nat)
    requires NoneEmpty(phrases) && 0 < k < |phrases|
    ensures |Entries(phrases, k)| == k && |Entries(phrases, k - 1)| == k - 1 && phrases[k] != []
  {
  }

  /** Code k gives phrase k, and the next state. */
  lemma CodeDecoded(cs: nat, g: Group, k: nat)
    requires 2 <= cs <= 8 && GroupFits(cs, g) && k < |g.codes|
    ensures StateOf(cs, g, k).Valid()
    ensures Advance(StateOf(cs, g, k), g.codes[k]) == More(StateOf(cs, g, k + 1), g.phrases[k])
  {
    if k == 0 { FirstDecoded(cs, g); } else { LaterDecoded(cs, g, k); }
  }

  // ---------- Whole messages ----------

  /** One code in front of other bits. */
  lemma DecodeCode(st: State, code: nat, rest: seq<bool>)
    requires st.Valid() && code < Pow2(st.width)
    ensures var r := Advance(st, code);
      && (r.Finished? ==> Decode(st, Low(code, st.width) + rest) == (true, []))
      && (r.Failed? ==> Decode(st, Low(code, st.width) + rest) == (false, []))
      && (r.More? ==>
            Decode(st, Low(code, st.width) + rest) == (Decode(r.state, rest).0, r.out + Decode(r.state, rest).1))
  {
    hide Advance;
    var bits := Low(code, st.width) + rest;
    assert bits[..st.width] == Low(code, st.width) && bits[st.width..] == rest;
    ValueLow(code, st.width);
    Digits(0, code, Pow2(st.width));
  }

  /** The codes of a group have the width with which they are written. */
  lemma CodeNarrow(cs: nat, g: Group, k: nat)
    requires 2 <= cs <= 8 && GroupFits(cs, g) && k < |g.codes|
    ensures g.codes[k] < Pow2(CodeWidth(cs, k)) && StateOf(cs, g, k).width == CodeWidth(cs, k)
  {
    hide CodeWidth, Entered, NoneEmpty, Entries;
    assert Names(cs, g.phrases, k, g.codes[k]);
    FirstWidths(cs);
    WidthHolds(cs, k, g.codes[k]);
  }

  lemma WidthHolds(cs: nat, k: nat, code: nat)
    requires 1 <= cs <= 11 && code < Pow2(cs) + 2 + k && code <= 0xFFF
    ensures code < Pow2(CodeWidth(cs, k))
  {
    hide BitsFor;
    BitsForFits(cs, cs + 1, Pow2(cs) + 1 + k);
    Pow2Values();
    assert Pow2(12) == 16 * Pow2(8);
  }

  lemma {:induction false} GroupDecoded(cs: nat, g: Group, k: nat, rest: seq<bool>)
    requires 2 <= cs <= 8 && GroupFits(cs, g) && k <= |g.codes| && StateOf(cs, g, |g.codes|).Valid()
    ensures StateOf(cs, g, k).Valid()
    ensures var after := Decode(StateOf(cs, g, |g.codes|), rest);
      Decode(StateOf(cs, g, k), CodesBits(cs, g.codes, k) + rest) == (after.0, Join(g.phrases[k..]) + after.1)
    decreases |g.codes| - k
  {
    hide StateOf, Decode, CodeWidth, GroupFits, Pow2, Low;
    var after := Decode(StateOf(cs, g, |g.codes|), rest);
    GroupSizes(cs, g);
    if k == |g.codes| {
      assert CodesBits(cs, g.codes, k) + rest == rest && Join(g.phrases[k..]) + after.1 == after.1;
    } else {
      var more := CodesBits(cs, g.codes, k + 1) + rest;
      CodeNarrow(cs, g, k);
      CodeDecoded(cs, g, k);
      GroupDecoded(cs, g, k + 1, rest);
      DecodeCode(StateOf(cs, g, k), g.codes[k], more);
      assert CodesBits(cs, g.codes, k) + rest == Low(g.codes[k], CodeWidth(cs, k)) + more;
      assert g.phrases[k..][1..] == g.phrases[k + 1..];
      assert g.phrases[k] + (Join(g.phrases[k + 1..]) + after.1) == Join(g.phrases[k..]) + after.1;
    }
  }

  lemma GroupSizes(cs: nat, g: Group)
    requires GroupFits(cs, g)
    ensures |g.codes| == |g.phrases|
  {
  }

  lemma LastStateValid(cs: nat, g: Group)
    requires 2 <= cs <= 8 && GroupFits(cs, g)
    ensures var st := StateOf(cs, g, |g.codes|);
      st.Valid() && st.dict.cs == cs && st.width == CodeWidth(cs, |g.codes|)
  {
    hide Advance, Names, CodeWidth;
    FirstWidths(cs);
    if |g.codes| > 0 { CodeDecoded(cs, g, |g.codes| - 1); }
  }

  lemma SpecialCodes(st: State, rest: seq<bool>)
    requires st.Valid() && 1 <= st.dict.cs < st.width
    ensures Decode(st, Low(st.dict.Clear(), st.width) + rest) == Decode(Cleared(st.dict.cs), rest)
    ensures Decode(st, Low(st.dict.Clear() + 1, st.width) + rest) == (true, [])
  {
    hide Decode, Low;
    Pow2Monotone(st.dict.cs + 1, st.width);
    Pow2Monotone(1, st.dict.cs);
    DecodeCode(st, st.dict.Clear(), rest);
    DecodeCode(st, st.dict.Clear() + 1, rest);
    var after := Decode(Cleared(st.dict.cs), rest);
    assert [] + after.1 == after.1;
  }

  /** Decoding a message gives the symbols of its phrases, however they were cut. */
  lemma {:induction false} MessageDecoded(cs: nat, groups: seq<Group>, st: State, last: nat, rest: seq<bool>)
    requires 2 <= cs <= 8 && MessageFits(cs, groups)
    requires st.Valid() && st.dict.cs == cs && st.width == CodeWidth(cs, last)
    ensures Decode(st, MessageBits(cs, groups, last) + rest) == (true, Symbols(groups))
    decreases |groups|
  {
    hide Decode, CodeWidth, GroupFits, Low, CodesBits, StateOf, Cleared, Join, Pow2, State.Valid;
    if groups == [] {
      SpecialCodes(st, rest);
    } else {
      var g := groups[0];
      var others := MessageBits(cs, groups[1..], |g.codes|) + rest;
      LastStateValid(cs, g);
      MessageDecoded(cs, groups[1..], StateOf(cs, g, |g.codes|), |g.codes|, rest);
      GroupDecoded(cs, g, 0, others);
      GroupStart(cs, g);
      SpecialCodes(st, CodesBits(cs, g.codes, 0) + others);
      assert MessageBits(cs, groups, last) + rest ==
        Low(Pow2(cs), st.width) + (CodesBits(cs, g.codes, 0) + others);
    }
  }

  lemma GroupStart(cs: nat, g: Group)
    requires GroupFits(cs, g)
    ensures StateOf(cs, g, 0) == Cleared(cs) && g.phrases[0..] == g.phrases
  {
  }

  /** A message from the start of the data. */
  lemma MessageFromStart(cs: nat, groups: seq<Group>, rest: seq<bool>)
    requires 2 <= cs <= 8 && MessageFits(cs, groups)
    ensures Decode(Initial(cs), MessageBits(cs, groups, 0) + rest) == (true, Symbols(groups))
  {
    FirstWidths(cs);
    MessageDecoded(cs, groups, Initial(cs), 0, rest);
  }

  /** More codes than a group may have are an error, unless a clear code or the end code comes. */
  lemma TableFull(cs: nat, g: Group, code: nat)
    requires 2 <= cs <= 8 && GroupFits(cs, g) && |g.codes| + Pow2(cs) + 1 == MAX_ENTRIES
    requires code != Pow2(cs) && code != Pow2(cs) + 1
    ensures StateOf(cs, g, |g.codes|).Valid() && Advance(StateOf(cs, g, |g.codes|), code) == Failed
  {
    hide Names, CodeWidth, Entered, NewString;
    Pow2Monotone(cs, 8);
    Pow2Values();
    LastStateValid(cs, g);
  }

  // ---------- Any codes ----------

  /** Codes other than the clear code and the end code. */
  predicate Plain(cs: nat, codes: seq<nat>) {
    forall k :: 0 <= k < |codes| ==> codes[k] != Pow2(cs) && codes[k] != Pow2(cs) + 1
  }

  /** The decoder reports no error at any of the codes. */
  ghost predicate Takes(st: State, codes: seq<nat>)
    requires st.Valid()
    decreases |codes|
  {
    codes == [] || (Advance(st, codes[0]).More? && Takes(Advance(st, codes[0]).state, codes[1..]))
  }

  /** The symbols that they stand for. */
  ghost function Taken(st: State, codes: seq<nat>): seq<Byte>
    requires st.Valid() && Takes(st, codes)
    decreases |codes|
  {
    if codes == [] then []
    else Advance(st, codes[0]).out + Taken(Advance(st, codes[0]).state, codes[1..])
  }

  /** Code k is the number of an entry by then or of the one to come, and the table has room for it. */
  predicate InTable(cs: nat, codes: seq<nat>, k: nat)
    requires k < |codes|
  {
    codes[k] <= Pow2(cs) + 1 + k && (k == 0 || Pow2(cs) + 1 + k < MAX_ENTRIES)
  }

  /** The state after k codes, by its size. */
  ghost predicate Follows(cs: nat, st: State, k: nat) {
    && st.Valid() && st.started && st.dict.cs == cs && (st.prior >= 0 <==> k > 0)
    && |st.dict.added| == (if k == 0 then 0 else k - 1)
  }

  lemma StepTaken(cs: nat, st: State, codes: seq<nat>, k: nat)
    requires k < |codes| && Plain(cs, codes) && Follows(cs, st, k)
    ensures Advance(st, codes[k]).More? <==> InTable(cs, codes, k)
    ensures Advance(st, codes[k]).More? ==> Follows(cs, Advance(st, codes[k]).state, k + 1)
  {
    hide Widen, NewString, Pow2;
  }

  lemma {:induction false} RestTaken(cs: nat, st: State, codes: seq<nat>, k: nat)
    requires k <= |codes| && Plain(cs, codes) && Follows(cs, st, k)
    ensures Takes(st, codes[k..]) <==> forall j :: k <= j < |codes| ==> InTable(cs, codes, j)
    decreases |codes| - k
  {
    hide Advance, InTable, Follows, Plain;
    FollowsValid(cs, st, k);
    if k < |codes| {
      StepTaken(cs, st, codes, k);
      assert codes[k..][0] == codes[k] && codes[k..][1..] == codes[k + 1..];
      if InTable(cs, codes, k) { RestTaken(cs, Advance(st, codes[k]).state, codes, k + 1); }
    }
  }

  lemma FollowsValid(cs: nat, st: State, k: nat)
    requires Follows(cs, st, k)
    ensures st.Valid()
  {
  }

  /** Which codes after a clear code are an error, exactly; without one before them, all are. */
  lemma TakenExactly(cs: nat, codes: seq<nat>)
    requires Plain(cs, codes)
    ensures Takes(Cleared(cs), codes) <==> forall k :: 0 <= k < |codes| ==> InTable(cs, codes, k)
    ensures Takes(Initial(cs), codes) <==> codes == []
  {
    hide InTable;
    RestTaken(cs, Cleared(cs), codes, 0);
    assert codes[0..] == codes;
  }

  /** The state after phrases, by its table. */
  ghost predicate Decoded(cs: nat, phrases: seq<seq<Byte>>, codes: seq<nat>, st: State)
    requires |phrases| <= |codes|
  {
    var n := |phrases|;
    && st.Valid() && st.started && NoneEmpty(phrases)
    && (n == 0 ==> st.dict == Dictionary(cs, []) && st.prior < 0)
    && (n > 0 ==> st.prior == codes[n - 1] && st.dict == Dictionary(cs, Entries(phrases, n - 1)))
    && (n > 0 ==> st.dict.Expand(codes[n - 1]) == phrases[n - 1])
  }

  /** A code that is taken stands for a phrase that a compressor could have written with it. */
  lemma NextPhrase(cs: nat, phrases: seq<seq<Byte>>, codes: seq<nat>, st: State)
    requires |phrases| < |codes| && Plain(cs, codes) && Decoded(cs, phrases, codes, st)
    requires Advance(st, codes[|phrases|]).More?
    ensures var r := Advance(st, codes[|phrases|]);
      && Decoded(cs, phrases + [r.out], codes, r.state)
      && Names(cs, phrases + [r.out], |phrases|, codes[|phrases|])
  {
    hide Widen, Pow2, Dictionary.Valid;
    var n, r := |phrases|, Advance(st, codes[|phrases|]);
    if n > 0 {
      var more := phrases + [r.out];
      assert more[n] == r.out && more[n - 1] == phrases[n - 1];
      assert Entries(more, n) == Entries(phrases, n - 1) + [Entered(more, n - 1)];
    }
  }

  /** A phrase at the end changes nothing for those before it. */
  lemma NamesKept(cs: nat, phrases: seq<seq<Byte>>, p: seq<Byte>, k: nat, code: nat)
    requires k < |phrases| && NoneEmpty(phrases) && p != [] && Names(cs, phrases, k, code)
    ensures NoneEmpty(phrases + [p]) && Names(cs, phrases + [p], k, code)
  {
    hide Pow2;
  }

  /** Whatever codes are taken, they stand for phrases that a compressor could have written with them. */
  lemma {:induction false} RestNamed(cs: nat, phrases: seq<seq<Byte>>, codes: seq<nat>, st: State)
    returns (all: seq<seq<Byte>>)
    requires |phrases| <= |codes| && Plain(cs, codes) && Decoded(cs, phrases, codes, st)
    requires Takes(st, codes[|phrases|..])
    requires forall k :: 0 <= k < |phrases| ==> Names(cs, phrases, k, codes[k])
    ensures |all| == |codes| && NoneEmpty(all) && phrases <= all
    ensures forall k :: 0 <= k < |codes| ==> Names(cs, all, k, codes[k])
    ensures Taken(st, codes[|phrases|..]) == Join(all[|phrases|..])
    decreases |codes| - |phrases|
  {
    hide Advance, Plain, Names, Entries, Entered, Dictionary.Expand, State.Valid;
    var n := |phrases|;
    if n == |codes| {
      all := phrases;
    } else {
      var code := codes[n];
      assert codes[n..][0] == code && codes[n..][1..] == codes[n + 1..];
      var r := Advance(st, code);
      var more := phrases + [r.out];
      NextPhrase(cs, phrases, codes, st);
      forall k | 0 <= k < |more| ensures Names(cs, more, k, codes[k]) {
        if k < n { NamesKept(cs, phrases, r.out, k, codes[k]); }
      }
      all := RestNamed(cs, more, codes, r.state);
      assert all[n..][0] == r.out && all[n..][1..] == all[n + 1..];
    }
  }

  /** Decoding inverts nothing else: codes that are taken after a clear code stand for the phrases that they name. */
  lemma CodesNamed(cs: nat, codes: seq<nat>) returns (phrases: seq<seq<Byte>>)
    requires Plain(cs, codes) && Takes(Cleared(cs), codes)
    ensures |phrases| == |codes| && NoneEmpty(phrases)
    ensures forall k :: 0 <= k < |codes| ==> Names(cs, phrases, k, codes[k])
    ensures Taken(Cleared(cs), codes) == Join(phrases)
  {
    hide Plain, Names, Takes, Taken;
    assert codes[0..] == codes;
    phrases := RestNamed(cs, [], codes, Cleared(cs));
    assert phrases[0..] == phrases;
  }

  // ---------- The compressor ----------

  /** The string of entry j, when `next` is the symbol after the phrases written so far. */
  function Candidate(phrases: seq<seq<Byte>>, next: Byte, j: nat): (s: seq<Byte>)
    requires j < |phrases| && NoneEmpty(phrases)
    ensures s != []
  {
    if j + 1 < |phrases| then Entered(phrases, j) else phrases[j] + [next]
  }

  datatype Match = Match(length: nat, code: nat)

  /** The longest start of the symbols that is a symbol or one of the first n entries of the table. */
  function LongestMatch(cs: nat, phrases: seq<seq<Byte>>, symbols: seq<Byte>, n: nat): (m: Match)
    requires n <= |phrases| && NoneEmpty(phrases) && symbols != []
    ensures 0 < m.length <= |symbols|
    ensures forall j :: 0 <= j < n && Candidate(phrases, symbols[0], j) <= symbols ==>
      |Candidate(phrases, symbols[0], j)| <= m.length
  {
    if n == 0 then Match(1, symbols[0])
    else
      var m, s := LongestMatch(cs, phrases, symbols, n - 1), Candidate(phrases, symbols[0], n - 1);
      if s <= symbols && |s| > m.length then Match(|s|, Pow2(cs) + 2 + (n - 1)) else m
  }

  /** Writes phrases until the symbols are used up or the table has no more numbers of 12 bits. */
  function CompressGroup(cs: nat, g: Group, symbols: seq<Byte>): (r: (Group, seq<Byte>))
    requires NoneEmpty(g.phrases)
    ensures |r.1| <= |symbols| && (symbols != [] && |g.phrases| + Pow2(cs) < 0xFFF ==> |r.1| < |symbols|)
    decreases |symbols|
  {
    if symbols == [] || |g.phrases| + Pow2(cs) >= 0xFFF then (g, symbols)
    else
      var m := LongestMatch(cs, g.phrases, symbols, |g.phrases|);
      CompressGroup(cs, Group(g.phrases + [symbols[..m.length]], g.codes + [m.code]), symbols[m.length..])
  }

  function Compress(cs: nat, symbols: seq<Byte>): seq<Group>
    requires cs <= 8
    decreases |symbols|
  {
    if symbols == [] then [] else
      Pow2Monotone(cs, 8);
      Pow2Values();
      var (g, rest) := CompressGroup(cs, Group([], []), symbols);
      [g] + Compress(cs, rest)
  }

  predicate Small(cs: nat, symbols: seq<Byte>) {
    forall i :: 0 <= i < |symbols| ==> symbols[i] < Pow2(cs)
  }

  lemma CandidateEntered(phrases: seq<seq<Byte>>, p: seq<Byte>, j: nat)
    requires j < |phrases| && NoneEmpty(phrases) && p != []
    ensures NoneEmpty(phrases + [p]) && Candidate(phrases, p[0], j) == Entered(phrases + [p], j)
  {
  }

  /** The longest match is a code for the phrase. */
  lemma {:induction false} MatchNamed(cs: nat, phrases: seq<seq<Byte>>, symbols: seq<Byte>, n: nat)
    requires n <= |phrases| && NoneEmpty(phrases) && symbols != [] && Small(cs, symbols)
    ensures var m := LongestMatch(cs, phrases, symbols, n); var more := phrases + [symbols[..m.length]];
      m.code < Pow2(cs) + 2 + n && NoneEmpty(more) && Names(cs, more, |phrases|, m.code)
  {
    hide Pow2, Candidate, Entered;
    var m := LongestMatch(cs, phrases, symbols, n);
    if n > 0 {
      MatchNamed(cs, phrases, symbols, n - 1);
      if m != LongestMatch(cs, phrases, symbols, n - 1) {
        CandidateEntered(phrases, symbols[..m.length], n - 1);
      }
    } else {
      assert symbols[..1] == [symbols[0]];
    }
  }

  lemma {:induction false} JoinLast(phrases: seq<seq<Byte>>, p: seq<Byte>)
    ensures Join(phrases + [p]) == Join(phrases) + p
  {
    if phrases == [] {
      assert Join([p]) == p + Join([]);
    } else {
      assert (phrases + [p])[1..] == phrases[1..] + [p];
      JoinLast(phrases[1..], p);
    }
  }

  lemma GroupExtended(cs: nat, g: Group, p: seq<Byte>, code: nat)
    requires GroupFits(cs, g) && p != [] && |g.codes| + Pow2(cs) < 0xFFF && code < Pow2(cs) + 2 + |g.phrases|
    requires NoneEmpty(g.phrases + [p]) && Names(cs, g.phrases + [p], |g.phrases|, code)
    ensures GroupFits(cs, Group(g.phrases + [p], g.codes + [code]))
  {
    hide Names, Pow2;
    var h := Group(g.phrases + [p], g.codes + [code]);
    forall k | 0 <= k < |h.codes| ensures Names(cs, h.phrases, k, h.codes[k]) && h.codes[k] <= 0xFFF {
      if k < |g.codes| { NamesKept(cs, g.phrases, p, k, g.codes[k]); }
    }
  }

  lemma {:induction false} CompressGroupRight(cs: nat, g: Group, symbols: seq<Byte>)
    requires GroupFits(cs, g) && Small(cs, symbols)
    ensures var (h, rest) := CompressGroup(cs, g, symbols);
      GroupFits(cs, h) && Small(cs, rest) && Join(h.phrases) + rest == Join(g.phrases) + symbols
    decreases |symbols|
  {
    hide Names, Pow2, Join, GroupFits, NoneEmpty, LongestMatch, Candidate;
    GroupNonempty(cs, g);
    if symbols != [] && |g.phrases| + Pow2(cs) < 0xFFF {
      var m := LongestMatch(cs, g.phrases, symbols, |g.phrases|);
      var p, rest := symbols[..m.length], symbols[m.length..];
      MatchNamed(cs, g.phrases, symbols, |g.phrases|);
      GroupExtended(cs, g, p, m.code);
      JoinLast(g.phrases, p);
      CompressGroupRight(cs, Group(g.phrases + [p], g.codes + [m.code]), rest);
      assert Join(g.phrases) + p + rest == Join(g.phrases) + symbols;
    }
  }

  lemma GroupNonempty(cs: nat, g: Group)
    requires GroupFits(cs, g)
    ensures NoneEmpty(g.phrases) && |g.codes| == |g.phrases|
  {
  }

  lemma NoPhrases(cs: nat)
    requires cs <= 8
    ensures GroupFits(cs, Group([], [])) && Pow2(cs) < 0xFFF
  {
    Pow2Monotone(cs, 8);
    Pow2Values();
  }

  lemma {:induction false} CompressRight(cs: nat, symbols: seq<Byte>)
    requires cs <= 8 && Small(cs, symbols)
    ensures MessageFits(cs, Compress(cs, symbols)) && Symbols(Compress(cs, symbols)) == symbols
    decreases |symbols|
  {
    hide CompressGroup, GroupFits, Pow2;
    if symbols != [] {
      NoPhrases(cs);
      var (g, rest) := CompressGroup(cs, Group([], []), symbols);
      CompressGroupRight(cs, Group([], []), symbols);
      CompressRight(cs, rest);
      assert Join([]) + symbols == symbols;
    }
  }

  /** What is compressed is decoded to itself, whatever follows the end code. */
  lemma RoundTrip(cs: nat, symbols: seq<Byte>, rest: seq<bool>)
    requires 2 <= cs <= 8 && Small(cs, symbols)
    ensures Decode(Initial(cs), MessageBits(cs, Compress(cs, symbols), 0) + rest) == (true, symbols)
  {
    CompressRight(cs, symbols);
    MessageFromStart(cs, Compress(cs, symbols), rest);
  }
}
