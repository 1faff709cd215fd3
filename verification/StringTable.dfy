/** LZW decoding as the GIF89a specification describes it (appendix F): a table of strings that grows by one
    entry for every code, and code widths that follow its size. */
module StringTable {
  import opened Arithmetic
  import opened Bits

  /** The strings added since the last clear code; the codes below 2^cs stand for single symbols. */
  datatype Dictionary = Dictionary(cs: nat, added: seq<seq<Byte>>) {

    function Clear(): nat { Pow2(cs) }

    /** The code of the next string to be added; the two codes after the symbols are the clear code and the end code. */
    function Next(): nat { Clear() + 2 + |added| }

    predicate Defines(code: nat) {
      code < Clear() || Clear() + 2 <= code < Next()
    }

    /** The string of a code. */
    function Expand(code: nat): seq<Byte>
      requires Defines(code)
    {
      if code < Clear() then [code % 256] else added[code - Clear() - 2]
    }

    function Add(s: seq<Byte>): Dictionary {
      Dictionary(cs, added + [s])
    }

    predicate Valid() {
      forall i :: 0 <= i < |added| ==> added[i] != []
    }
  }

  const MAX_ENTRIES := 8192

  /** The code before, if there is one since the last clear code; whether there was a clear code; and the width of the
      next code. */
  datatype State = State(dict: Dictionary, prior: int, started: bool, width: nat) {
    ghost predicate Valid() {
      dict.Valid() && width > 0 && (if prior >= 0 then dict.Defines(prior) else dict.added == [])
    }
  }

  datatype Step = More(state: State, out: seq<Byte>) | Finished | Failed

  function Cleared(cs: nat): State {
    State(Dictionary(cs, []), -1, true, cs + 1)
  }

  function Initial(cs: nat): State {
    Cleared(cs).(started := false)
  }

  /** The width grows when the table fills it, up to 12 bits. */
  function Widen(width: nat, next: nat): (w: nat)
    ensures w >= width
  {
    if next % Pow2(width) == 0 && next <= 0xFFF then width + 1 else width
  }

  /** The string that a code adds to the table: the string of the code before it, followed by the first symbol of its
      own, or, when the code is the one being added, by the first symbol of the string before. */
  function NewString(dict: Dictionary, prior: nat, code: nat): (s: seq<Byte>)
    requires dict.Valid() && dict.Defines(prior) && (dict.Defines(code) || code == dict.Next())
    ensures s != []
  {
    dict.Expand(prior) + [if dict.Defines(code) then dict.Expand(code)[0] else dict.Expand(prior)[0]]
  }

  function Advance(st: State, code: nat): (r: Step)
    requires st.Valid()
    ensures r.More? ==> r.state.Valid() && r.state.dict.cs == st.dict.cs
  {
    var d := st.dict;
    if code == d.Clear() then More(Cleared(d.cs), [])
    else if code == d.Clear() + 1 then Finished
    else if !st.started then Failed
    else if st.prior < 0 then
      if d.Defines(code) then More(st.(prior := code, width := Widen(st.width, d.Next())), d.Expand(code)) else Failed
    else if code > d.Next() || d.Next() >= MAX_ENTRIES then Failed
    else
      var e := d.Add(NewString(d, st.prior, code));
      More(State(e, code, true, Widen(st.width, e.Next())), e.Expand(code))
  }

  /** All symbols that a stream of bits stands for, and whether it ends well: at an end code or where the bits run
      out. */
  function Decode(st: State, bits: seq<bool>): (bool, seq<Byte>)
    requires st.Valid()
    decreases |bits|
  {
    if |bits| < st.width then (true, [])
    else
      match Advance(st, Value(bits[..st.width]))
      case Finished => (true, [])
      case Failed => (false, [])
      case More(next, out) =>
        var (ok, rest) := Decode(next, bits[st.width..]);
        (ok, out + rest)
  }

  // ---------- Code widths ----------

  /** The number of bits that the codes up to next need, at least cs + 1 and at most 12. */
  ghost predicate Fitting(cs: nat, next: nat, width: nat) {
    && cs + 1 <= width <= 12
    && (width > cs + 1 ==> Pow2(width - 1) <= next)
    && (width < 12 ==> next < Pow2(width))
  }

  lemma WidenFits(cs: nat, n: nat, next: nat, width: nat)
    requires 1 <= cs <= 11 && Fitting(cs, n, width) && n <= next <= n + 1 && 0 < n
    ensures Fitting(cs, next, Widen(width, next))
  {
    Pow2Values();
    Pow2Monotone(width, 12);
    assert Pow2(12) == 16 * Pow2(8);
    if next < Pow2(width) {
      Digits(0, next, Pow2(width));
    } else if next == Pow2(width) {
      Digits(1, 0, Pow2(width));
      if width == 12 { assert next > 0xFFF; }
    }
  }

  /** One bit fewer than the codes up to next need, while they need at most 12. */
  ghost predicate Lagging(next: nat, width: nat) {
    1 <= width <= 11 && Pow2(width) <= next && (width < 11 ==> next < Pow2(width + 1))
  }

  lemma WidenLags(n: nat, next: nat, width: nat)
    requires Lagging(n, width) && (next == n == 3 || next == n + 1)
    ensures Lagging(next, Widen(width, next))
  {
    Pow2Values();
    LateWidth(width);
    if width < 11 && next == Pow2(width + 1) {
      Digits(2, 0, Pow2(width));
    } else if next % Pow2(width) == 0 && next <= 0xFFF {
      assert width == 11 ==> next < Pow2(width + 1);
      Multiple(next, Pow2(width));
    }
  }

  lemma LateWidth(width: nat)
    requires width <= 11
    ensures Pow2(width + 1) == 2 * Pow2(width) && (width == 11 ==> Pow2(width + 1) == 0x1000)
    ensures width >= 2 ==> Pow2(width) >= 4
    ensures width < 11 ==> 2 * Pow2(width) <= 0x800
  {
    Pow2Values();
    Pow2Monotone(2, if width >= 2 then width else 2);
    Pow2Monotone(width + 1, if width < 11 then 11 else 12);
    assert Pow2(11) == 4 * Pow2(9) && Pow2(12) == 8 * Pow2(9);
  }

  /** Between a number and twice it there is no other multiple of it. */
  lemma Multiple(n: nat, m: nat)
    requires 0 < m <= n < 2 * m && n % m == 0
    ensures n == m
  {
    Quotient(n, m);
    SmallMultiple(n / m - 1, m);
  }

  /** The width of the next code: as many bits as the next code of the table needs, from 3 to 12, when symbols have 2 to
      11 bits. The program also accepts other sizes. With symbols of one bit that is so once a symbol has been read;
      with symbols of no bits the width stays one behind; and with 12 bits it is always 13. */
  ghost predicate WidthRight(st: State) {
    var cs, next := st.dict.cs, st.dict.Next();
    if cs == 0 then Lagging(next, st.width)
    else if cs == 1 && st.prior < 0 then next == 4 && st.width == 2
    else if cs < 12 then Fitting(cs, next, st.width)
    else st.width == 13
  }

  lemma ClearedWidth(cs: nat)
    requires cs <= 12
    ensures WidthRight(Cleared(cs)) && WidthRight(Initial(cs))
  {
    Pow2Values();
    if cs >= 2 { Pow2Monotone(2, cs); }
  }

  /** Widening keeps the width right, when the table has the same next code or the one behind it. */
  lemma WidthWidened(st: State)
    requires st.dict.cs <= 12 && WidthRight(st) && (st.prior < 0 ==> st.dict.added == [])
    ensures var cs, next := st.dict.cs, st.dict.Next();
      && (cs == 0 ==>
           (st.prior < 0 ==> Lagging(next, Widen(st.width, next))) && Lagging(next + 1, Widen(st.width, next + 1)))
      && (cs == 1 && st.prior < 0 ==> next == 4 && Fitting(1, next, Widen(st.width, next)))
      && ((cs == 1 && st.prior >= 0) || 2 <= cs < 12 ==>
            Fitting(cs, next, Widen(st.width, next)) && Fitting(cs, next + 1, Widen(st.width, next + 1)))
      && (cs == 12 ==> Widen(st.width, next) == Widen(st.width, next + 1) == 13)
  {
    hide Widen, Fitting, Lagging, Pow2;
    var cs, next := st.dict.cs, st.dict.Next();
    if cs == 0 {
      Pow2Values();
      if st.prior < 0 { WidenLags(next, next, st.width); }
      WidenLags(next, next + 1, st.width);
    } else if cs == 1 && st.prior < 0 {
      SecondWidth();
    } else if cs < 12 {
      WidenFits(cs, next, next, st.width);
      WidenFits(cs, next, next + 1, st.width);
    } else {
      NoWider(next);
      NoWider(next + 1);
    }
  }

  /** Every code keeps the width right. */
  lemma WidthStep(st: State, code: nat)
    requires st.Valid() && st.dict.cs <= 12 && WidthRight(st)
    ensures Advance(st, code).More? ==> WidthRight(Advance(st, code).state)
  {
    hide Widen, NewString, Fitting, Lagging, Pow2;
    ClearedWidth(st.dict.cs);
    WidthWidened(st);
  }

  lemma SecondWidth()
    ensures Fitting(1, 4, Widen(2, 4))
  {
    Pow2Values();
  }

  lemma NoWider(next: nat)
    requires next >= Pow2(12)
    ensures Widen(13, next) == 13
  {
    Pow2Values();
    Pow2Add(4, 8);
  }

  /** A state that some list of codes leads to. */
  ghost predicate Reaches(st: State, codes: seq<nat>, end: State)
    requires st.Valid()
    decreases |codes|
  {
    if codes == [] then end == st
    else Advance(st, codes[0]).More? && Reaches(Advance(st, codes[0]).state, codes[1..], end)
  }

  lemma {:induction false} WidthsStayRight(st: State, codes: seq<nat>, end: State)
    requires st.Valid() && Reaches(st, codes, end) && st.dict.cs <= 12 && WidthRight(st)
    ensures end.dict.cs == st.dict.cs && WidthRight(end)
    decreases |codes|
  {
    hide WidthRight;
    if codes != [] {
      WidthStep(st, codes[0]);
      WidthsStayRight(Advance(st, codes[0]).state, codes[1..], end);
    }
  }

  /** After any codes, for every symbol size that the program accepts. */
  lemma WidthsAlwaysFit(cs: nat, codes: seq<nat>, end: State)
    requires cs <= 12 && Reaches(Initial(cs), codes, end)
    ensures WidthRight(end) && end.dict.cs == cs
  {
    hide WidthRight;
    ClearedWidth(cs);
    WidthsStayRight(Initial(cs), codes, end);
  }
}
