/** Inputs for which the hash table does not do what a map should do. */
module HashFailures {
  import opened Arithmetic
  import opened ControlBytes
  import opened HashLayout
  import opened HashMap
  import opened HashRuns
  import Probing

  // ---------- A key that is lost ----------

  /** A hash whose groups are 1 and 0 among two, but 1, 2, 0 and 3 among four. */
  function ToOne(k: nat): Hash {
    1024 * (k % 64) + 257
  }

  lemma WayToOne(k: nat)
    ensures Path(ToOne, k, 2, 0) == 1 && Path(ToOne, k, 2, 1) == 0
    ensures Path(ToOne, k, 4, 0) == 1 && Path(ToOne, k, 4, 1) == 2 && !Moves(ToOne, k, 2)
  {
    var q := k % 64;
    assert Start(ToOne, k) == 4 * q + 1;
    assert Probing.Triangle(0) == 0 && Probing.Triangle(1) == 1;
  }

  /** The first n slots hold the keys 0 to n - 1. */
  ghost function Row(n: nat): (s: Line<nat>)
    ensures forall c :: 0 <= c < SLOTS ==> s[c] == if c < n then Used(c) else Empty
  {
    seq(SLOTS, c requires 0 <= c < SLOTS => if c < n then Used(c) else Empty)
  }

  /** A group with one key. */
  ghost function Single(k: nat): (s: Line<nat>) {
    Row(0)[0 := Used(k)]
  }

  lemma RowFacts(n: nat)
    requires n < SLOTS
    ensures !Full(Row(n)) && FirstFree(Row(n)) == n && Row(n)[n := Used(n)] == Row(n + 1) && Full(Row(SLOTS)) &&
      Row(0) == EmptyLine<nat>()
  {
    assert Row(n)[n].Empty?;
  }

  lemma RoomAt<K>(hash: K -> Hash, k: K, groups: seq<Line<K>>, j: nat)
    requires j < 2 <= |groups| && !Full(groups[Path(hash, k, |groups|, j)])
    requires j == 1 ==> Full(groups[Path(hash, k, |groups|, 0)])
    ensures RoomProbe(hash, k, groups, 0) == j
  {
    hide Path, Full;
  }

  /** The slots after the first n keys have been added. */
  ghost function Chain(n: nat): (s: State<nat>)
    ensures |s.groups| == 2
  {
    if n == 0 then Fresh<nat>(2) else Added(ToOne, Chain(n - 1), n - 1)
  }

  lemma {:induction false} ChainShape(n: nat)
    requires n <= SLOTS
    ensures var s := Chain(n); s.Sound() && s.place.Keys == Probing.Below(n) && s.groups == [EmptyLine<nat>(), Row(n)]
  {
    hide Path, Full, FirstFree, RoomProbe, Row, State.Sound, State.Reached, Probing.Below;
    if n == 0 {
      ChainStart();
    } else {
      ChainShape(n - 1);
      var s := Chain(n - 1);
      WayToOne(n - 1);
      RowFacts(n - 1);
      RoomAt(ToOne, n - 1, s.groups, 0);
      assert !Full(s.groups[1]);
      NextBelow(n - 1);
      AddedSound(ToOne, s, n - 1);
    }
  }

  lemma ChainStart()
    ensures var s := Chain(0);
      s == Fresh<nat>(2) && s.Sound() && s.place.Keys == Probing.Below(0) && s.groups == [EmptyLine<nat>(), Row(0)]
  {
    assert Pow2(1) == 2;
    FreshSound(ToOne, 1);
    RowFacts(0);
    assert Chain(0).place.Keys == {} == Probing.Below(0);
    assert Chain(0).groups == [EmptyLine<nat>(), EmptyLine<nat>()];
  }

  lemma NextBelow(n: nat)
    ensures n !in Probing.Below(n) && Probing.Below(n + 1) == Probing.Below(n) + {n}
  {
  }

  /** Sixteen keys fill group 1, and the next one goes to group 0. */
  lemma ChainEnd()
    ensures var s := Chain(17);
      && s.Sound() && s.place.Keys == Probing.Below(17) && s.place[16] == (0, 0)
      && s.groups == [Single(16), Row(SLOTS)]
  {
    hide Path, Full, FirstFree, RoomProbe, Row, State.Sound, State.Reached, Probing.Below;
    ChainShape(SLOTS);
    var s := Chain(16);
    WayToOne(16);
    RowFacts(0);
    RoomAt(ToOne, 16, s.groups, 1);
    assert !Full(s.groups[0]);
    NextBelow(16);
    AddedSound(ToOne, s, 16);
  }

  /** When no key moves, doubling only adds empty groups. */
  lemma {:induction false} NothingMoves<K>(hash: K -> Hash, s: State<K>, p: nat)
    requires s.Sound() && p <= SLOTS * |s.groups| && forall k :: k in s.place ==> !Moves(hash, k, |s.groups|)
    ensures Rehashed(hash, Enlarged(s), |s.groups|, p) == Enlarged(s)
  {
    hide Moves, Moved;
    if p > 0 {
      NothingMoves(hash, s, p - 1);
      var i, c := (p - 1) / SLOTS, (p - 1) % SLOTS;
      assert s.Owned(i, c);
    }
  }

  lemma DoubledChain()
    ensures var d := Doubled(ToOne, Chain(17));
      && d.groups == [Single(16), Row(SLOTS), Row(0), Row(0)] && d.place == Chain(17).place
  {
    hide Row, Single, Rehashed, Chain, EmptyLines, State.Sound, FirstFree, Full, Path, Moves, Doubled;
    ChainEnd();
    forall k | k in Chain(17).place ensures !Moves(ToOne, k, 2) {
      WayToOne(k);
    }
    NothingMoves(ToOne, Chain(17), SLOTS * 2);
    DoubledIs(ToOne, Chain(17));
    var a, b := Single(16), Row(SLOTS);
    assert Chain(17).groups == [a, b];
    FourGroups(a, b);
  }

  lemma FourGroups(a: Line<nat>, b: Line<nat>)
    ensures [a, b] + EmptyLines<nat>(2) == [a, b, Row(0), Row(0)]
  {
    RowFacts(0);
  }

  /** After the doubling, key 17 goes to group 2, and the search for key 16 ends there. */
  lemma KeyLost()
    ensures var d := Doubled(ToOne, Chain(17));
      && 17 !in d.place && 16 in Added(ToOne, d, 17).place && !Added(ToOne, d, 17).Reached(ToOne, 16)
  {
    hide Path, FirstFree, Full, RoomProbe, Row, Doubled, Chain, Probing.Below;
    ChainEnd();
    DoubledChain();
    NextBelow(16);
    NextBelow(17);
    var d := Doubled(ToOne, Chain(17));
    WayToOne(17);
    RowFacts(0);
    RoomAt(ToOne, 17, d.groups, 1);
    var s := Added(ToOne, d, 17);
    assert s.groups[2] == Single(17);
    OneUsed(17);
    forall j: nat ensures !s.ReachedAt(ToOne, 16, j) {
      LateProbe(s, 16, j);
    }
  }

  lemma LateProbe(s: State<nat>, k: nat, j: nat)
    requires |s.groups| == 4 && k in s.place && s.place[k] == (0, 0) && !Full(s.groups[2])
    ensures !s.ReachedAt(ToOne, k, j)
  {
    hide Full, Path;
    WayToOne(k);
    if j >= 2 {
      assert !Full(s.groups[Path(ToOne, k, 4, 1)]);
    }
  }

  lemma OneUsed(k: nat)
    ensures !Full(Single(k))
  {
    assert Single(k)[1].Empty?;
  }

  /** Eighteen insertions into a new table: the last one doubles it, and key 16 is no longer found. */
  method LosesKey() returns (m: Map<nat, nat>, bucket: Option<nat>)
    ensures fresh(m) && m.contents.Keys == Probing.Below(18) && bucket == None
  {
    hide Represents, Added, State.Reached, State.Sound, Doubled, Chain, Probing.Below, State.HasEmpty, Loaded;
    m := new Map(ToOne, (0, 0));
    ChainStart();
    var i := 0;
    while i < 17
      invariant i <= 17 && fresh(m) && m.hash == ToOne && Chained(m, i)
      modifies m
    {
      InsertNext(m, i);
      i := i + 1;
    }
    bucket := InsertLast(m);
  }

  /** The first n keys have been inserted. */
  ghost predicate Chained(m: Map<nat, nat>, n: nat)
    reads m
  {
    m.Sound() && m.state == Chain(n) && m.contents.Keys == Probing.Below(n)
  }

  method InsertNext(m: Map<nat, nat>, n: nat)
    requires n < 17 && m.hash == ToOne && Chained(m, n)
    modifies m
    ensures Chained(m, n + 1)
  {
    hide Represents, Added, State.Reached, State.Sound, Doubled, Chain, Probing.Below, State.HasEmpty, Loaded, Path;
    ChainNext(n);
    var _ := m.Insert(n, n);
  }

  method InsertLast(m: Map<nat, nat>) returns (bucket: Option<nat>)
    requires m.hash == ToOne && Chained(m, 17)
    modifies m
    ensures m.contents.Keys == Probing.Below(18) && bucket == None
  {
    hide Represents, Added, State.Reached, State.Sound, Doubled, Chain, Probing.Below, State.HasEmpty, Loaded, Path;
    KeyLost();
    ChainEnd();
    ChainLoaded();
    NextBelow(17);
    var _ := m.Insert(17, 17);
    var found, _ := m.Find(16);
    bucket := found;
  }

  lemma ChainNext(n: nat)
    requires n < 17
    ensures var s := Chain(n);
      && Chain(n + 1) == Added(ToOne, s, n) && n !in s.place && s.HasEmpty() && !Loaded(|s.place|, |s.groups|)
    ensures n !in Probing.Below(n) && Probing.Below(n + 1) == Probing.Below(n) + {n}
  {
    hide Full, Row, State.Sound, Added;
    ChainShape(n);
    NextBelow(n);
    RowFacts(0);
    assert |Chain(n).place| == |Chain(n).place.Keys| && !Full(Chain(n).groups[0]);
  }

  lemma ChainLoaded()
    ensures Loaded(|Chain(17).place|, 2)
  {
    hide Chain;
    ChainEnd();
    assert |Chain(17).place| == |Chain(17).place.Keys|;
  }

  // ---------- A table that fills up without keys ----------

  /** A hash that sends even keys to group 0 of two, and odd ones to group 1. */
  function ByParity(k: nat): Hash {
    256 * (k % 1024) + 1
  }

  lemma WayByParity(k: nat)
    requires k < 1024
    ensures Path(ByParity, k, 2, 0) == Home(ByParity, k, 2) == k % 2
  {
    assert Start(ByParity, k) == k;
    assert Probing.Triangle(0) == 0;
  }

  /** Group h has marks up to slot lo, keys from there to slot hi, and empty slots behind them, and the table has no
      other keys. */
  ghost predicate Half(s: State<nat>, h: nat, lo: nat, hi: nat) {
    && h < 2 == |s.groups| && s.Sound() && s.place.Keys == Keys(h, lo, hi)
    && forall c :: 0 <= c < SLOTS ==> s.groups[h][c] == if c < lo then Marked else if c < hi then Used(2 * c + h)
         else Empty
  }

  ghost function Keys(h: nat, lo: nat, hi: nat): (s: set<nat>) {
    set c | lo <= c < hi :: 2 * c + h
  }

  lemma {:induction false} KeysSize(h: nat, hi: nat)
    ensures |Keys(h, 0, hi)| <= hi
  {
    if hi > 0 {
      KeysSize(h, hi - 1);
      assert Keys(h, 0, hi) == Keys(h, 0, hi - 1) + {2 * (hi - 1) + h};
    }
  }

  lemma KeysMore(h: nat, lo: nat, hi: nat)
    ensures lo <= hi ==> 2 * hi + h !in Keys(h, lo, hi) && Keys(h, lo, hi + 1) == Keys(h, lo, hi) + {2 * hi + h}
    ensures lo < hi ==> 2 * lo + h in Keys(h, lo, hi) && Keys(h, lo + 1, hi) == Keys(h, lo, hi) - {2 * lo + h}
  {
  }

  lemma HalfAdded(s: State<nat>, h: nat, n: nat)
    requires n < SLOTS && Half(s, h, 0, n)
    ensures var k, r := 2 * n + h, Added(ByParity, s, 2 * n + h);
      && Half(r, h, 0, n + 1) && r.groups[1 - h] == s.groups[1 - h]
      && k !in s.place && s.HasEmpty() && !Loaded(|s.place|, |s.groups|) && Keys(h, 0, n + 1) == Keys(h, 0, n) + {k}
  {
    hide Path, FirstFree, RoomProbe, State.Sound, State.Reached, Keys, Full, Loaded;
    var k := 2 * n + h;
    WayByParity(k);
    HalfFree(s.groups[h], n);
    RoomAt(ByParity, k, s.groups, 0);
    HalfSize(s, h, n);
    KeysMore(h, 0, n);
    AddedSound(ByParity, s, k);
  }

  lemma HalfFree(s: Line<nat>, n: nat)
    requires n < SLOTS && forall c :: 0 <= c < SLOTS ==> if c < n then s[c].Used? else s[c].Empty?
    ensures !Full(s) && FirstFree(s) == n
  {
    assert s[n].Empty?;
  }

  lemma HalfSize(s: State<nat>, h: nat, n: nat)
    requires n < SLOTS && Half(s, h, 0, n)
    ensures !Loaded(|s.place|, |s.groups|)
  {
    hide Keys;
    KeysSize(h, n);
    assert |s.place| == |s.place.Keys|;
  }

  lemma HalfRemoved(s: State<nat>, h: nat, n: nat)
    requires n < SLOTS && Half(s, h, n, SLOTS)
    ensures var k, r := 2 * n + h, Removed(s, 2 * n + h);
      && Half(r, h, n + 1, SLOTS) && r.groups[1 - h] == s.groups[1 - h]
      && k in s.place && s.Reached(ByParity, k) && Keys(h, n + 1, SLOTS) == Keys(h, n, SLOTS) - {k}
  {
    hide State.Reached, State.Sound, Keys, Home, FirstFree;
    var k := 2 * n + h;
    SlotKey(s, h, n);
    WayByParity(k);
    HomeReached(ByParity, s, k);
    RemovedSound(s, k);
    KeysMore(h, n, SLOTS);
  }

  /** Sixteen keys come and go in group h. */
  method ComeAndGo(m: Map<nat, nat>, h: nat)
    requires m.Sound() && m.hash == ByParity && Half(m.state, h, 0, 0) && m.contents == map[]
    modifies m
    ensures m.Sound() && Half(m.state, h, SLOTS, SLOTS) && m.contents == map[]
    ensures |old(m.state).groups| == |m.state.groups| == 2 && m.state.groups[1 - h] == old(m.state).groups[1 - h]
  {
    hide Represents, Half, Keys, State.Sound;
    Sides(m.state, h, 0, 0);
    Come(m, h);
    Go(m, h);
    Sides(m.state, h, SLOTS, SLOTS);
  }

  method Come(m: Map<nat, nat>, h: nat)
    requires m.Sound() && m.hash == ByParity && Half(m.state, h, 0, 0) && m.contents == map[]
    modifies m
    ensures m.Sound() && Half(m.state, h, 0, SLOTS) && m.contents.Keys == Keys(h, 0, SLOTS)
    ensures h < 2 == |old(m.state).groups| == |m.state.groups| && m.state.groups[1 - h] == old(m.state).groups[1 - h]
  {
    hide Represents, Half, Keys, State.Sound;
    Sides(m.state, h, 0, 0);
    var n := 0;
    while n < SLOTS
      invariant 0 <= n <= SLOTS && m.Sound() && Half(m.state, h, 0, n) && m.contents.Keys == Keys(h, 0, n)
      invariant |m.state.groups| == 2 && m.state.groups[1 - h] == old(m.state).groups[1 - h]
    {
      ComeOne(m, h, n);
      n := n + 1;
    }
  }

  method ComeOne(m: Map<nat, nat>, h: nat, n: nat)
    requires m.Sound() && m.hash == ByParity && n < SLOTS && Half(m.state, h, 0, n) && m.contents.Keys == Keys(h, 0, n)
    modifies m
    ensures m.Sound() && Half(m.state, h, 0, n + 1) && m.contents.Keys == Keys(h, 0, n + 1)
    ensures h < 2 == |old(m.state).groups| == |m.state.groups| && m.state.groups[1 - h] == old(m.state).groups[1 - h]
  {
    hide Represents, Added, Half, Keys, State.Reached, Loaded, State.HasEmpty, State.Sound, Doubled;
    Sides(m.state, h, 0, n);
    HalfAdded(m.state, h, n);
    m.SoundSizes();
    ghost var was := m.contents;
    var _ := m.Insert(2 * n + h, 0);
    Sides(m.state, h, 0, n + 1);
    assert was[2 * n + h := 0].Keys == was.Keys + {2 * n + h};
  }

  method Go(m: Map<nat, nat>, h: nat)
    requires m.Sound() && m.hash == ByParity && Half(m.state, h, 0, SLOTS) && m.contents.Keys == Keys(h, 0, SLOTS)
    modifies m
    ensures m.Sound() && Half(m.state, h, SLOTS, SLOTS) && m.contents.Keys == Keys(h, SLOTS, SLOTS)
    ensures h < 2 == |old(m.state).groups| == |m.state.groups| && m.state.groups[1 - h] == old(m.state).groups[1 - h]
  {
    hide Represents, Half, Keys, State.Sound;
    Sides(m.state, h, 0, SLOTS);
    var n := 0;
    while n < SLOTS
      invariant 0 <= n <= SLOTS && m.Sound() && Half(m.state, h, n, SLOTS) && m.contents.Keys == Keys(h, n, SLOTS)
      invariant |m.state.groups| == 2 && m.state.groups[1 - h] == old(m.state).groups[1 - h]
    {
      GoOne(m, h, n);
      n := n + 1;
    }
  }

  method GoOne(m: Map<nat, nat>, h: nat, n: nat)
    requires m.Sound() && m.hash == ByParity && n < SLOTS && Half(m.state, h, n, SLOTS) &&
      m.contents.Keys == Keys(h, n, SLOTS)
    modifies m
    ensures m.Sound() && Half(m.state, h, n + 1, SLOTS) && m.contents.Keys == Keys(h, n + 1, SLOTS)
    ensures h < 2 == |old(m.state).groups| == |m.state.groups| && m.state.groups[1 - h] == old(m.state).groups[1 - h]
  {
    hide Represents, Removed, Half, Keys, State.Reached, State.HasEmpty, State.Sound;
    Sides(m.state, h, n, SLOTS);
    HalfRemoved(m.state, h, n);
    m.SoundSizes();
    ghost var was := m.contents;
    var _ := m.Remove(2 * n + h);
    Sides(m.state, h, n + 1, SLOTS);
    assert (was - {2 * n + h}).Keys == was.Keys - {2 * n + h};
  }

  lemma Sides(s: State<nat>, h: nat, lo: nat, hi: nat)
    requires Half(s, h, lo, hi)
    ensures h < 2 == |s.groups| && s.Sound() && Keys(h, 0, 0) == Keys(h, SLOTS, SLOTS) == {}
  {
  }

  /** Thirty-two keys come and go, never more than sixteen at a time. The table is empty then, but no search for any key
      ends. */
  method FillsUp() returns (m: Map<nat, nat>)
    ensures fresh(m) && m.Sound() && m.contents == map[] && |m.state.groups| == 2
    ensures forall k, j: nat :: !Stops(m.hash, m.state, k, j)
  {
    hide Represents, Stops;
    m := new Map(ByParity, (0, 0));
    HalfStart();
    ComeAndGo(m, 0);
    OtherHalf(m.state);
    ComeAndGo(m, 1);
    NothingEmpty(m.state);
    forall k, j: nat ensures !Stops(m.hash, m.state, k, j) {
      SearchEnds(m.hash, m.state, k);
    }
  }

  lemma HalfStart()
    ensures var s := Fresh<nat>(2); Half(s, 0, 0, 0) && s.groups[1] == EmptyLine<nat>()
  {
    assert Pow2(1) == 2;
    FreshSound(ByParity, 1);
  }

  lemma OtherHalf(s: State<nat>)
    requires Half(s, 0, SLOTS, SLOTS) && s.groups[1] == EmptyLine<nat>()
    ensures Half(s, 1, 0, 0) && forall c :: 0 <= c < SLOTS ==> s.groups[0][c] == Marked
  {
  }

  lemma NothingEmpty(s: State<nat>)
    requires Half(s, 1, SLOTS, SLOTS) && forall c :: 0 <= c < SLOTS ==> s.groups[0][c] == Marked
    ensures s.Sound() && !s.HasEmpty() && s.place.Keys == {}
  {
  }

  // ---------- A value that comes back ----------

  /** A key that is added, removed and added again to an empty table gets the same slot. */
  lemma SameSlot<K>(hash: K -> Hash, k: K)
    ensures var s := Added(hash, Fresh<K>(2), k); var r := Removed(s, k);
      && k in s.place && s.Reached(hash, k) && k !in r.place && r.HasEmpty() && Fresh<K>(2).HasEmpty()
      && k in Added(hash, r, k).place && Added(hash, r, k).place[k] == s.place[k]
      && !Loaded(|Fresh<K>(2).place|, 2) && !Loaded(|r.place|, 2)
  {
    hide Path, FirstFree, RoomProbe, State.Sound, State.Reached;
    var f := Fresh<K>(2);
    assert Pow2(1) == 2;
    FreshSound(hash, 1);
    var g := Path(hash, k, 2, 0);
    assert f.groups[g][0].Empty? && !Full(f.groups[g]);
    RoomAt(hash, k, f.groups, 0);
    AddedSound(hash, f, k);
    var s := Added(hash, f, k);
    assert FirstFree(f.groups[g]) == 0 && s.place[k] == (g, 0);
    RemovedSound(s, k);
    var r := Removed(s, k);
    assert r.groups[g][1].Empty? && !Full(r.groups[g]);
    assert r.groups[g][0] == Marked && FirstFree(r.groups[g]) == 0;
    RoomAt(hash, k, r.groups, 0);
    assert r.place == map[];
  }

  /** A key that was removed is added again with the value it had, not with the value-initialized one. */
  method UpsertAfterRemove<K(==), V(==)>(hash: K -> Hash, blank: (K, V), k: K, v: V) returns (value: V)
    ensures value == v
  {
    hide Represents, Added, Removed, State.Reached, State.Sound, State.HasEmpty, Loaded, Path, Shows;
    SameSlot(hash, k);
    var m := new Map(hash, blank);
    var _ := m.Insert(k, v);
    m.SoundSizes();
    m.KeyBucket(k);
    var _ := m.Remove(k);
    m.SoundSizes();
    var bucket := m.Upsert(k);
    value := m.buckets[bucket].1;
  }
}
