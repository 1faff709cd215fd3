/** The hash table as groups of slots with keys: what searches meet, and where the operations put keys. */
module HashLayout {
  import opened Arithmetic
  import opened ControlBytes
  import Probing

  /** A slot that was never in use, one whose key was removed or moved, and one in use. */
  datatype Slot<K> = Empty | Marked | Used(key: K)

  type Line<K> = s: seq<Slot<K>> | |s| == SLOTS
    witness [Empty, Empty, Empty, Empty, Empty, Empty, Empty, Empty, Empty, Empty, Empty, Empty, Empty, Empty, Empty,
      Empty]

  /** No slot is empty: a search goes on to the next group. */
  predicate Full<K>(s: seq<Slot<K>>) {
    forall c :: 0 <= c < |s| ==> !s[c].Empty?
  }

  /** The first slot that is not in use. */
  function FirstFree<K>(s: seq<Slot<K>>): (c: nat)
    ensures c <= |s| && (forall d :: 0 <= d < c ==> s[d].Used?) && (c < |s| ==> !s[c].Used?)
  {
    if s == [] || !s[0].Used? then 0 else 1 + FirstFree(s[1..])
  }

  function EmptyLine<K>(): (s: Line<K>)
    ensures forall c :: 0 <= c < SLOTS ==> s[c] == Empty
  {
    seq(SLOTS, _ => Empty)
  }

  function EmptyLines<K>(n: nat): (s: seq<Line<K>>)
    ensures |s| == n && forall g :: 0 <= g < n ==> s[g] == EmptyLine<K>()
  {
    seq(n, _ => EmptyLine<K>())
  }

  function Start<K>(hash: K -> Hash, k: K): nat {
    DoHash(hash(k)) / 256
  }

  /** The group that probe j for key k examines, among n groups. */
  function Path<K>(hash: K -> Hash, k: K, n: nat, j: nat): (g: nat)
    requires n > 0
    ensures g < n
  {
    Probing.Group(Start(hash, k), n, j)
  }

  /** The first group on the way to k. */
  function Home<K>(hash: K -> Hash, k: K, n: nat): (g: nat)
    requires n > 0
    ensures g < n
  {
    Path(hash, k, n, 0)
  }

  /** The slots, and the group and slot of every key. */
  datatype State<!K> = State(groups: seq<Line<K>>, place: map<K, (nat, nat)>) {

    ghost predicate Shaped() {
      |groups| > 0 && exists m: nat :: |groups| == Pow2(m)
    }

    ghost predicate Sits(k: K)
      requires k in place
    {
      var (g, c) := place[k];
      g < |groups| && c < SLOTS && groups[g][c] == Used(k)
    }

    /** A slot in use is the place of its key. */
    ghost predicate Owned(g: nat, c: nat)
      requires g < |groups| && c < SLOTS
    {
      groups[g][c].Used? ==> groups[g][c].key in place && place[groups[g][c].key] == (g, c)
    }

    ghost predicate Sound() {
      && Shaped()
      && (forall k :: k in place ==> Sits(k))
      && (forall g, c :: 0 <= g < |groups| && 0 <= c < SLOTS ==> Owned(g, c))
    }

    ghost predicate HasEmpty() {
      exists g :: 0 <= g < |groups| && !Full(groups[g])
    }

    /** Probe j for k leads to the group of k, and no search ends before. */
    ghost predicate ReachedAt(hash: K -> Hash, k: K, j: nat)
      requires |groups| > 0 && k in place
    {
      && j < |groups| && Path(hash, k, |groups|, j) == place[k].0
      && forall i :: 0 <= i < j ==> Full(groups[Path(hash, k, |groups|, i)])
    }

    /** A search for k finds it. */
    ghost predicate Reached(hash: K -> Hash, k: K)
      requires |groups| > 0 && k in place
    {
      exists j: nat :: ReachedAt(hash, k, j)
    }

    ghost predicate AllReached(hash: K -> Hash)
      requires |groups| > 0
    {
      forall k :: k in place ==> Reached(hash, k)
    }

    /** Every key is in its first group. */
    ghost predicate AllHome(hash: K -> Hash)
      requires |groups| > 0
    {
      forall k :: k in place ==> place[k].0 == Home(hash, k, |groups|)
    }
  }

  ghost function Fresh<K>(n: nat): State<K> {
    State(EmptyLines(n), map[])
  }

  lemma FreshSound<K>(hash: K -> Hash, m: nat)
    ensures Fresh<K>(Pow2(m)).Sound() && Fresh<K>(Pow2(m)).AllReached(hash)
  {
  }

  // ---------- Adding and removing ----------

  /** The first probe from j on that leads to a group with an empty slot, or the number of groups. */
  ghost function RoomProbe<K>(hash: K -> Hash, k: K, groups: seq<Line<K>>, j: nat): (r: nat)
    requires j <= |groups| && |groups| > 0
    ensures j <= r <= |groups| && forall i :: j <= i < r ==> Full(groups[Path(hash, k, |groups|, i)])
    ensures r < |groups| ==> !Full(groups[Path(hash, k, |groups|, r)])
    decreases |groups| - j
  {
    if j == |groups| || !Full(groups[Path(hash, k, |groups|, j)]) then j else RoomProbe(hash, k, groups, j + 1)
  }

  /** The first probe from j on that leads to a group with a slot that is not in use, or the number of groups. */
  ghost function FreeProbe<K>(hash: K -> Hash, k: K, groups: seq<Line<K>>, j: nat): (r: nat)
    requires j <= |groups| && |groups| > 0
    ensures j <= r <= |groups| && forall i :: j <= i < r ==> FirstFree(groups[Path(hash, k, |groups|, i)]) == SLOTS
    ensures r < |groups| ==> FirstFree(groups[Path(hash, k, |groups|, r)]) < SLOTS
    decreases |groups| - j
  {
    if j == |groups| || FirstFree(groups[Path(hash, k, |groups|, j)]) < SLOTS then j
      else FreeProbe(hash, k, groups, j + 1)
  }

  /** k in the first free slot of group g, if there is one. */
  ghost function PutIn<K>(s: State<K>, k: K, g: nat): (r: State<K>)
    requires g < |s.groups|
    ensures |r.groups| == |s.groups|
  {
    var c := FirstFree(s.groups[g]);
    if c < SLOTS then State(s.groups[g := s.groups[g][c := Used(k)]], s.place[k := (g, c)]) else s
  }

  /** A new key goes to the first group on its way that has an empty slot. */
  ghost function Added<K>(hash: K -> Hash, s: State<K>, k: K): (r: State<K>)
    requires |s.groups| > 0
    ensures |r.groups| == |s.groups|
  {
    PutIn(s, k, Path(hash, k, |s.groups|, RoomProbe(hash, k, s.groups, 0)))
  }

  /** The slot of k is marked. */
  ghost function Removed<K>(s: State<K>, k: K): (r: State<K>)
    ensures |r.groups| == |s.groups|
  {
    if k in s.place && s.place[k].0 < |s.groups| && s.place[k].1 < SLOTS
    then State(s.groups[s.place[k].0 := s.groups[s.place[k].0][s.place[k].1 := Marked]], s.place - {k})
    else s
  }

  /** k leaves its slot for the first free slot on its way. */
  ghost function Moved<K>(hash: K -> Hash, s: State<K>, k: K): (r: State<K>)
    requires |s.groups| > 0
    ensures |r.groups| == |s.groups|
  {
    var m := Removed(s, k);
    PutIn(m, k, Path(hash, k, |m.groups|, FreeProbe(hash, k, m.groups, 0)))
  }

  /** Every group that was full is full. */
  ghost predicate StaysFull<K>(a: seq<Line<K>>, b: seq<Line<K>>) {
    |a| == |b| && forall g :: 0 <= g < |a| && Full(a[g]) ==> Full(b[g])
  }

  lemma PutSound<K>(s: State<K>, k: K, g: nat)
    requires s.Sound() && k !in s.place && g < |s.groups| && FirstFree(s.groups[g]) < SLOTS
    ensures var r := PutIn(s, k, g);
      && r.Sound() && r.place == s.place[k := (g, FirstFree(s.groups[g]))] && StaysFull(s.groups, r.groups)
  {
    var c := FirstFree(s.groups[g]);
    WrittenSound(s, g, c, Used(k), PutIn(s, k, g));
  }

  /** A write to a slot that is not in use or whose key is dropped. */
  lemma WrittenSound<K>(s: State<K>, g: nat, c: nat, slot: Slot<K>, r: State<K>)
    requires s.Sound() && g < |s.groups| && c < SLOTS && !slot.Empty? && (s.groups[g][c].Used? ==> slot.Marked?)
    requires slot.Used? ==> slot.key !in s.place
    requires r.groups == s.groups[g := s.groups[g][c := slot]]
    requires r.place == if slot.Used? then s.place[slot.key := (g, c)]
                        else if s.groups[g][c].Used? then s.place - {s.groups[g][c].key} else s.place
    ensures r.Sound() && StaysFull(s.groups, r.groups)
  {
    assert s.Owned(g, c);
    forall x | x in r.place ensures r.Sits(x) {
      if x in s.place {
        assert s.Sits(x) && s.groups[s.place[x].0][s.place[x].1] == Used(x);
      }
    }
    forall h, d | 0 <= h < |r.groups| && 0 <= d < SLOTS ensures r.Owned(h, d) {
      assert s.Owned(h, d);
      assert r.groups[h][d] == if h == g && d == c then slot else s.groups[h][d];
    }
  }

  lemma RemovedSound<K>(s: State<K>, k: K)
    requires s.Sound() && k in s.place
    ensures var r := Removed(s, k); r.Sound() && r.place == s.place - {k} && StaysFull(s.groups, r.groups)
    ensures s.place[k].0 < |s.groups| && s.place[k].1 < SLOTS
    ensures FirstFree(Removed(s, k).groups[s.place[k].0]) < SLOTS
  {
    assert s.Sits(k);
    var (g, c) := s.place[k];
    var r := Removed(s, k);
    WrittenSound(s, g, c, Marked, r);
    assert r.groups[g][c] == Marked;
  }

  lemma StaysReached<K>(hash: K -> Hash, s: State<K>, r: State<K>, x: K)
    requires |s.groups| > 0 && StaysFull(s.groups, r.groups) && x in s.place && s.Reached(hash, x)
    requires x in r.place && r.place[x].0 == s.place[x].0
    ensures r.Reached(hash, x)
  {
    hide Full, Path;
    var j: nat :| s.ReachedAt(hash, x, j);
    assert r.ReachedAt(hash, x, j);
  }

  /** Some probe leads to every group. */
  lemma ProbeTo<K>(hash: K -> Hash, k: K, s: State<K>, g: nat) returns (j: nat)
    requires s.Shaped() && g < |s.groups|
    ensures j < |s.groups| && Path(hash, k, |s.groups|, j) == g
  {
    var m: nat :| |s.groups| == Pow2(m);
    j := Probing.ProbeOf(Start(hash, k), m, g);
  }

  /** A search for k stops at probe j: it finds k there or sees an empty slot, and did not before. */
  ghost predicate Stops<K>(hash: K -> Hash, s: State<K>, k: K, j: nat)
    requires |s.groups| > 0
  {
    var g := Path(hash, k, |s.groups|, j);
    (exists c :: 0 <= c < SLOTS && s.groups[g][c] == Used(k)) || !Full(s.groups[g])
  }

  /** The search for a key ends exactly when the key is there or some slot is empty. */
  lemma SearchEnds<K>(hash: K -> Hash, s: State<K>, k: K)
    requires s.Sound()
    ensures (exists j: nat :: Stops(hash, s, k, j)) <==> k in s.place || s.HasEmpty()
  {
    if j: nat :| Stops(hash, s, k, j) {
      var g := Path(hash, k, |s.groups|, j);
      if c :| 0 <= c < SLOTS && s.groups[g][c] == Used(k) {
        assert s.Owned(g, c);
      }
    }
    if k in s.place {
      assert s.Sits(k);
      var j := ProbeTo(hash, k, s, s.place[k].0);
      assert s.groups[s.place[k].0][s.place[k].1] == Used(k);
      assert Stops(hash, s, k, j);
    } else if s.HasEmpty() {
      var g :| 0 <= g < |s.groups| && !Full(s.groups[g]);
      var j := ProbeTo(hash, k, s, g);
      assert Stops(hash, s, k, j);
    }
  }

  lemma RoomFound<K>(hash: K -> Hash, k: K, s: State<K>)
    requires s.Shaped() && s.HasEmpty()
    ensures RoomProbe(hash, k, s.groups, 0) < |s.groups|
  {
    hide Full, Path;
    var g :| 0 <= g < |s.groups| && !Full(s.groups[g]);
    var j := ProbeTo(hash, k, s, g);
  }

  lemma RoomIsFree<K>(s: seq<Slot<K>>)
    requires !Full(s)
    ensures FirstFree(s) < |s|
  {
  }

  lemma UsedIsFull<K>(s: seq<Slot<K>>)
    requires FirstFree(s) == |s|
    ensures Full(s)
  {
  }

  /** Adding a key keeps the others where they are and can be found, and the key can be found. */
  lemma AddedSound<K>(hash: K -> Hash, s: State<K>, k: K)
    requires s.Sound() && k !in s.place && s.HasEmpty()
    ensures var r := Added(hash, s, k);
      && r.Sound() && r.place.Keys == s.place.Keys + {k} && r.Reached(hash, k)
      && forall x :: x in s.place ==> r.place[x] == s.place[x] && (s.Reached(hash, x) ==> r.Reached(hash, x))
  {
    hide Full, Path, FirstFree;
    RoomFound(hash, k, s);
    var j := RoomProbe(hash, k, s.groups, 0);
    var g, r := Path(hash, k, |s.groups|, j), Added(hash, s, k);
    RoomIsFree(s.groups[g]);
    PutSound(s, k, g);
    assert r.ReachedAt(hash, k, j);
    forall x | x in s.place && s.Reached(hash, x) ensures r.Reached(hash, x) {
      StaysReached(hash, s, r, x);
    }
  }

  lemma RemovedReached<K>(hash: K -> Hash, s: State<K>, k: K)
    requires s.Sound() && k in s.place
    ensures var r := Removed(s, k);
      && r.Sound() && r.place.Keys == s.place.Keys - {k}
      && forall x :: x in r.place ==> r.place[x] == s.place[x] && (s.Reached(hash, x) ==> r.Reached(hash, x))
  {
    hide Full, Path, FirstFree;
    RemovedSound(s, k);
    var r := Removed(s, k);
    forall x | x in r.place && s.Reached(hash, x) ensures r.Reached(hash, x) {
      StaysReached(hash, s, r, x);
    }
  }

  // ---------- Doubling ----------

  ghost function Enlarged<K>(s: State<K>): (r: State<K>)
    ensures |r.groups| == 2 * |s.groups|
  {
    State(s.groups + EmptyLines(|s.groups|), s.place)
  }

  /** The first group on the way to k is a new one. */
  ghost predicate Moves<K>(hash: K -> Hash, k: K, n: nat)
    requires n > 0
  {
    Home(hash, k, 2 * n) >= n
  }

  /** Slot c of group i has been looked at: its key moves if its first group is a new one. */
  ghost function Stepped<K>(hash: K -> Hash, s: State<K>, n: nat, i: nat, c: nat): (r: State<K>)
    requires n > 0 && |s.groups| == 2 * n && i < n && c < SLOTS
    ensures |r.groups| == |s.groups|
  {
    if s.groups[i][c].Used? && Moves(hash, s.groups[i][c].key, n) then Moved(hash, s, s.groups[i][c].key) else s
  }

  /** The first p slots have been looked at. */
  ghost function Rehashed<K>(hash: K -> Hash, s: State<K>, n: nat, p: nat): (r: State<K>)
    requires n > 0 && |s.groups| == 2 * n && p <= SLOTS * n
    ensures |r.groups| == |s.groups|
  {
    if p == 0 then s else Stepped(hash, Rehashed(hash, s, n, p - 1), n, (p - 1) / SLOTS, (p - 1) % SLOTS)
  }

  ghost function Doubled<K>(hash: K -> Hash, s: State<K>): (r: State<K>)
    requires |s.groups| > 0
    ensures |r.groups| == 2 * |s.groups|
  {
    Rehashed(hash, Enlarged(s), |s.groups|, SLOTS * |s.groups|)
  }

  /** A key that moves can be found, or its slot has not been looked at; a key that stays is where it was. New groups
      have no marks. */
  ghost predicate Phase<K>(hash: K -> Hash, t: State<K>, s: State<K>, n: nat, p: nat)
    requires n > 0
  {
    && s.Sound() && |s.groups| == 2 * n && s.place.Keys == t.place.Keys
    && (forall k :: k in s.place ==> Settled(hash, t, s, n, p, k))
    && (forall g, c :: n <= g < 2 * n && 0 <= c < SLOTS ==> !s.groups[g][c].Marked?)
  }

  ghost predicate Settled<K>(hash: K -> Hash, t: State<K>, s: State<K>, n: nat, p: nat, k: K)
    requires n > 0 && |s.groups| == 2 * n && k in s.place && k in t.place
  {
    if Moves(hash, k, n) then s.Reached(hash, k) || (s.place[k].0 < n && SLOTS * s.place[k].0 + s.place[k].1 >= p)
    else s.place[k] == t.place[k]
  }

  lemma EnlargedPhase<K>(hash: K -> Hash, t: State<K>)
    requires t.Sound()
    ensures Phase(hash, t, Enlarged(t), |t.groups|, 0)
  {
    hide Path;
    var s := Enlarged(t);
    var m: nat :| |t.groups| == Pow2(m);
    assert |s.groups| == Pow2(m + 1);
    forall k | k in s.place ensures s.Sits(k) && Settled(hash, t, s, |t.groups|, 0, k) {
      assert t.Sits(k);
    }
    forall g, c | 0 <= g < |s.groups| && 0 <= c < SLOTS ensures s.Owned(g, c) {
      assert g < |t.groups| ==> t.Owned(g, c);
    }
  }

  /** The first free slot on the way to a key that has left its slot. */
  lemma MovedSound<K>(hash: K -> Hash, s: State<K>, k: K)
    requires s.Sound() && k in s.place
    ensures var r := Moved(hash, s, k);
      && r.Sound() && r.place.Keys == s.place.Keys && r.Reached(hash, k) && StaysFull(s.groups, r.groups)
      && forall x :: x in s.place && x != k ==> r.place[x] == s.place[x]
  {
    hide Full, Path, FirstFree, State.Sound;
    RemovedSound(s, k);
    var m := Removed(s, k);
    var n := |m.groups|;
    assert m.Shaped() by { SoundShaped(m); }
    var last := ProbeTo(hash, k, m, s.place[k].0);
    var j := FreeProbe(hash, k, m.groups, 0);
    var g, r := Path(hash, k, n, j), Moved(hash, s, k);
    assert j <= last;
    PutSound(m, k, g);
    forall i | 0 <= i < j ensures Full(r.groups[Path(hash, k, n, i)]) {
      UsedIsFull(m.groups[Path(hash, k, n, i)]);
    }
    assert r.ReachedAt(hash, k, j);
  }

  lemma SoundShaped<K>(s: State<K>)
    requires s.Sound()
    ensures s.Shaped() && |s.groups| > 0
  {
  }

  lemma MovedMarks<K>(hash: K -> Hash, s: State<K>, k: K)
    requires s.Sound() && k in s.place
    ensures var r := Moved(hash, s, k);
      forall g, c :: 0 <= g < |r.groups| && 0 <= c < SLOTS && r.groups[g][c].Marked? ==>
        s.groups[g][c].Marked? || (g, c) == s.place[k]
  {
    hide Path, FreeProbe;
    assert s.Sits(k);
  }

  lemma MovedSettled<K>(hash: K -> Hash, t: State<K>, s: State<K>, n: nat, i: nat, c: nat, k: K, r: State<K>, x: K)
    requires n > 0 && i < n && c < SLOTS && Phase(hash, t, s, n, SLOTS * i + c)
    requires s.groups[i][c] == Used(k) && k in s.place && Moves(hash, k, n) && x in s.place && x in r.place
    requires StaysFull(s.groups, r.groups)
    requires if x == k then r.Reached(hash, k) else r.place[x] == s.place[x]
    ensures Settled(hash, t, r, n, SLOTS * i + c + 1, x)
  {
    hide Path, State.Reached, State.Owned, Moves, Full;
    assert s.Sits(x) && Settled(hash, t, s, n, SLOTS * i + c, x);
    if x != k && s.Reached(hash, x) { StaysReached(hash, s, r, x); }
  }

  lemma PassedSettled<K>(hash: K -> Hash, t: State<K>, s: State<K>, n: nat, i: nat, c: nat, x: K)
    requires n > 0 && i < n && c < SLOTS && Phase(hash, t, s, n, SLOTS * i + c)
    requires !(s.groups[i][c].Used? && Moves(hash, s.groups[i][c].key, n)) && x in s.place
    ensures Settled(hash, t, s, n, SLOTS * i + c + 1, x)
  {
    hide State.Reached, State.Owned, Moves;
    assert s.Sits(x) && Settled(hash, t, s, n, SLOTS * i + c, x);
  }

  lemma SteppedPhase<K>(hash: K -> Hash, t: State<K>, s: State<K>, n: nat, i: nat, c: nat)
    requires n > 0 && i < n && c < SLOTS && Phase(hash, t, s, n, SLOTS * i + c)
    ensures Phase(hash, t, Stepped(hash, s, n, i, c), n, SLOTS * i + c + 1)
  {
    hide Full, Path, FirstFree, State.Reached, Settled, Moved, Moves, State.Sits, StaysFull;
    assert s.Owned(i, c);
    var r := Stepped(hash, s, n, i, c);
    if s.groups[i][c].Used? && Moves(hash, s.groups[i][c].key, n) {
      MovedSound(hash, s, s.groups[i][c].key);
      MovedMarks(hash, s, s.groups[i][c].key);
      forall x | x in r.place ensures Settled(hash, t, r, n, SLOTS * i + c + 1, x) {
        MovedSettled(hash, t, s, n, i, c, s.groups[i][c].key, r, x);
      }
    } else {
      forall x | x in r.place ensures Settled(hash, t, r, n, SLOTS * i + c + 1, x) {
        PassedSettled(hash, t, s, n, i, c, x);
      }
    }
  }

  lemma {:induction false} RehashedPhase<K>(hash: K -> Hash, t: State<K>, p: nat)
    requires t.Sound() && p <= SLOTS * |t.groups|
    ensures Phase(hash, t, Rehashed(hash, Enlarged(t), |t.groups|, p), |t.groups|, p)
  {
    hide Phase, Stepped, State.Sound;
    SoundShaped(t);
    if p == 0 {
      EnlargedPhase(hash, t);
    } else {
      RehashedPhase(hash, t, p - 1);
      SteppedPhase(hash, t, Rehashed(hash, Enlarged(t), |t.groups|, p - 1), |t.groups|, (p - 1) / SLOTS,
        (p - 1) % SLOTS);
    }
  }

  /** Doubling keeps the keys; those that move can be found, and the others stay where they are. */
  lemma DoubledSound<K>(hash: K -> Hash, s: State<K>)
    requires s.Sound()
    ensures var d, n := Doubled(hash, s), |s.groups|;
      && d.Sound() && d.place.Keys == s.place.Keys
      && (forall k :: k in s.place ==> if Moves(hash, k, n) then d.Reached(hash, k) else d.place[k] == s.place[k])
      && (forall g, c :: n <= g < 2 * n && 0 <= c < SLOTS ==> !d.groups[g][c].Marked?)
  {
    hide Rehashed, State.Reached, Moves;
    RehashedPhase(hash, s, SLOTS * |s.groups|);
    var d, n := Doubled(hash, s), |s.groups|;
    forall k | k in s.place ensures if Moves(hash, k, n) then d.Reached(hash, k) else d.place[k] == s.place[k] {
      assert d.Sits(k) && Settled(hash, s, d, n, SLOTS * n, k);
    }
  }

  /** Reduction modulo twice a number. */
  lemma DoubleModulus(x: nat, p: nat)
    requires p > 0
    ensures x % (2 * p) == x % p || x % (2 * p) == x % p + p
  {
    Quotient(x, p);
    var q, r := x / p, x % p;
    if q % 2 == 0 {
      assert q / 2 * (2 * p) + r == x;
      Digits(q / 2, r, 2 * p);
    } else {
      assert q / 2 * (2 * p) + (r + p) == x by { assert q == 2 * (q / 2) + 1; }
      Digits(q / 2, r + p, 2 * p);
    }
  }

  lemma Homes<K>(hash: K -> Hash, k: K, n: nat)
    requires n > 0
    ensures Home(hash, k, 2 * n) == if Moves(hash, k, n) then Home(hash, k, n) + n else Home(hash, k, n)
  {
    DoubleModulus(Start(hash, k), n);
  }

  /** A key that is not in its first group. */
  ghost predicate Displaced<K>(hash: K -> Hash, s: State<K>, k: K)
    requires |s.groups| > 0 && k in s.place
  {
    s.place[k].0 != Home(hash, k, |s.groups|)
  }

  lemma HomeReached<K>(hash: K -> Hash, s: State<K>, k: K)
    requires |s.groups| > 0 && k in s.place && !Displaced(hash, s, k)
    ensures s.Reached(hash, k)
  {
    assert s.ReachedAt(hash, k, 0);
  }

  /** Doubling loses no key exactly when the displaced keys that stay can still be found on their new ways. */
  lemma DoublingKeeps<K>(hash: K -> Hash, s: State<K>)
    requires s.Sound()
    ensures var d, n := Doubled(hash, s), |s.groups|;
      && d.place.Keys == s.place.Keys
      && (d.AllReached(hash) <==> forall k :: k in s.place && Displaced(hash, s, k) && !Moves(hash, k, n) ==>
           d.Reached(hash, k))
  {
    hide Doubled, State.Reached, Moves, Home, State.Sound;
    SoundShaped(s);
    DoubledSound(hash, s);
    var d, n := Doubled(hash, s), |s.groups|;
    forall k | k in s.place && !(Displaced(hash, s, k) && !Moves(hash, k, n)) ensures d.Reached(hash, k) {
      if !Moves(hash, k, n) {
        Homes(hash, k, n);
        HomeReached(hash, d, k);
      }
    }
  }

  /** The keys of p slots in use from group n on. */
  lemma {:induction false} KeysFrom<K>(s: State<K>, n: nat, p: nat) returns (keys: set<K>)
    requires s.Sound() && SLOTS * n + p <= SLOTS * |s.groups|
    requires forall g, c :: n <= g < |s.groups| && 0 <= c < SLOTS ==> s.groups[g][c].Used?
    ensures |keys| == p && keys <= s.place.Keys
    ensures forall k :: k in keys ==> SLOTS * s.place[k].0 + s.place[k].1 < SLOTS * n + p && s.place[k].1 < SLOTS
    decreases p
  {
    if p == 0 {
      keys := {};
    } else {
      keys := KeysFrom(s, n, p - 1);
      var g, c := n + (p - 1) / SLOTS, (p - 1) % SLOTS;
      assert s.Owned(g, c);
      var k := s.groups[g][c].key;
      assert s.place[k] == (g, c);
      keys := keys + {k};
    }
  }

  /** After doubling some slot is empty. */
  lemma DoubledHasEmpty<K>(hash: K -> Hash, s: State<K>)
    requires s.Sound() && |s.place| < SLOTS * |s.groups|
    ensures Doubled(hash, s).HasEmpty()
  {
    hide Doubled, State.Reached, Moves;
    DoubledSound(hash, s);
    var d, n := Doubled(hash, s), |s.groups|;
    if !d.HasEmpty() {
      forall g, c | n <= g < 2 * n && 0 <= c < SLOTS ensures d.groups[g][c].Used? {
        assert Full(d.groups[g]);
      }
      var keys := KeysFrom(d, n, SLOTS * n);
      SubsetSize(keys, d.place.Keys);
    }
  }

  lemma SubsetSize<T>(s: set<T>, t: set<T>)
    requires s <= t
    ensures |s| <= |t|
  {
    assert t == s + (t - s);
  }
}
