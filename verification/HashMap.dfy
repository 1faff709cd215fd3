/** The hash table `Map` with one value per key: probing, and the operations that search for a key. */
module HashMap {
  import opened Arithmetic
  import opened Bits
  import opened ControlBytes
  import opened HashCrowds
  import opened HashLayout
  import opened HashRuns
  import Probing

  // ---------- Control bytes and buckets of a layout ----------

  /** What the control byte and the bucket of a slot are. A slot that was never in use has a value-initialized
      bucket. */
  ghost predicate SlotShows<K, V>(hash: K -> Hash, blank: (K, V), contents: map<K, V>, b: Byte, item: (K, V),
                                  slot: Slot<K>)
  {
    match slot
    case Empty => b == 0 && item == blank
    case Marked => b == SENTINEL
    case Used(k) => b == Tag(DoHash(hash(k))) && k in contents && item == (k, contents[k])
  }

  ghost predicate Shows<K, V>(hash: K -> Hash, blank: (K, V), contents: map<K, V>, control: seq<Group>,
                              buckets: seq<(K, V)>,
                              groups: seq<Line<K>>) {
    && |control| == |groups| && |buckets| == SLOTS * |groups|
    && forall g, c :: 0 <= g < |groups| && 0 <= c < SLOTS ==>
      SlotShows(hash, blank, contents, control[g][c], buckets[SLOTS * g + c], groups[g][c])
  }

  /** One slot is written. */
  lemma ShowsWrite<K, V>(hash: K -> Hash, blank: (K, V), contents: map<K, V>, control: seq<Group>, buckets: seq<(K, V)>,
                         groups: seq<Line<K>>, g: nat, c: nat, b: Byte, item: (K, V), slot: Slot<K>)
    requires Shows(hash, blank, contents, control, buckets, groups) && g < |groups| && c < SLOTS
    requires SlotShows(hash, blank, contents, b, item, slot)
    ensures SLOTS * g + c < |buckets|
    ensures Shows(hash, blank, contents, control[g := control[g][c := b]], buckets[SLOTS * g + c := item],
                  groups[g := groups[g][c := slot]])
  {
    hide SlotShows;
    var control', buckets', groups' := control[g := control[g][c := b]], buckets[SLOTS * g + c := item],
      groups[g := groups[g][c := slot]];
    forall h, d | 0 <= h < |groups'| && 0 <= d < SLOTS
      ensures SlotShows(hash, blank, contents, control'[h][d], buckets'[SLOTS * h + d], groups'[h][d])
    {
      assert SlotShows(hash, blank, contents, control[h][d], buckets[SLOTS * h + d], groups[h][d]);
    }
  }

  /** The contents change for a key that is in no slot, or is no longer. */
  lemma ShowsOther<K, V>(hash: K -> Hash, blank: (K, V), contents: map<K, V>, contents': map<K, V>, control: seq<Group>,
                         buckets: seq<(K, V)>,
                         s: State<K>)
    requires Shows(hash, blank, contents, control, buckets, s.groups) && s.Sound()
    requires forall k :: k in s.place ==>
      (k in contents <==> k in contents') && (k in contents ==> contents[k] == contents'[k])
    ensures Shows(hash, blank, contents', control, buckets, s.groups)
  {
    forall g, c | 0 <= g < |s.groups| && 0 <= c < SLOTS
      ensures SlotShows(hash, blank, contents', control[g][c], buckets[SLOTS * g + c], s.groups[g][c])
    {
      assert SlotShows(hash, blank, contents, control[g][c], buckets[SLOTS * g + c], s.groups[g][c]) && s.Owned(g, c);
    }
  }

  lemma ShowsSlot<K, V>(hash: K -> Hash, blank: (K, V), contents: map<K, V>, control: seq<Group>, buckets: seq<(K, V)>,
                        groups: seq<Line<K>>, g: nat, c: nat)
    requires Shows(hash, blank, contents, control, buckets, groups) && g < |groups| && c < SLOTS
    ensures |control| == |groups| && SLOTS * g + c < |buckets|
    ensures (control[g][c] == 0 <==> groups[g][c].Empty?) && (Live(control[g][c]) <==> groups[g][c].Used?)
    ensures SlotShows(hash, blank, contents, control[g][c], buckets[SLOTS * g + c], groups[g][c])
  {
    assert SlotShows(hash, blank, contents, control[g][c], buckets[SLOTS * g + c], groups[g][c]);
    assert forall k :: Live(Tag(DoHash(hash(k))));
  }

  lemma EmptyBlank<K, V>(hash: K -> Hash, blank: (K, V), contents: map<K, V>, control: seq<Group>, buckets: seq<(K, V)>,
                         groups: seq<Line<K>>, g: nat, c: nat)
    requires Shows(hash, blank, contents, control, buckets, groups) && g < |groups| && c < SLOTS
    ensures SLOTS * g + c < |buckets| && (groups[g][c].Empty? ==> buckets[SLOTS * g + c] == blank)
  {
    hide Shows;
    ShowsSlot(hash, blank, contents, control, buckets, groups, g, c);
  }

  /** Searches and insertions see in the control bytes what they need to see. */
  lemma ShowsGroup<K, V>(hash: K -> Hash, blank: (K, V), contents: map<K, V>, control: seq<Group>, buckets: seq<(K, V)>,
                         groups: seq<Line<K>>, g: nat)
    requires Shows(hash, blank, contents, control, buckets, groups) && g < |groups|
    ensures |control| == |groups| && FreeByte(control[g]) == FirstFree(groups[g]) &&
      (NoZero(control[g]) <==> Full(groups[g]))
  {
    hide Shows, Live;
    forall c | 0 <= c < SLOTS
      ensures |control| == |groups| && (control[g][c] == 0 <==> groups[g][c].Empty?) &&
        (Live(control[g][c]) <==> groups[g][c].Used?)
    {
      ShowsSlot(hash, blank, contents, control, buckets, groups, g, c);
    }
    SizesShown(hash, blank, contents, control, buckets, groups);
  }

  lemma SizesShown<K, V>(hash: K -> Hash, blank: (K, V), contents: map<K, V>, control: seq<Group>, buckets: seq<(K, V)>,
                         groups: seq<Line<K>>)
    requires Shows(hash, blank, contents, control, buckets, groups)
    ensures |control| == |groups| && |buckets| == SLOTS * |groups|
  {
  }

  /** A slot whose control byte and key are the ones looked for. */
  predicate Hit<K(==), V>(control: seq<Group>, buckets: seq<(K, V)>, g: nat, c: nat, target: Byte, k: K)
    requires g < |control| && c < SLOTS && |buckets| == SLOTS * |control|
  {
    control[g][c] == target && buckets[SLOTS * g + c].0 == k
  }

  lemma ShowsHit<K, V>(hash: K -> Hash, blank: (K, V), contents: map<K, V>, control: seq<Group>, buckets: seq<(K, V)>,
                       groups: seq<Line<K>>, g: nat, c: nat, k: K)
    requires Shows(hash, blank, contents, control, buckets, groups) && g < |groups| && c < SLOTS
    ensures |control| == |groups| && |buckets| == SLOTS * |groups|
    ensures Hit(control, buckets, g, c, Tag(DoHash(hash(k))), k) <==> groups[g][c] == Used(k)
  {
    ShowsSlot(hash, blank, contents, control, buckets, groups, g, c);
    assert Live(Tag(DoHash(hash(k))));
  }

  function Blanks<T>(blank: T, n: nat): (s: seq<T>)
    ensures |s| == n && forall i :: 0 <= i < n ==> s[i] == blank
  {
    seq(n, _ => blank)
  }

  lemma FreshShown<K, V>(hash: K -> Hash, blank: (K, V), m: nat)
    ensures Shows(hash, blank, map[], EmptyGroups(Pow2(m)), Blanks(blank, SLOTS * Pow2(m)), Fresh<K>(Pow2(m)).groups)
    ensures Fresh<K>(Pow2(m)).Sound() && Fresh<K>(Pow2(m)).AllReached(hash)
  {
    FreshSound(hash, m);
  }

  /** The number of groups for a capacity, when 2^sz has been reached: twice the first power of two above it. */
  function GroupsFor(cap: nat, sz: nat): (n: nat)
    ensures n > 2 * cap && exists m: nat :: n == Pow2(m)
    decreases if Pow2(sz) <= cap then cap + 1 - Pow2(sz) else 0
  {
    if Pow2(sz) <= cap then GroupsFor(cap, sz + 1) else Pow2(sz + 1)
  }

  /** The fields of a map are those of the slots s, which hold the keys of the contents. */
  ghost predicate Represents<K, V>(hash: K -> Hash, blank: (K, V), contents: map<K, V>, control: seq<Group>,
                                   buckets: seq<(K, V)>,
                                   s: State<K>, count: nat) {
    && s.Sound() && s.place.Keys == contents.Keys && count == |contents| && 2 * count <= SLOTS * |s.groups| + 2
    && Shows(hash, blank, contents, control, buckets, s.groups)
  }

  class Map<K(==), V(==)> {
    const hash: K -> Hash
    /** A value-initialized bucket. */
    const blank: (K, V)
    var count: nat
    var control: seq<Group>
    var buckets: seq<(K, V)>
    ghost var contents: map<K, V>
    ghost var state: State<K>

    constructor (hash: K -> Hash, blank: (K, V))
      ensures Valid() && contents == map[] && this.hash == hash && this.blank == blank && state == Fresh<K>(2)
    {
      this.hash, this.blank, count := hash, blank, 0;
      control := EmptyGroups(2);
      buckets := Blanks(blank, 2 * SLOTS);
      contents, state := map[], Fresh<K>(2);
      new;
      hide Shows, State.Sound, State.AllReached;
      assert Pow2(1) == 2;
      FreshShown(hash, blank, 1);
    }

    /** `Map(cap)`: more than twice as many groups as the capacity asked for. */
    constructor WithCapacity(hash: K -> Hash, blank: (K, V), cap: nat)
      ensures Valid() && contents == map[] && this.hash == hash && this.blank == blank &&
        state == Fresh<K>(GroupsFor(cap, 0))
    {
      this.hash, this.blank, count := hash, blank, 0;
      contents, state := map[], Fresh(1);
      control, buckets := [], [];
      new;
      var sz := 0;
      while ShiftLeft(1, sz) <= cap
        invariant GroupsFor(cap, sz) == GroupsFor(cap, 0)
        decreases cap + 1 - ShiftLeft(1, sz)
      {
        sz := sz + 1;
      }
      control := EmptyGroups(ShiftLeft(1, sz + 1));
      buckets := Blanks(blank, |control| * SLOTS);
      state := Fresh(|control|);
      hide Shows, State.Sound, State.AllReached;
      assert |control| == Pow2(sz + 1);
      FreshShown(hash, blank, sz + 1);
    }

    /** The fields are those of the slots in `state`, which hold the keys of `contents`. */
    ghost predicate Sound()
      reads this
    {
      Represents(hash, blank, contents, control, buckets, state, count)
    }

    /** All keys can be found. */
    ghost predicate Valid()
      reads this
    {
      Sound() && |state.groups| > 0 && state.AllReached(hash)
    }

    /** The slots of the table that `insert` and `upsert` search: it is doubled first when it is more than half full. */
    ghost function NextState(): (s: State<K>)
      requires |state.groups| > 0
      reads `state
      ensures |s.groups| > 0
    {
      Sized(hash, state, true)
    }

    /** A search for k comes to an end: k is there, or some slot is empty. */
    ghost predicate Ends(k: K)
      reads `state
    {
      k in state.place || state.HasEmpty()
    }

    /** `insert` and `upsert` end, and do not add k a second time after a doubling has lost it. */
    ghost predicate Accepts(k: K)
      requires |state.groups| > 0
      reads `state
    {
      var d := NextState();
      (Loaded(|state.place|, |state.groups|) || Ends(k)) && (k in d.place ==> d.Reached(hash, k))
    }

    lemma SoundSizes()
      requires Sound()
      ensures |state.groups| > 0 && |control| == |state.groups| && |buckets| == SLOTS * |state.groups| &&
        |state.place| == count
      ensures state.Sound() && state.place.Keys == contents.Keys &&
        Shows(hash, blank, contents, control, buckets, state.groups)
    {
      assert |state.place| == |state.place.Keys| && |contents| == |contents.Keys|;
    }

    /** Before probe j a search for k has seen neither k nor an empty slot. */
    ghost predicate Searched(k: K, j: nat)
      requires |state.groups| > 0
      reads `state
    {
      && (forall i :: 0 <= i < j ==> Full(state.groups[Path(hash, k, |state.groups|, i)]))
      && (k in state.place ==> forall i :: 0 <= i < j ==> Path(hash, k, |state.groups|, i) != state.place[k].0)
    }

    /** The probe at which a search for k ends at the latest. */
    lemma LastProbe(k: K) returns (j: nat)
      requires state.Sound() && Ends(k)
      ensures |state.groups| > 0 && j < |state.groups|
      ensures var g := Path(hash, k, |state.groups|, j);
        if k in state.place then g == state.place[k].0 else !Full(state.groups[g])
    {
      hide Path, Full;
      if k in state.place {
        assert state.Sits(k);
        j := ProbeTo(hash, k, state, state.place[k].0);
      } else {
        var g :| 0 <= g < |state.groups| && !Full(state.groups[g]);
        j := ProbeTo(hash, k, state, g);
      }
    }

    /** What one look at a group tells. */
    lemma SearchStep(k: K, j: nat, found: bool, c: nat)
      requires Sound() && |state.groups| > 0 && Searched(k, j)
      requires found ==> c < SLOTS && state.groups[Path(hash, k, |state.groups|, j)][c] == Used(k)
      requires !found ==> forall d :: 0 <= d < SLOTS ==> state.groups[Path(hash, k, |state.groups|, j)][d] != Used(k)
      ensures var g := Path(hash, k, |state.groups|, j);
        && (found ==> k in state.place && state.place[k] == (g, c) && (j < |state.groups| ==> state.Reached(hash, k)))
        && (!found && !Full(state.groups[g]) ==> k !in state.place || !state.Reached(hash, k))
        && (!found && Full(state.groups[g]) ==> Searched(k, j + 1))
    {
      hide Path, Full, Shows;
      var g := Path(hash, k, |state.groups|, j);
      if found {
        assert state.Owned(g, c);
        assert j < |state.groups| ==> state.ReachedAt(hash, k, j);
      } else if k in state.place {
        assert state.Sits(k);
      }
    }

    /** `operator[]`: the bucket of k, after looking at no more groups than there are. It is found exactly when no slot
        that is empty is in the way. */
    method Find(k: K) returns (bucket: Option<nat>, ghost probes: nat)
      requires Sound() && Ends(k)
      ensures |state.groups| > 0 && probes <= |state.groups|
      ensures bucket.Some? <==> k in contents && state.Reached(hash, k)
      ensures bucket.Some? ==> bucket.value < |buckets| && buckets[bucket.value] == (k, contents[k])
    {
      hide Shows, State.Sound, State.Reached, Path, Full;
      SoundSizes();
      var p := new Probe(this, DoHash(hash(k)));
      ghost var last := LastProbe(k);
      var cont := true;
      probes := 0;
      while cont
        invariant probes == p.probeI <= last + 1
        invariant p.Valid() && p.table == this && p.For(k) && p.c == 0
        invariant cont ==> Searched(k, p.probeI) && p.probeI <= last
        invariant !cont ==> k !in contents || !state.Reached(hash, k)
        decreases cont, last - p.probeI
      {
        var found;
        cont, found := p.Match(k);
        SearchStep(k, p.probeI, found, p.c);
        if found {
          ShowsSlot(hash, blank, contents, control, buckets, state.groups, p.i, p.c);
          return Some(p.i * SLOTS + p.c), p.probeI + 1;
        }
        p.Next();
        probes := p.probeI;
      }
      return None, probes;
    }

    /** The search common to `insert`, `upsert` and `remove`: for k, or the first group with an empty slot on its
        way. */
    method Locate(k: K) returns (p: Probe<K, V>, found: bool)
      requires Sound() && Ends(k)
      ensures |state.groups| > 0 && fresh(p) && p.Valid() && p.table == this && p.For(k) && p.i < |state.groups|
      ensures found <==> k in contents && state.Reached(hash, k)
      ensures found ==> p.c < SLOTS && state.place[k] == (p.i, p.c)
      ensures !found ==>
        p.i == Path(hash, k, |state.groups|, RoomProbe(hash, k, state.groups, 0)) && !Full(state.groups[p.i])
    {
      hide Shows, State.Sound, State.Reached, Path, Full;
      SoundSizes();
      p := new Probe(this, DoHash(hash(k)));
      ghost var last := LastProbe(k);
      while true
        invariant p.Valid() && p.table == this && p.For(k) && p.c == 0
        invariant Searched(k, p.probeI) && p.probeI <= last
        decreases last - p.probeI
      {
        var cont;
        cont, found := p.Match(k);
        SearchStep(k, p.probeI, found, p.c);
        if found || !cont {
          RoomUnique(hash, k, state.groups, p.probeI);
          return;
        }
        p.Next();
      }
    }

    /** `insert`: sets the value of a key and returns the one before. A new key takes the first free slot of the first
        group on its way that has an empty one. */
    method Insert(k: K, v: V) returns (previous: Option<V>)
      requires Sound() && |state.groups| > 0 && Accepts(k)
      modifies this
      ensures Sound() && contents == old(contents)[k := v]
      ensures previous == if k in old(contents) then Some(old(contents[k])) else None
      ensures state == if k in old(contents) then old(NextState()) else Added(hash, old(NextState()), k)
      ensures |state.groups| > 0 && (old(NextState().AllReached(hash)) ==> Valid())
    {
      hide Shows, State.Sound, State.Reached, Doubled, Added, Loaded;
      CheckResize();
      ghost var was := state;
      SoundSizes();
      var p, found := Locate(k);
      if found {
        ShowsSlot(hash, blank, contents, control, buckets, state.groups, p.i, p.c);
        KeySlot(k);
        var copy := buckets[SLOTS * p.i + p.c].1;
        SetValue(k, v, p.i, p.c);
        return Some(copy);
      }
      var _ := AddBucket(p, k, Some(v));
      return None;
    }

    /** The slot of a key. */
    lemma KeySlot(k: K)
      requires state.Sound() && k in state.place
      ensures state.place[k].0 < |state.groups| && state.place[k].1 < SLOTS
      ensures state.groups[state.place[k].0][state.place[k].1] == Used(k)
    {
      assert state.Sits(k);
    }

    /** The bucket of a key. */
    lemma KeyBucket(k: K)
      requires Sound() && k in contents
      ensures k in state.place && SLOTS * state.place[k].0 + state.place[k].1 < |buckets|
      ensures buckets[SLOTS * state.place[k].0 + state.place[k].1] == (k, contents[k])
    {
      hide Shows, State.Sound;
      KeySlot(k);
      ShowsSlot(hash, blank, contents, control, buckets, state.groups, state.place[k].0, state.place[k].1);
    }

    /** The end of `insert` and `upsert`: takes a free slot of the group for a new key; `upsert` leaves the value of the
        bucket as it is. */
    method AddBucket(p: Probe<K, V>, k: K, v: Option<V>) returns (bucket: nat)
      requires Sound() && k !in contents && |state.groups| > 0 && 2 * count <= SLOTS * |state.groups|
      requires p.Valid() && p.table == this && p.For(k)
      requires p.i == Path(hash, k, |state.groups|, RoomProbe(hash, k, state.groups, 0)) && !Full(state.groups[p.i])
      modifies `count, `control, `buckets, `contents, `state, p`c
      ensures Sound() && state == Added(hash, old(state), k)
      ensures old(state.AllReached(hash)) ==> state.AllReached(hash)
      ensures state.place[k].1 < SLOTS && state.place[k].0 < |old(state.groups)| &&
        bucket == SLOTS * state.place[k].0 + state.place[k].1
      ensures old(state.groups)[state.place[k].0][state.place[k].1].Empty? ==>
        bucket < |old(buckets)| && old(buckets)[bucket] == blank
      ensures bucket < |buckets| == |old(buckets)|
      ensures contents == old(contents)[k := if v.Some? then v.value else old(buckets)[bucket].1]
      ensures buckets == old(buckets)[bucket := (k, contents[k])]
    {
      hide Represents, Shows, State.Sound, State.Reached, FirstFree, FreeByte, Full, Added, RoomProbe, Path, DoHash,
        Tag;
      SoundSizes();
      ghost var g := p.i;
      ghost var c := FreeSlot(k, g);
      AddShown(k, if v.Some? then v.value else buckets[SLOTS * g + c].1, g, c);
      var free := p.Insert();
      count := count + 1;
      bucket := SLOTS * p.i + p.c;
      var value := if v.Some? then v.value else buckets[bucket].1;
      buckets := buckets[bucket := (k, value)];
      contents := contents[k := value];
      state := Added(hash, state, k);
    }

    /** The slot that a new key takes. */
    lemma FreeSlot(k: K, g: nat) returns (c: nat)
      requires Sound() && k !in contents && |state.groups| > 0
      requires g == Path(hash, k, |state.groups|, RoomProbe(hash, k, state.groups, 0)) && !Full(state.groups[g])
      ensures |control| == |state.groups| && c == FreeByte(control[g]) < SLOTS && state.HasEmpty()
      ensures SLOTS * g + c < |buckets| && (state.groups[g][c].Empty? ==> buckets[SLOTS * g + c] == blank)
      ensures Added(hash, state, k) == State(state.groups[g := state.groups[g][c := Used(k)]], state.place[k := (g, c)])
    {
      hide Shows, State.Sound, State.Reached, FirstFree, FreeByte, Full, Added, RoomProbe, Path, DoHash, Tag;
      AddedAt(hash, state, k, g);
      ShowsGroup(hash, blank, contents, control, buckets, state.groups, g);
      c := FreeByte(control[g]);
      EmptyBlank(hash, blank, contents, control, buckets, state.groups, g, c);
    }

    lemma AddedReached(s: State<K>, k: K)
      requires s.Sound() && |s.groups| > 0 && k !in s.place && s.HasEmpty()
      ensures var r := Added(hash, s, k);
        r.Sound() && r.place.Keys == s.place.Keys + {k} && (s.AllReached(hash) ==> r.AllReached(hash))
    {
      hide State.Sound, State.Reached, Added;
      AddedSound(hash, s, k);
    }

    /** The fields after a key has been added. */
    lemma AddShown(k: K, v: V, g: nat, c: nat)
      requires Sound() && k !in contents && |state.groups| > 0 && state.HasEmpty() &&
        2 * count <= SLOTS * |state.groups|
      requires g < |state.groups| && c < SLOTS
      requires Added(hash, state, k) == State(state.groups[g := state.groups[g][c := Used(k)]],
        state.place[k := (g, c)])
      ensures SLOTS * g + c < |buckets| && |control| == |state.groups|
      ensures Represents(hash, blank, contents[k := v], control[g := control[g][c := Tag(DoHash(hash(k)))]],
                         buckets[SLOTS * g + c := (k, v)], Added(hash, state, k), count + 1)
      ensures state.AllReached(hash) ==> Added(hash, state, k).AllReached(hash)
    {
      hide Shows, State.Sound, State.Reached, Added;
      SizesShown(hash, blank, contents, control, buckets, state.groups);
      AddedReached(state, k);
      ShowsOther(hash, blank, contents, contents[k := v], control, buckets, state);
      ShowsWrite(hash, blank, contents[k := v], control, buckets, state.groups, g, c, Tag(DoHash(hash(k))), (k, v),
        Used(k));
      assert contents[k := v].Keys == contents.Keys + {k};
    }

    /** Overwrites the value of a key in its bucket. */
    method SetValue(k: K, v: V, g: nat, c: nat)
      requires Sound() && k in contents && state.place[k] == (g, c)
      modifies `buckets, `contents
      ensures Sound() && contents == old(contents)[k := v]
    {
      hide Shows, State.Sound;
      SoundSizes();
      KeySlot(k);
      ShowsSlot(hash, blank, contents, control, buckets, state.groups, g, c);
      SetShown(k, v, g, c);
      buckets := buckets[SLOTS * g + c := (buckets[SLOTS * g + c].0, v)];
      contents := contents[k := v];
    }

    lemma SetShown(k: K, v: V, g: nat, c: nat)
      requires Sound() && g < |state.groups| && c < SLOTS && state.groups[g][c] == Used(k) && k in contents
      ensures SLOTS * g + c < |buckets|
      ensures Shows(hash, blank, contents[k := v], control, buckets[SLOTS * g + c := (k, v)], state.groups)
      ensures contents[k := v].Keys == contents.Keys && |contents[k := v]| == |contents|
    {
      var now := buckets[SLOTS * g + c := (k, v)];
      forall h, d | 0 <= h < |state.groups| && 0 <= d < SLOTS
        ensures SlotShows(hash, blank, contents[k := v], control[h][d], now[SLOTS * h + d], state.groups[h][d])
      {
        assert SlotShows(hash, blank, contents, control[h][d], buckets[SLOTS * h + d], state.groups[h][d]);
        assert state.Owned(h, d) && state.Owned(g, c);
      }
      assert contents[k := v].Keys == contents.Keys;
    }

    /** `upsert` after the check for a resize. */
    method FindOrAdd(k: K) returns (bucket: nat)
      requires Sound() && |state.groups| > 0 && 2 * count <= SLOTS * |state.groups| && Ends(k)
      requires k in state.place ==> state.Reached(hash, k)
      modifies this
      ensures Sound() && k in contents && bucket < |buckets| == old(|buckets|) && buckets[bucket] == (k, contents[k])
      ensures state == if k in old(contents) then old(state) else Added(hash, old(state), k)
      ensures contents == if k in old(contents) then old(contents) else old(contents)[k := old(buckets)[bucket].1]
      ensures bucket == SLOTS * state.place[k].0 + state.place[k].1 && state.place[k].0 < |old(state.groups)| &&
        state.place[k].1 < SLOTS
      ensures old(state.groups)[state.place[k].0][state.place[k].1].Empty? ==> old(buckets)[bucket] == blank
      ensures |state.groups| > 0 && (old(state.AllReached(hash)) ==> Valid())
    {
      hide Shows, State.Sound, State.Reached, Full, Added;
      SoundSizes();
      var p, found := Locate(k);
      if !found {
        bucket := AddBucket(p, k, None);
      } else {
        KeySlot(k);
        ShowsSlot(hash, blank, contents, control, buckets, state.groups, p.i, p.c);
        bucket := SLOTS * p.i + p.c;
      }
    }

    /** `upsert`: the bucket of a key, which is added with whatever value the bucket holds if it is not there: the
        value-initialized one when it takes an empty slot, and otherwise the one of a removed key. */
    method Upsert(k: K) returns (bucket: nat)
      requires Sound() && |state.groups| > 0 && Accepts(k)
      modifies this
      ensures Sound() && k in contents && bucket < |buckets| && buckets[bucket] == (k, contents[k])
      ensures contents == if k in old(contents) then old(contents) else old(contents)[k := buckets[bucket].1]
      ensures state == if k in old(contents) then old(NextState()) else Added(hash, old(NextState()), k)
      ensures |state.groups| > 0 && (old(NextState().AllReached(hash)) ==> Valid())
      ensures bucket == SLOTS * state.place[k].0 + state.place[k].1 && state.place[k].0 < |state.groups| &&
        state.place[k].1 < SLOTS
      ensures old(NextState()).groups[state.place[k].0][state.place[k].1].Empty? ==> buckets[bucket].1 == blank.1
      ensures !Loaded(|old(state.place)|, |old(state.groups)|) && k !in old(contents) ==>
        bucket < |old(buckets)| && buckets[bucket].1 == old(buckets)[bucket].1
    {
      hide Shows, State.Sound, State.Reached, Doubled, Added, Loaded, Full;
      CheckResize();
      SoundSizes();
      bucket := FindOrAdd(k);
      KeySlot(k);
    }

    /** `remove`: removes a key that a search finds, and returns its value. Its slot is marked, and its bucket keeps
        what it holds. */
    method Remove(k: K) returns (removed: Option<V>)
      requires Sound() && Ends(k)
      modifies this
      ensures Sound() && |state.groups| > 0
      ensures removed == if k in old(contents) && old(state.Reached(hash, k)) then Some(old(contents[k])) else None
      ensures contents == if removed.Some? then old(contents) - {k} else old(contents)
      ensures state == if removed.Some? then Removed(old(state), k) else old(state)
      ensures buckets == old(buckets) && (old(state.AllReached(hash)) ==> Valid())
    {
      hide Represents, Shows, State.Sound, State.Reached, Removed;
      SoundSizes();
      var p, found := Locate(k);
      if !found {
        return None;
      }
      RemoveShown(k, p.i, p.c);
      p.Remove();
      contents, state := contents - {k}, Removed(state, k);
      return Some(buckets[SLOTS * p.i + p.c].1);
    }

    /** The fields after a key has been removed. */
    lemma RemoveShown(k: K, g: nat, c: nat)
      requires Sound() && k in contents && state.place[k] == (g, c)
      ensures |state.groups| > 0 && g < |state.groups| == |control| && c < SLOTS && SLOTS * g + c < |buckets| &&
        count > 0
      ensures buckets[SLOTS * g + c] == (k, contents[k])
      ensures Represents(hash, blank, contents - {k}, control[g := control[g][c := SENTINEL]], buckets,
        Removed(state, k), count - 1)
      ensures state.AllReached(hash) ==> Removed(state, k).AllReached(hash)
    {
      hide Shows, State.Sound, State.Reached;
      SoundSizes();
      KeySlot(k);
      RemovedSound(state, k);
      RemovedReached(hash, state, k);
      ShowsSlot(hash, blank, contents, control, buckets, state.groups, g, c);
      MarkShown(k, g, c);
      assert (contents - {k}).Keys == contents.Keys - {k};
      ShowsOther(hash, blank, contents, contents - {k}, control[g := control[g][c := SENTINEL]], buckets,
        Removed(state, k));
    }

    /** `check_resize`: doubles the table when it is more than half full. */
    method CheckResize()
      requires Sound() && |state.groups| > 0
      modifies this
      ensures Sound() && state == old(NextState()) && contents == old(contents) && 2 * count <= SLOTS * |state.groups|
      ensures old(Loaded(|state.place|, |state.groups|)) ==> state.HasEmpty()
      ensures !old(Loaded(|state.place|, |state.groups|)) ==> buckets == old(buckets)
    {
      hide Shows, State.Sound, Doubled;
      SoundSizes();
      if 2 * count > |buckets| {
        Resize(2 * |control|);
      }
    }

    /** `resize` to twice the size. */
    method Resize(to: nat)
      requires Sound() && |state.groups| > 0 && to == 2 * |control|
      modifies this
      ensures Sound() && state == Doubled(hash, old(state)) && |control| == to && contents == old(contents) &&
        count == old(count)
      ensures state.HasEmpty()
    {
      hide Shows, State.Sound, Doubled, Rehashed;
      SoundSizes();
      ghost var was := state;
      var prev := |control|;
      Enlarge(to);
      var i := 0;
      while i < prev
        invariant 0 <= i <= prev && Rehashing(was, SLOTS * i)
        invariant contents == old(contents) && count == old(count)
      {
        RehashGroup(prev, i, was);
        i := i + 1;
      }
      SizesShown(hash, blank, contents, control, buckets, state.groups);
      DoubledSound(hash, was);
      DoubledHasEmpty(hash, was);
      assert Doubled(hash, was) == state by { DoubledIs(hash, was); }
    }

    /** The first p slots have been looked at. */
    ghost predicate Rehashing(was: State<K>, p: nat)
      reads this
    {
      && was.Sound() && |was.groups| > 0 && p <= SLOTS * |was.groups|
      && state == Rehashed(hash, Enlarged(was), |was.groups|, p)
      && was.place.Keys == contents.Keys
      && Shows(hash, blank, contents, control, buckets, state.groups)
    }

    /** The beginning of `resize`: as many empty groups again. */
    method Enlarge(to: nat)
      requires Sound() && |state.groups| > 0 && to == 2 * |control|
      modifies `control, `buckets, `state
      ensures Rehashing(old(state), 0)
    {
      hide Shows, State.Sound;
      SoundSizes();
      EnlargedShown(to);
      control := control + EmptyGroups(to - |control|);
      buckets := buckets + Blanks(blank, to * SLOTS - |buckets|);
      state := Enlarged(state);
    }

    lemma EnlargedShown(to: nat)
      requires Sound() && |control| == |state.groups| && to == 2 * |control| && |buckets| == SLOTS * |control|
      ensures Shows(hash, blank, contents, control + EmptyGroups(to - |control|),
        buckets + Blanks(blank, to * SLOTS - |buckets|),
                    Enlarged(state).groups)
    {
      hide State.Sound;
      var control', buckets', groups' := control + EmptyGroups(to - |control|),
        buckets + Blanks(blank, to * SLOTS - |buckets|), Enlarged(state).groups;
      forall g, c | 0 <= g < |groups'| && 0 <= c < SLOTS
        ensures SlotShows(hash, blank, contents, control'[g][c], buckets'[SLOTS * g + c], groups'[g][c])
      {
        if g < |control| {
          assert SlotShows(hash, blank, contents, control[g][c], buckets[SLOTS * g + c], state.groups[g][c]);
        }
      }
    }

    /** One round of `resize`: distributes the keys of an old group. */
    method RehashGroup(prev: nat, i: nat, ghost was: State<K>)
      requires i < prev == |was.groups| && Rehashing(was, SLOTS * i)
      modifies `control, `buckets, `state
      ensures Rehashing(was, SLOTS * (i + 1))
    {
      hide Rehashing;
      var c := 0;
      while c < SLOTS
        invariant 0 <= c <= SLOTS && Rehashing(was, SLOTS * i + c)
      {
        RehashSlot(prev, i, c, was);
        c := c + 1;
      }
    }

    /** A key that belongs to the new half: its slot is marked, and it goes to the first free slot on its way. */
    method MoveBucket(i: nat, c: nat, bucket: (K, V), h: Hash)
      requires state.Sound() && Shows(hash, blank, contents, control, buckets, state.groups) &&
        |control| == |state.groups|
      requires i < |state.groups| && c < SLOTS && state.groups[i][c] == Used(bucket.0) && h == DoHash(hash(bucket.0))
      requires bucket.0 in contents && bucket == (bucket.0, contents[bucket.0])
      modifies `control, `buckets, `state
      ensures state == Moved(hash, old(state), bucket.0)
      ensures Shows(hash, blank, contents, control, buckets, state.groups)
    {
      hide Shows, State.Sound, FreeProbe, Path, FirstFree, FreeByte, Moved, Full;
      ghost var was, k := state, bucket.0;
      SlotKey(state, i, c);
      ShowsSlot(hash, blank, contents, control, buckets, state.groups, i, c);
      MarkShown(bucket.0, i, c);
      MoveTarget(hash, was, bucket.0);
      control := control[i := control[i][c := SENTINEL]];
      state := Removed(state, k);
      FreeShown();
      SizesShown(hash, blank, contents, control, buckets, state.groups);
      var p := new Probe(this, h);
      p.InsertSomewhere(k, state.groups);
      ShowsWrite(hash, blank, contents, old(control)[i := old(control)[i][c := SENTINEL]], buckets, state.groups, p.i,
        p.c, Tag(h), bucket, Used(bucket.0));
      buckets := buckets[p.i * SLOTS + p.c := bucket];
      state := PutIn(state, k, p.i);
    }

    lemma FreeShown()
      requires Shows(hash, blank, contents, control, buckets, state.groups)
      ensures |control| == |state.groups| &&
        forall g :: 0 <= g < |state.groups| ==> FreeByte(control[g]) == FirstFree(state.groups[g])
    {
      hide Shows, FreeByte, FirstFree;
      SizesShown(hash, blank, contents, control, buckets, state.groups);
      forall g | 0 <= g < |state.groups| ensures FreeByte(control[g]) == FirstFree(state.groups[g]) {
        ShowsGroup(hash, blank, contents, control, buckets, state.groups, g);
      }
    }

    lemma MarkShown(k: K, g: nat, c: nat)
      requires state.Sound() && k in state.place && state.place[k] == (g, c) && g < |state.groups| && c < SLOTS
      requires Shows(hash, blank, contents, control, buckets, state.groups) && |control| == |state.groups|
      ensures Shows(hash, blank, contents, control[g := control[g][c := SENTINEL]], buckets, Removed(state, k).groups)
    {
      hide Shows, State.Sound;
      ShowsSlot(hash, blank, contents, control, buckets, state.groups, g, c);
      ShowsWrite(hash, blank, contents, control, buckets, state.groups, g, c, SENTINEL, buckets[SLOTS * g + c], Marked);
      assert buckets[SLOTS * g + c := buckets[SLOTS * g + c]] == buckets;
    }

    /** One slot of an old group. */
    method RehashSlot(prev: nat, i: nat, c: nat, ghost was: State<K>)
      requires i < prev == |was.groups| && c < SLOTS && Rehashing(was, SLOTS * i + c)
      modifies `control, `buckets, `state
      ensures Rehashing(was, SLOTS * i + c + 1)
    {
      hide Shows, State.Sound, Rehashed, Moved, Moves;
      RehashedNext(hash, was, i, c);
      RehashedPhase(hash, was, SLOTS * i + c);
      ShowsSlot(hash, blank, contents, control, buckets, state.groups, i, c);
      SizesShown(hash, blank, contents, control, buckets, state.groups);
      if control[i][c] != SENTINEL && control[i][c] != 0 {
        var bucket := buckets[i * SLOTS + c];
        var h := DoHash(hash(bucket.0));
        MovesWhen(hash, bucket.0, prev);
        if h / 256 % |control| >= prev {
          MoveBucket(i, c, bucket, h);
        }
      }
    }
  }

  lemma RoomUnique<K>(hash: K -> Hash, k: K, groups: seq<Line<K>>, j: nat)
    requires |groups| > 0 && j < |groups| && forall i :: 0 <= i < j ==> Full(groups[Path(hash, k, |groups|, i)])
    ensures !Full(groups[Path(hash, k, |groups|, j)]) ==> j == RoomProbe(hash, k, groups, 0)
  {
    hide Path, Full;
  }

  /** A probe that leads to a slot that is not in use is the first one if it is not later. */
  lemma FreeOrLater<K>(hash: K -> Hash, k: K, groups: seq<Line<K>>, j: nat)
    requires |groups| > 0 && j <= FreeProbe(hash, k, groups, 0) < |groups|
    ensures FirstFree(groups[Path(hash, k, |groups|, j)]) < SLOTS <==> j == FreeProbe(hash, k, groups, 0)
  {
    hide Path, FirstFree;
  }

  lemma StartGroup<K>(hash: K -> Hash, k: K, groups: seq<Line<K>>, start: nat, j: nat)
    requires |groups| > 0 && start == Start(hash, k)
    ensures Probing.Group(start, |groups|, j) == Path(hash, k, |groups|, j)
  {
  }

  lemma AddedAt<K>(hash: K -> Hash, s: State<K>, k: K, g: nat)
    requires |s.groups| > 0 && g == Path(hash, k, |s.groups|, RoomProbe(hash, k, s.groups, 0)) && !Full(s.groups[g])
    ensures var c := FirstFree(s.groups[g]);
      c < SLOTS && Added(hash, s, k) == State(s.groups[g := s.groups[g][c := Used(k)]], s.place[k := (g, c)])
  {
    hide Path, RoomProbe;
    RoomIsFree(s.groups[g]);
  }

  lemma SlotKey<K>(s: State<K>, g: nat, c: nat)
    requires s.Sound() && g < |s.groups| && c < SLOTS && s.groups[g][c].Used?
    ensures s.groups[g][c].key in s.place && s.place[s.groups[g][c].key] == (g, c)
  {
    assert s.Owned(g, c);
  }

  /** There is a free slot for a key that has left its own, and this is where it goes. */
  lemma MoveTarget<K>(hash: K -> Hash, s: State<K>, k: K)
    requires s.Sound() && k in s.place
    ensures var m := Removed(s, k);
      && |m.groups| > 0 && FreeProbe(hash, k, m.groups, 0) < |m.groups|
      && Moved(hash, s, k) == PutIn(m, k, Path(hash, k, |m.groups|, FreeProbe(hash, k, m.groups, 0)))
  {
    hide Path, FirstFree, State.Sound;
    RemovedSound(s, k);
    var m := Removed(s, k);
    SoundShaped(m);
    var last := ProbeTo(hash, k, m, s.place[k].0);
  }

  lemma DoubledIs<K>(hash: K -> Hash, s: State<K>)
    requires |s.groups| > 0
    ensures Doubled(hash, s) == Rehashed(hash, Enlarged(s), |s.groups|, SLOTS * |s.groups|)
  {
  }

  lemma RehashedNext<K>(hash: K -> Hash, s: State<K>, i: nat, c: nat)
    requires i < |s.groups| && c < SLOTS
    ensures Rehashed(hash, Enlarged(s), |s.groups|, SLOTS * i + c + 1) ==
            Stepped(hash, Rehashed(hash, Enlarged(s), |s.groups|, SLOTS * i + c), |s.groups|, i, c)
  {
    assert (SLOTS * i + c) / SLOTS == i && (SLOTS * i + c) % SLOTS == c;
  }

  lemma MovesWhen<K>(hash: K -> Hash, k: K, n: nat)
    requires n > 0
    ensures Moves(hash, k, n) <==> DoHash(hash(k)) / 256 % (2 * n) >= n
  {
  }

  class Probe<K(==), V(==)> {
    const table: Map<K, V>
    const target: Byte
    var i: nat
    var probeI: nat
    var c: nat
    ghost const start: nat

    constructor (m: Map<K, V>, h: Hash)
      requires |m.control| > 0
      ensures table == m && target == Tag(h) && start == h / 256 && probeI == c == 0 && Valid()
    {
      table, target, start := m, Tag(h), h / 256;
      i, probeI, c := h / 256 % |m.control|, 0, 0;
    }

    ghost predicate Valid()
      reads this, table`control
    {
      |table.control| > 0 && i == Probing.Group(start, |table.control|, probeI)
    }

    /** The probe looks for key k. */
    ghost predicate For(k: K) {
      target == Tag(DoHash(table.hash(k))) && start == Start(table.hash, k)
    }

    /** `operator++` */
    method Next()
      requires Valid()
      modifies `i, `probeI, `c
      ensures Valid() && probeI == old(probeI) + 1 && c == 0
    {
      Probing.NextGroup(start, |table.control|, probeI);
      probeI := probeI + 1;
      i := (i + probeI) % |table.control|;
      c := 0;
    }

    /** `match`: the slot of k in the group, and whether the search is to go on. */
    method Match(k: K) returns (cont: bool, found: bool)
      requires Valid() && c == 0 && For(k) && table.Sound()
      modifies `c
      ensures |table.state.groups| > 0 && i == Path(table.hash, k, |table.state.groups|, probeI)
      ensures cont <==> Full(table.state.groups[i])
      ensures found ==> c < SLOTS && table.state.groups[i][c] == Used(k)
      ensures !found ==> c == SLOTS && forall d :: 0 <= d < SLOTS ==> table.state.groups[i][d] != Used(k)
    {
      hide Shows, State.Sound, Full;
      table.SoundSizes();
      MatchShown(k);
      var current := table.control[i];
      cont := true;
      while c < SLOTS
        invariant 0 <= c <= SLOTS && (cont <==> forall d :: 0 <= d < c ==> current[d] != 0)
      {
        if current[c] == 0 {
          cont := false;
        }
        c := c + 1;
      }
      c := 0;
      found := false;
      while c < SLOTS && !found
        invariant 0 <= c <= SLOTS && (found ==> c < SLOTS && Hit(table.control, table.buckets, i, c, target, k))
        invariant !found ==> forall d :: 0 <= d < c ==> !Hit(table.control, table.buckets, i, d, target, k)
        decreases SLOTS - c, !found
      {
        if current[c] == target && table.buckets[i * SLOTS + c].0 == k {
          found := true;
        } else {
          c := c + 1;
        }
      }
    }

    /** The group as it is in the layout. */
    lemma MatchShown(k: K)
      requires Valid() && For(k) && table.Sound()
      ensures |table.control| == |table.state.groups| > 0 && |table.buckets| == SLOTS * |table.control|
      ensures i == Path(table.hash, k, |table.state.groups|, probeI)
      ensures NoZero(table.control[i]) <==> Full(table.state.groups[i])
      ensures forall d :: 0 <= d < SLOTS ==>
        (Hit(table.control, table.buckets, i, d, target, k) <==> table.state.groups[i][d] == Used(k))
    {
      hide Shows, State.Sound, Full, NoZero, Hit;
      table.SoundSizes();
      ShowsGroup(table.hash, table.blank, table.contents, table.control, table.buckets, table.state.groups, i);
      forall d | 0 <= d < SLOTS
        ensures Hit(table.control, table.buckets, i, d, target, k) <==> table.state.groups[i][d] == Used(k)
      {
        ShowsHit(table.hash, table.blank, table.contents, table.control, table.buckets, table.state.groups, i, d, k);
      }
    }

    /** `insert`: takes a free slot of the group, if there is one. */
    method Insert() returns (found: bool)
      requires Valid()
      modifies `c, table`control
      ensures c == FreeByte(old(table.control)[i]) && (found <==> c < SLOTS)
      ensures table.control == if found then old(table.control)[i := old(table.control)[i][c := target]]
        else old(table.control)
    {
      c := 0;
      while c < SLOTS
        invariant c <= SLOTS && table.control == old(table.control) &&
          forall d :: 0 <= d < c ==> Live(table.control[i][d])
      {
        if table.control[i][c] == 0 || table.control[i][c] == SENTINEL {
          table.control := table.control[i := table.control[i][c := target]];
          return true;
        }
        c := c + 1;
      }
      return false;
    }

    /** The loop of `resize`: takes the first free slot on the way. */
    method InsertSomewhere(ghost k: K, ghost groups: seq<Line<K>>)
      requires Valid() && probeI == 0 && For(k) && |groups| == |table.control|
      requires forall g :: 0 <= g < |groups| ==> FreeByte(table.control[g]) == FirstFree(groups[g])
      requires FreeProbe(table.hash, k, groups, 0) < |groups|
      modifies `i, `probeI, `c, table`control
      ensures |table.control| == old(|table.control|) &&
        i == Path(table.hash, k, |groups|, FreeProbe(table.hash, k, groups, 0))
      ensures c == FirstFree(groups[i]) < SLOTS
      ensures table.control == old(table.control)[i := old(table.control)[i][c := target]]
    {
      hide FirstFree, FreeByte, FreeProbe, Path;
      StartGroup(table.hash, k, groups, start, 0);
      FreeOrLater(table.hash, k, groups, 0);
      ghost var last := FreeProbe(table.hash, k, groups, 0);
      var found := Insert();
      while !found
        invariant |table.control| == |groups| && Valid() && probeI <= last && i == Path(table.hash, k, |groups|, probeI)
        invariant c == FirstFree(groups[i]) && (found <==> c < SLOTS) && (found <==> probeI == last)
        invariant table.control == if found then old(table.control)[i := old(table.control)[i][c := target]]
          else old(table.control)
        decreases last - probeI, !found
      {
        Next();
        StartGroup(table.hash, k, groups, start, probeI);
        FreeOrLater(table.hash, k, groups, probeI);
        found := Insert();
      }
    }

    /** `remove`: marks the current slot as one that used to be in use. */
    method Remove()
      requires Valid() && c < SLOTS && table.count > 0
      modifies table`control, table`count
      ensures table.control == old(table.control)[i := old(table.control)[i][c := SENTINEL]] &&
        table.count == old(table.count) - 1
    {
      table.control := table.control[i := table.control[i][c := SENTINEL]];
      table.count := table.count - 1;
    }
  }

  // ---------- Runs ----------

  /** Any run of operations that are all served answers as a finite map does, through any number of doublings. */
  method Run<K(==), V(==)>(m: Map<K, V>, ops: seq<Operation<K, V>>) returns (results: seq<Option<V>>)
    requires m.Sound() && |m.state.groups| > 0 && Feasible(m.hash, m.state, ops)
    modifies m
    ensures m.Sound() && m.count == |m.contents|
    ensures |results| == |ops| && RightResults(old(m.contents), ops, results)
    ensures m.contents == AfterAll(old(m.contents), ops, results)
    decreases |ops|
  {
    hide Represents, StateAfter, Served, RightResult, After;
    if ops == [] {
      CountShown(m);
      return [];
    }
    var result := Perform(m, ops[0]);
    var rest := Run(m, ops[1..]);
    results := [result] + rest;
  }

  lemma CountShown<K, V>(m: Map<K, V>)
    requires m.Sound()
    ensures m.count == |m.contents|
  {
  }

  method Perform<K(==), V(==)>(m: Map<K, V>, op: Operation<K, V>) returns (result: Option<V>)
    requires m.Sound() && |m.state.groups| > 0 && Served(m.hash, m.state, op)
    modifies m
    ensures m.Sound() && |m.state.groups| > 0 && m.state == StateAfter(m.hash, old(m.state), op)
    ensures RightResult(old(m.contents), op, result) && m.contents == After(old(m.contents), op, result)
  {
    hide Represents, Doubled, Added, Removed, State.Reached, State.Sound, Loaded, State.HasEmpty;
    if Adds(op) {
      result := PerformAdding(m, op);
    } else if op.RemoveOp? {
      result := PerformRemoving(m, op.key);
    } else {
      m.SoundSizes();
      var bucket, _ := m.Find(op.key);
      result := if bucket.Some? then Some(m.buckets[bucket.value].1) else None;
    }
  }

  method PerformAdding<K(==), V(==)>(m: Map<K, V>, op: Operation<K, V>) returns (result: Option<V>)
    requires m.Sound() && |m.state.groups| > 0 && Served(m.hash, m.state, op) && Adds(op)
    modifies m
    ensures m.Sound() && |m.state.groups| > 0 && m.state == StateAfter(m.hash, old(m.state), op)
    ensures RightResult(old(m.contents), op, result) && m.contents == After(old(m.contents), op, result)
  {
    hide Represents, Doubled, Added, State.Reached, State.Sound, Loaded, State.HasEmpty;
    m.SoundSizes();
    SizedSound(m.hash, m.state, true);
    if op.InsertOp? {
      result := m.Insert(op.key, op.value);
    } else {
      var bucket := m.Upsert(op.key);
      result := Some(m.buckets[bucket].1);
    }
  }

  method PerformRemoving<K(==), V(==)>(m: Map<K, V>, k: K) returns (result: Option<V>)
    requires m.Sound() && |m.state.groups| > 0 && m.state.AllReached(m.hash) && m.Ends(k)
    modifies m
    ensures m.Sound() && |m.state.groups| > 0 && m.state == Removed(old(m.state), k)
    ensures result == Lookup(old(m.contents), k) && m.contents == old(m.contents) - {k}
  {
    hide Represents, Removed, State.Reached, State.Sound, State.HasEmpty;
    m.SoundSizes();
    AbsentRemoved(m.state, k);
    result := m.Remove(k);
    assert k !in old(m.contents) ==> old(m.contents) - {k} == old(m.contents);
  }

  /** A table made for a capacity. */
  method RunFromEmpty<K(==), V(==)>(hash: K -> Hash, blank: (K, V), cap: nat, ops: seq<Operation<K, V>>)
    returns (m: Map<K, V>, results: seq<Option<V>>)
    requires Feasible(hash, Fresh<K>(GroupsFor(cap, 0)), ops)
    ensures fresh(m) && m.Sound() && m.count == |m.contents|
    ensures |results| == |ops| && RightResults(map[], ops, results) && m.contents == AfterAll(map[], ops, results)
  {
    hide Represents, Feasible, RightResults, AfterAll;
    m := new Map.WithCapacity(hash, blank, cap);
    results := Run(m, ops);
  }

  /** A new table, which grows as needed. */
  method RunGrowing<K(==), V(==)>(hash: K -> Hash, blank: (K, V), ops: seq<Operation<K, V>>)
    returns (m: Map<K, V>, results: seq<Option<V>>)
    requires Feasible(hash, Fresh<K>(2), ops)
    ensures fresh(m) && m.Sound() && m.count == |m.contents|
    ensures |results| == |ops| && RightResults(map[], ops, results) && m.contents == AfterAll(map[], ops, results)
  {
    hide Represents, Feasible, RightResults, AfterAll;
    m := new Map(hash, blank);
    results := Run(m, ops);
  }

  /** Whatever the hashes are, a table serves any run that adds new keys at most 16 times as often as the capacity it
      was made for. */
  lemma FewAdditionsServed<K, V>(hash: K -> Hash, cap: nat, ops: seq<Operation<K, V>>)
    requires NewKeys({}, ops) <= SLOTS * cap
    ensures Feasible(hash, Fresh<K>(GroupsFor(cap, 0)), ops)
  {
    var n := GroupsFor(cap, 0);
    var m: nat :| n == Pow2(m);
    FreshSound(hash, m);
    FreshSlots<K>(n);
    assert Fresh<K>(n).place.Keys == {};
    FewAdditionsFeasible(hash, Fresh<K>(n), ops);
  }

  /** A table serves any run, of any length, in which no sixteen keys have the same first group at the same time. */
  lemma UncrowdedServed<K, V>(hash: K -> Hash, m: nat, ops: seq<Operation<K, V>>)
    requires Uncrowded(hash, {}, Pow2(m), ops)
    ensures Feasible(hash, Fresh<K>(Pow2(m)), ops)
  {
    FreshRoomy(hash, m);
    assert Fresh<K>(Pow2(m)).place.Keys == {};
    UncrowdedFeasible(hash, Fresh<K>(Pow2(m)), ops);
  }

  /** In particular any run, of any length, on fewer than sixteen different keys. */
  lemma FewDifferentServed<K, V>(hash: K -> Hash, m: nat, all: set<K>, ops: seq<Operation<K, V>>)
    requires |all| < SLOTS && forall i :: 0 <= i < |ops| ==> ops[i].key in all
    ensures Feasible(hash, Fresh<K>(Pow2(m)), ops)
  {
    FewKeysUncrowded(hash, all, {}, Pow2(m), ops);
    UncrowdedServed(hash, m, ops);
  }
}
