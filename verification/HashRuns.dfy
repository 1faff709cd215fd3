/** Runs of operations on the hash table: what a finite map answers, and which runs the table serves. */
module HashRuns {
  import opened Arithmetic
  import opened ControlBytes
  import opened HashCrowds
  import opened HashLayout

  datatype Option<T> = None | Some(value: T)

  datatype Operation<K, V> = InsertOp(key: K, value: V) | UpsertOp(key: K) | RemoveOp(key: K) | FindOp(key: K)

  function Lookup<K, V>(m: map<K, V>, k: K): Option<V> {
    if k in m then Some(m[k]) else None
  }

  /** The finite map after an operation. A key that `upsert` adds has the value that it returns. */
  function After<K, V>(m: map<K, V>, op: Operation<K, V>, result: Option<V>): map<K, V> {
    match op
    case InsertOp(k, v) => m[k := v]
    case UpsertOp(k) => if k !in m && result.Some? then m[k := result.value] else m
    case RemoveOp(k) => m - {k}
    case FindOp(_) => m
  }

  /** The results of operations are those of a finite map: the value that there was, and some value from `upsert`. */
  predicate RightResults<K(==), V(==)>(m: map<K, V>, ops: seq<Operation<K, V>>, results: seq<Option<V>>)
    requires |ops| == |results|
    decreases |ops|
  {
    ops == [] || (RightResult(m, ops[0], results[0]) &&
      RightResults(After(m, ops[0], results[0]), ops[1..], results[1..]))
  }

  predicate RightResult<K(==), V(==)>(m: map<K, V>, op: Operation<K, V>, result: Option<V>) {
    if op.UpsertOp? then result.Some? && (op.key in m ==> result == Lookup(m, op.key)) else result == Lookup(m, op.key)
  }

  function AfterAll<K, V>(m: map<K, V>, ops: seq<Operation<K, V>>, results: seq<Option<V>>): map<K, V>
    requires |ops| == |results|
    decreases |ops|
  {
    if ops == [] then m else AfterAll(After(m, ops[0], results[0]), ops[1..], results[1..])
  }

  predicate Adds<K, V>(op: Operation<K, V>) {
    op.InsertOp? || op.UpsertOp?
  }

  /** The keys after an operation. */
  function KeysAfter<K, V>(keys: set<K>, op: Operation<K, V>): set<K> {
    if Adds(op) then keys + {op.key} else if op.RemoveOp? then keys - {op.key} else keys
  }

  // ---------- The runs that the table serves ----------

  /** A table with so many keys in so many groups is doubled before a key is added: it is more than half full. */
  predicate Loaded(keys: nat, groups: nat) {
    2 * keys > SLOTS * groups
  }

  /** The table that an operation searches. */
  ghost function Sized<K>(hash: K -> Hash, s: State<K>, adds: bool): (r: State<K>)
    requires |s.groups| > 0
    ensures |r.groups| > 0
  {
    if adds && Loaded(|s.place|, |s.groups|) then Doubled(hash, s) else s
  }

  ghost function StateAfter<K, V>(hash: K -> Hash, s: State<K>, op: Operation<K, V>): (r: State<K>)
    requires |s.groups| > 0
    ensures |r.groups| > 0
  {
    var d := Sized(hash, s, Adds(op));
    if Adds(op) && op.key !in d.place then Added(hash, d, op.key) else if op.RemoveOp? then Removed(d, op.key) else d
  }

  /** The operation is served: if it doubles the table, no key is lost, and its search ends. */
  ghost predicate Served<K, V>(hash: K -> Hash, s: State<K>, op: Operation<K, V>)
    requires |s.groups| > 0
  {
    var d := Sized(hash, s, Adds(op));
    d.AllReached(hash) && (op.key in d.place || d.HasEmpty())
  }

  ghost predicate Feasible<K, V>(hash: K -> Hash, s: State<K>, ops: seq<Operation<K, V>>)
    requires |s.groups| > 0
    decreases |ops|
  {
    ops == [] || (Served(hash, s, ops[0]) && Feasible(hash, StateAfter(hash, s, ops[0]), ops[1..]))
  }

  lemma SizedSound<K>(hash: K -> Hash, s: State<K>, adds: bool)
    requires s.Sound()
    ensures |s.groups| > 0 && Sized(hash, s, adds).Sound() && Sized(hash, s, adds).place.Keys == s.place.Keys
  {
    hide State.Sound, State.Reached, Doubled;
    SoundShaped(s);
    DoubledSound(hash, s);
  }

  /** An operation is served exactly when its search ends and all keys can still be found in the table that it
      searches. */
  lemma ServedExactly<K, V>(hash: K -> Hash, s: State<K>, op: Operation<K, V>)
    requires s.Sound()
    ensures |s.groups| > 0
    ensures var d := Sized(hash, s, Adds(op));
      Served(hash, s, op) <==>
        (exists j: nat :: Stops(hash, d, op.key, j)) && forall k :: k in s.place ==> k in d.place && d.Reached(hash, k)
  {
    hide State.Sound, State.Reached, Sized, Stops;
    SizedSound(hash, s, Adds(op));
    SearchEnds(hash, Sized(hash, s, Adds(op)), op.key);
  }

  /** What every operation keeps, if it is served. */
  lemma ServedKeeps<K, V>(hash: K -> Hash, s: State<K>, op: Operation<K, V>)
    requires s.Sound() && |s.groups| > 0 && Served(hash, s, op)
    ensures var r := StateAfter(hash, s, op);
      r.Sound() && r.AllReached(hash) && r.place.Keys == KeysAfter(s.place.Keys, op)
  {
    hide State.Sound, State.Reached, Sized, Added, Removed;
    SizedSound(hash, s, Adds(op));
    var d := Sized(hash, s, Adds(op));
    if Adds(op) && op.key !in d.place {
      AddedSound(hash, d, op.key);
    } else if op.RemoveOp? && op.key in d.place {
      RemovedReached(hash, d, op.key);
    } else {
      AbsentRemoved(d, op.key);
      assert op.RemoveOp? ==> d.place.Keys - {op.key} == d.place.Keys;
      assert Adds(op) ==> d.place.Keys + {op.key} == d.place.Keys;
    }
  }

  lemma AbsentRemoved<K>(s: State<K>, k: K)
    ensures k !in s.place ==> Removed(s, k) == s
  {
  }

  // ---------- Runs that never crowd a group ----------

  predicate Doubles<K, V>(keys: set<K>, n: nat, op: Operation<K, V>) {
    Adds(op) && Loaded(|keys|, n)
  }

  function SizeAfter<K, V>(keys: set<K>, n: nat, op: Operation<K, V>): (r: nat)
    requires n > 0
    ensures r > 0
  {
    if Doubles(keys, n, op) then 2 * n else n
  }

  /** At no time do sixteen of the keys have the same first group. */
  ghost predicate Uncrowded<K, V>(hash: K -> Hash, keys: set<K>, n: nat, ops: seq<Operation<K, V>>)
    requires n > 0
    decreases |ops|
  {
    && (forall g :: 0 <= g < n ==> Crowd(hash, keys, g, n) < SLOTS)
    && (ops == [] || Uncrowded(hash, KeysAfter(keys, ops[0]), SizeAfter(keys, n, ops[0]), ops[1..]))
  }

  lemma RoomySound<K>(hash: K -> Hash, s: State<K>)
    requires AllRoomy(hash, s)
    ensures s.Sound() && |s.groups| > 0
  {
  }

  lemma SizedRoomy<K, V>(hash: K -> Hash, s: State<K>, op: Operation<K, V>)
    requires AllRoomy(hash, s)
    ensures |s.groups| > 0
    ensures var d := Sized(hash, s, Adds(op));
      AllRoomy(hash, d) && d.place.Keys == s.place.Keys && |d.groups| == SizeAfter(s.place.Keys, |s.groups|, op)
  {
    hide AllRoomy, State.Reached, State.Sound, Doubled;
    RoomySound(hash, s);
    assert |s.place| == |s.place.Keys|;
    DoubledRoomy(hash, s);
    DoubledSound(hash, s);
  }

  lemma UncrowdedStep<K, V>(hash: K -> Hash, s: State<K>, op: Operation<K, V>)
    requires AllRoomy(hash, s) && |s.groups| > 0
    requires var n := SizeAfter(s.place.Keys, |s.groups|, op);
      forall g :: 0 <= g < n ==> Crowd(hash, KeysAfter(s.place.Keys, op), g, n) < SLOTS
    ensures Served(hash, s, op)
    ensures var r := StateAfter(hash, s, op);
      && AllRoomy(hash, r) && |r.groups| == SizeAfter(s.place.Keys, |s.groups|, op)
      && r.place.Keys == KeysAfter(s.place.Keys, op)
  {
    hide AllRoomy, State.Reached, State.Sound, Crowd, Home, Added, Sized, SizeAfter;
    RoomySound(hash, s);
    SizedRoomy(hash, s, op);
    var d := Sized(hash, s, Adds(op));
    RoomyReached(hash, s);
    RoomyReached(hash, d);
    ServedKeeps(hash, s, op);
    if Adds(op) && op.key !in d.place {
      AddedRoomy(hash, d, op.key);
    } else if op.RemoveOp? && op.key in d.place {
      RemovedRoomy(hash, d, op.key);
    } else {
      AbsentRemoved(d, op.key);
    }
  }

  /** However long a run is, and however often it makes the table grow: if no group is ever the first of sixteen keys,
      it is served. */
  lemma {:induction false} UncrowdedFeasible<K, V>(hash: K -> Hash, s: State<K>, ops: seq<Operation<K, V>>)
    requires |s.groups| > 0 && AllRoomy(hash, s) && Uncrowded(hash, s.place.Keys, |s.groups|, ops)
    ensures Feasible(hash, s, ops)
    decreases |ops|
  {
    hide AllRoomy, Served, StateAfter, KeysAfter, SizeAfter, Crowd;
    if ops != [] {
      assert Uncrowded(hash, KeysAfter(s.place.Keys, ops[0]), SizeAfter(s.place.Keys, |s.groups|, ops[0]), ops[1..]);
      UncrowdedStep(hash, s, ops[0]);
      UncrowdedFeasible(hash, StateAfter(hash, s, ops[0]), ops[1..]);
    }
  }

  /** Operations on fewer than sixteen different keys cannot crowd a group. */
  lemma {:induction false} FewKeysUncrowded<K, V>(hash: K -> Hash, all: set<K>, keys: set<K>, n: nat,
                                                  ops: seq<Operation<K, V>>)
    requires n > 0 && |all| < SLOTS && keys <= all && forall i :: 0 <= i < |ops| ==> ops[i].key in all
    ensures Uncrowded(hash, keys, n, ops)
    decreases |ops|
  {
    hide Home;
    forall g | 0 <= g < n ensures Crowd(hash, keys, g, n) < SLOTS {
      SubsetSize((set k | k in keys && Home(hash, k, n) == g), all);
    }
    if ops != [] {
      FewKeysUncrowded(hash, all, KeysAfter(keys, ops[0]), SizeAfter(keys, n, ops[0]), ops[1..]);
    }
  }

  // ---------- Runs with few additions ----------

  function EmptyIn<K>(s: seq<Slot<K>>): (n: nat) {
    if s == [] then 0 else (if s[0].Empty? then 1 else 0) + EmptyIn(s[1..])
  }

  /** The number of empty slots. */
  function EmptySlots<K>(groups: seq<Line<K>>): (n: nat) {
    if groups == [] then 0 else EmptyIn(groups[0]) + EmptySlots(groups[1..])
  }

  lemma {:induction false} EmptyInUpdate<K>(s: seq<Slot<K>>, c: nat, slot: Slot<K>)
    requires c < |s|
    ensures EmptyIn(s[c := slot]) == EmptyIn(s) - (if s[c].Empty? then 1 else 0) + (if slot.Empty? then 1 else 0)
  {
    if c > 0 {
      assert s[c := slot][1..] == s[1..][c - 1 := slot];
      EmptyInUpdate(s[1..], c - 1, slot);
    } else {
      assert s[c := slot][1..] == s[1..];
    }
  }

  lemma {:induction false} EmptySlotsUpdate<K>(groups: seq<Line<K>>, g: nat, c: nat, slot: Slot<K>)
    requires g < |groups| && c < SLOTS
    ensures EmptySlots(groups[g := groups[g][c := slot]]) ==
            EmptySlots(groups) - (if groups[g][c].Empty? then 1 else 0) + (if slot.Empty? then 1 else 0)
  {
    var r := groups[g := groups[g][c := slot]];
    if g > 0 {
      assert r[1..] == groups[1..][g - 1 := groups[g][c := slot]];
      EmptySlotsUpdate(groups[1..], g - 1, c, slot);
    } else {
      assert r[1..] == groups[1..];
      EmptyInUpdate(groups[0], c, slot);
    }
  }

  lemma {:induction false} EmptyInPositive<K>(s: seq<Slot<K>>)
    requires EmptyIn(s) > 0
    ensures !Full(s)
  {
    if !s[0].Empty? {
      EmptyInPositive(s[1..]);
      var c :| 0 <= c < |s[1..]| && s[1..][c].Empty?;
      assert s[c + 1].Empty?;
    }
  }

  lemma {:induction false} EmptySlotsPositive<K>(groups: seq<Line<K>>)
    requires EmptySlots(groups) > 0
    ensures exists g :: 0 <= g < |groups| && !Full(groups[g])
  {
    if EmptyIn(groups[0]) > 0 {
      EmptyInPositive(groups[0]);
    } else {
      EmptySlotsPositive(groups[1..]);
      var g :| 0 <= g < |groups[1..]| && !Full(groups[1..][g]);
      assert !Full(groups[g + 1]);
    }
  }

  lemma {:induction false} AllEmpty<K>(s: seq<Slot<K>>)
    requires forall c :: 0 <= c < |s| ==> s[c].Empty?
    ensures EmptyIn(s) == |s|
  {
    if s != [] { AllEmpty(s[1..]); }
  }

  lemma {:induction false} FreshSlots<K>(n: nat)
    ensures EmptySlots(EmptyLines<K>(n)) == SLOTS * n
  {
    if n > 0 {
      FreshSlots<K>(n - 1);
      assert EmptyLines<K>(n)[1..] == EmptyLines<K>(n - 1);
      AllEmpty(EmptyLine<K>());
    }
  }

  /** How often the operations add a key that is not there. */
  function NewKeys<K, V>(keys: set<K>, ops: seq<Operation<K, V>>): nat
    decreases |ops|
  {
    if ops == [] then 0 else
      (if Adds(ops[0]) && ops[0].key !in keys then 1 else 0) + NewKeys(KeysAfter(keys, ops[0]), ops[1..])
  }

  /** An operation uses up at most one empty slot, and none if it adds no key. */
  lemma EmptyAfter<K, V>(hash: K -> Hash, s: State<K>, op: Operation<K, V>)
    requires s.Sound() && (Adds(op) ==> !Loaded(|s.place|, |s.groups|))
    ensures |s.groups| > 0 && |StateAfter(hash, s, op).groups| == |s.groups|
    ensures EmptySlots(StateAfter(hash, s, op).groups) >=
      EmptySlots(s.groups) - (if Adds(op) && op.key !in s.place then 1 else 0)
  {
    hide EmptySlots, RoomProbe, Path;
    SoundShaped(s);
    if Adds(op) && op.key !in s.place {
      var g := Path(hash, op.key, |s.groups|, RoomProbe(hash, op.key, s.groups, 0));
      var c := FirstFree(s.groups[g]);
      if c < SLOTS { EmptySlotsUpdate(s.groups, g, c, Used(op.key)); }
    } else if op.RemoveOp? && op.key in s.place {
      assert s.Sits(op.key);
      EmptySlotsUpdate(s.groups, s.place[op.key].0, s.place[op.key].1, Marked);
    }
  }

  /** Whatever the hashes are: a run that adds keys less often than there are empty slots, and never fills more than
      half the slots, is served. */
  lemma {:induction false} FewAdditionsFeasible<K, V>(hash: K -> Hash, s: State<K>, ops: seq<Operation<K, V>>)
    requires s.Sound() && |s.groups| > 0 && s.AllReached(hash)
    requires 2 * (|s.place| + NewKeys(s.place.Keys, ops)) <= SLOTS * |s.groups| &&
      NewKeys(s.place.Keys, ops) < EmptySlots(s.groups)
    ensures Feasible(hash, s, ops)
    decreases |ops|
  {
    hide State.Sound, State.AllReached, EmptySlots, StateAfter, Full;
    if ops != [] {
      var op := ops[0];
      EmptySlotsPositive(s.groups);
      assert s.HasEmpty();
      ServedKeeps(hash, s, op);
      EmptyAfter(hash, s, op);
      var r := StateAfter(hash, s, op);
      KeyCount(s.place.Keys, op);
      assert |r.place| == |r.place.Keys| && |s.place| == |s.place.Keys|;
      FewAdditionsFeasible(hash, r, ops[1..]);
    }
  }

  lemma KeyCount<K, V>(keys: set<K>, op: Operation<K, V>)
    ensures |KeysAfter(keys, op)| <= |keys| + (if Adds(op) && op.key !in keys then 1 else 0)
  {
    assert Adds(op) && op.key in keys ==> keys + {op.key} == keys;
    SubsetSize(keys - {op.key}, keys);
  }
}
