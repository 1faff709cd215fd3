/** Tables in which no group is ever filled: every key is in its first group, and stays in reach. */
module HashCrowds {
  import opened Arithmetic
  import opened ControlBytes
  import opened HashLayout

  /** How many of the keys have group g of n as their first. */
  ghost function Crowd<K>(hash: K -> Hash, keys: set<K>, g: nat, n: nat): nat
    requires n > 0
  {
    |set k | k in keys && Home(hash, k, n) == g|
  }

  /** The empty slots are the last ones, and there is one. */
  ghost predicate Roomy<K>(s: Line<K>) {
    s[SLOTS - 1].Empty? && forall c, d :: 0 <= c < d < SLOTS && s[c].Empty? ==> s[d].Empty?
  }

  ghost predicate AllRoomy<K>(hash: K -> Hash, s: State<K>) {
    s.Sound() && s.AllHome(hash) && forall g :: 0 <= g < |s.groups| ==> Roomy(s.groups[g])
  }

  lemma FreshRoomy<K>(hash: K -> Hash, m: nat)
    ensures AllRoomy(hash, Fresh<K>(Pow2(m)))
  {
  }

  lemma RoomyReached<K>(hash: K -> Hash, s: State<K>)
    requires AllRoomy(hash, s)
    ensures s.AllReached(hash) && s.HasEmpty()
  {
    hide State.Reached, Home;
    forall k | k in s.place ensures s.Reached(hash, k) {
      HomeReached(hash, s, k);
    }
    assert Roomy(s.groups[0]);
    assert !Full(s.groups[0]);
  }

  lemma RoomyFree<K>(s: Line<K>)
    requires Roomy(s)
    ensures !Full(s) && FirstFree(s) < SLOTS
  {
  }

  /** Filling the first free slot leaves room if it is not the last but one. */
  lemma FilledRoomy<K>(s: Line<K>, k: K)
    requires Roomy(s) && FirstFree(s) + 1 < SLOTS
    ensures Roomy(s[FirstFree(s) := Used(k)])
  {
  }

  lemma MarkedRoomy<K>(s: Line<K>, c: nat)
    requires Roomy(s) && c < SLOTS && s[c].Used?
    ensures Roomy(s[c := Marked]) && c + 1 < SLOTS
  {
  }

  /** The first slots in use hold as many keys, all with that group as their first. */
  lemma {:induction false} PrefixKeys<K>(hash: K -> Hash, s: State<K>, g: nat, p: nat) returns (keys: set<K>)
    requires s.Sound() && s.AllHome(hash) && g < |s.groups| && p <= FirstFree(s.groups[g])
    ensures |keys| == p
    ensures forall k :: k in keys ==> k in s.place && s.place[k].1 < p && Home(hash, k, |s.groups|) == g
    decreases p
  {
    hide Home, FirstFree;
    if p == 0 {
      keys := {};
    } else {
      keys := PrefixKeys(hash, s, g, p - 1);
      assert s.Owned(g, p - 1);
      keys := keys + {s.groups[g][p - 1].key};
    }
  }

  lemma CrowdBound<K>(hash: K -> Hash, s: State<K>, g: nat, more: set<K>)
    requires s.Sound() && s.AllHome(hash) && g < |s.groups|
    requires more !! s.place.Keys && forall k :: k in more ==> Home(hash, k, |s.groups|) == g
    ensures FirstFree(s.groups[g]) + |more| <= Crowd(hash, s.place.Keys + more, g, |s.groups|)
  {
    hide Home, State.Sound;
    var keys := PrefixKeys(hash, s, g, FirstFree(s.groups[g]));
    SubsetSize(keys + more, set k | k in s.place.Keys + more && Home(hash, k, |s.groups|) == g);
    assert keys !! more;
  }

  lemma AddedRoomy<K>(hash: K -> Hash, s: State<K>, k: K)
    requires AllRoomy(hash, s) && k !in s.place
    requires Crowd(hash, s.place.Keys + {k}, Home(hash, k, |s.groups|), |s.groups|) < SLOTS
    ensures AllRoomy(hash, Added(hash, s, k))
  {
    hide State.Sound, Roomy, Crowd, FirstFree, Full, State.Reached;
    SoundShaped(s);
    RoomyReached(hash, s);
    AddedSound(hash, s, k);
    var h := Home(hash, k, |s.groups|);
    RoomyFree(s.groups[h]);
    assert RoomProbe(hash, k, s.groups, 0) == 0;
    CrowdBound(hash, s, h, {k});
    FilledRoomy(s.groups[h], k);
  }

  lemma RemovedRoomy<K>(hash: K -> Hash, s: State<K>, k: K)
    requires AllRoomy(hash, s) && k in s.place
    ensures AllRoomy(hash, Removed(s, k))
  {
    hide Roomy, Home;
    RemovedSound(s, k);
    assert s.Sits(k);
    MarkedRoomy(s.groups[s.place[k].0], s.place[k].1);
  }

  lemma HomeBelow<K>(hash: K -> Hash, k: K, n: nat)
    requires n > 0
    ensures Home(hash, k, n) < n
  {
  }

  // ---------- Doubling ----------

  /** Keys are in their first groups, or wait for that in the old ones; a new group has at most as many slots in use as
      its old one has been looked at. */
  ghost predicate RoomyPhase<K>(hash: K -> Hash, s: State<K>, n: nat, p: nat)
    requires n > 0
  {
    && s.Sound() && |s.groups| == 2 * n
    && (forall g :: 0 <= g < 2 * n ==> Roomy(s.groups[g]))
    && (forall g :: n <= g < 2 * n ==> Filling(s.groups[g], g - n, p))
    && (forall k :: k in s.place ==> Waits(hash, s, n, p, k))
  }

  ghost predicate Filling<K>(s: Line<K>, u: nat, p: nat) {
    (FirstFree(s) == 0 || SLOTS * u + FirstFree(s) <= p) && forall c :: 0 <= c < SLOTS ==> !s[c].Marked?
  }

  ghost predicate Waits<K>(hash: K -> Hash, s: State<K>, n: nat, p: nat, k: K)
    requires n > 0 && k in s.place
  {
    || s.place[k].0 == Home(hash, k, 2 * n)
    || (Moves(hash, k, n) && s.place[k].0 == Home(hash, k, n) && SLOTS * s.place[k].0 + s.place[k].1 >= p)
  }

  lemma EnlargedRoomy<K>(hash: K -> Hash, t: State<K>)
    requires AllRoomy(hash, t)
    ensures RoomyPhase(hash, Enlarged(t), |t.groups|, 0)
  {
    hide Home, Moves;
    var s, n := Enlarged(t), |t.groups|;
    EnlargedPhase(hash, t);
    forall g | 0 <= g < 2 * n ensures Roomy(s.groups[g]) {
      assert g < n ==> Roomy(t.groups[g]);
    }
    forall k | k in s.place ensures Waits(hash, s, n, 0, k) {
      Homes(hash, k, n);
    }
  }

  /** The key of slot c of group i moves to the first free slot of group n + i. */
  lemma MovedTo<K>(hash: K -> Hash, s: State<K>, n: nat, i: nat, c: nat, k: K)
    requires n > 0 && i < n && c < SLOTS && RoomyPhase(hash, s, n, SLOTS * i + c)
    requires s.groups[i][c] == Used(k) && Moves(hash, k, n)
    ensures k in s.place && Home(hash, k, 2 * n) == n + i && FirstFree(s.groups[n + i]) < SLOTS
    ensures Moved(hash, s, k) == State(
      s.groups[i := s.groups[i][c := Marked]][n + i := s.groups[n + i][FirstFree(s.groups[n + i]) := Used(k)]],
      s.place[k := (n + i, FirstFree(s.groups[n + i]))])
  {
    hide Roomy, Filling, State.Reached, Full, FirstFree;
    assert s.Owned(i, c) && Waits(hash, s, n, SLOTS * i + c, k);
    Homes(hash, k, n);
    HomeBelow(hash, k, 2 * n);
    assert Roomy(s.groups[n + i]);
    RoomyFree(s.groups[n + i]);
    var m := Removed(s, k);
    assert m == State(s.groups[i := s.groups[i][c := Marked]], s.place - {k});
    assert FreeProbe(hash, k, m.groups, 0) == 0;
    assert (s.place - {k})[k := (n + i, FirstFree(s.groups[n + i]))] ==
      s.place[k := (n + i, FirstFree(s.groups[n + i]))];
  }

  lemma MovedWaits<K>(hash: K -> Hash, s: State<K>, n: nat, i: nat, c: nat, k: K, r: State<K>, x: K)
    requires n > 0 && i < n && c < SLOTS && RoomyPhase(hash, s, n, SLOTS * i + c)
    requires s.groups[i][c] == Used(k) && x in s.place && x in r.place
    requires if x == k then r.place[x].0 == Home(hash, k, 2 * n) else r.place[x] == s.place[x]
    ensures Waits(hash, r, n, SLOTS * i + c + 1, x)
  {
    hide Roomy, Filling, Home, Moves;
    if x != k {
      assert Waits(hash, s, n, SLOTS * i + c, x) && s.Sits(x);
    }
  }

  lemma MovedRoomy<K>(hash: K -> Hash, s: State<K>, n: nat, i: nat, c: nat, k: K)
    requires n > 0 && i < n && c < SLOTS && RoomyPhase(hash, s, n, SLOTS * i + c)
    requires s.groups[i][c] == Used(k) && Moves(hash, k, n)
    ensures RoomyPhase(hash, Moved(hash, s, k), n, SLOTS * i + c + 1)
  {
    hide Roomy, Filling, State.Reached, Full, Moves, Home, Moved, FirstFree, Waits;
    MovedTo(hash, s, n, i, c, k);
    MovedSound(hash, s, k);
    var p, r, f := SLOTS * i + c, Moved(hash, s, k), FirstFree(s.groups[n + i]);
    assert Roomy(s.groups[i]) && Roomy(s.groups[n + i]) && Filling(s.groups[n + i], i, p);
    MarkedRoomy(s.groups[i], c);
    FillingNext(s.groups[n + i], i, p, k);
    FilledRoomy(s.groups[n + i], k);
    forall g | n <= g < 2 * n ensures Filling(r.groups[g], g - n, p + 1) {
      FillingLater(s.groups[g], g - n, p);
    }
    forall x | x in r.place ensures Waits(hash, r, n, p + 1, x) {
      MovedWaits(hash, s, n, i, c, k, r, x);
    }
  }

  lemma FillingNext<K>(s: Line<K>, u: nat, p: nat, k: K)
    requires Roomy(s) && Filling(s, u, p) && SLOTS * u <= p < SLOTS * u + SLOTS - 1
    ensures FirstFree(s) + 1 < SLOTS && Filling(s[FirstFree(s) := Used(k)], u, p + 1)
  {
    var r := s[FirstFree(s) := Used(k)];
    assert r[FirstFree(s) + 1].Empty?;
  }

  lemma FillingLater<K>(s: Line<K>, u: nat, p: nat)
    requires Filling(s, u, p)
    ensures Filling(s, u, p + 1)
  {
  }

  lemma PassedRoomy<K>(hash: K -> Hash, s: State<K>, n: nat, i: nat, c: nat)
    requires n > 0 && i < n && c < SLOTS && RoomyPhase(hash, s, n, SLOTS * i + c)
    requires !(s.groups[i][c].Used? && Moves(hash, s.groups[i][c].key, n))
    ensures RoomyPhase(hash, s, n, SLOTS * i + c + 1)
  {
    hide Roomy, Home, Moves, Filling;
    forall g | n <= g < 2 * n ensures Filling(s.groups[g], g - n, SLOTS * i + c + 1) {
      FillingLater(s.groups[g], g - n, SLOTS * i + c);
    }
    forall x | x in s.place ensures Waits(hash, s, n, SLOTS * i + c + 1, x) {
      assert Waits(hash, s, n, SLOTS * i + c, x) && s.Sits(x);
    }
  }

  lemma {:induction false} RehashedRoomy<K>(hash: K -> Hash, t: State<K>, p: nat)
    requires AllRoomy(hash, t) && p <= SLOTS * |t.groups| && |t.groups| > 0
    ensures RoomyPhase(hash, Rehashed(hash, Enlarged(t), |t.groups|, p), |t.groups|, p)
  {
    hide RoomyPhase, AllRoomy, Moved, Moves;
    if p == 0 {
      EnlargedRoomy(hash, t);
    } else {
      RehashedRoomy(hash, t, p - 1);
      var s, i, c := Rehashed(hash, Enlarged(t), |t.groups|, p - 1), (p - 1) / SLOTS, (p - 1) % SLOTS;
      if s.groups[i][c].Used? && Moves(hash, s.groups[i][c].key, |t.groups|) {
        MovedRoomy(hash, s, |t.groups|, i, c, s.groups[i][c].key);
      } else {
        PassedRoomy(hash, s, |t.groups|, i, c);
      }
    }
  }

  /** Doubling a table with room in every group gives one with room in every group. */
  lemma DoubledRoomy<K>(hash: K -> Hash, t: State<K>)
    requires AllRoomy(hash, t)
    ensures AllRoomy(hash, Doubled(hash, t))
  {
    hide Rehashed, Home, Roomy;
    SoundShaped(t);
    var n := |t.groups|;
    RehashedRoomy(hash, t, SLOTS * n);
    var d := Doubled(hash, t);
    forall k | k in d.place ensures d.place[k].0 == Home(hash, k, 2 * n) {
      assert Waits(hash, d, n, SLOTS * n, k) && d.Sits(k);
      HomeBelow(hash, k, n);
    }
  }
}
