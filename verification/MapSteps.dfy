/** The phases of an update and of a deletion, and what they make of the index together. */
module MapSteps {
  import opened Zids
  import Text
  import opened MapIndexes

  function Base(e: Entry): (r: Entry) {
    e.(other := map[])
  }

  /** The index as it is once the record `zi` of `z` is in it: now, or after a first indexing. */
  function Final(idx: map<Zid, Entry>, z: Zid, zi: Entry, existed: bool): (m: map<Zid, Entry>) {
    if existed then idx else idx[z := zi]
  }

  function DropInverse(e: Entry, key: Key, z: Zid): (r: Entry) {
    if key !in e.other then e else
    var b := e.other[key].(backward := e.other[key].backward - {z});
    if b.backward != {} || b.forward != {} then e.(other := e.other[key := b]) else e.(other := e.other - {key})
  }

  function AddInverse(e: Entry, key: Key, z: Zid): (r: Entry) {
    var b := if key in e.other then e.other[key] else Bidi({}, {});
    e.(other := e.other[key := b.(backward := b.backward + {z})])
  }

  /** The zettel in `refs` that are not indexed themselves. */
  function Unindexed(m: map<Zid, Entry>, refs: set<Zid>): (r: set<Zid>) {
    set r | r in refs && At(m, r).meta.None?
  }

  /** Only the back links of the zettel in `refs` differ. */
  ghost predicate BacklinksChanged(m: map<Zid, Entry>, refs: set<Zid>, z: Zid, gained: bool, m': map<Zid, Entry>) {
    && m'.Keys == m.Keys + refs
    && forall r ::
       At(m', r) == At(m, r).(backward := Adjusted(At(m, r).backward, z, gained && r in refs, !gained && r in refs))
  }

  /** Only the back references under `key` of the zettel in `refs` differ. */
  ghost predicate InverseChanged(m: map<Zid, Entry>, refs: set<Zid>, key: Key, z: Zid, gained: bool,
                                 m': map<Zid, Entry>)
  {
    && (forall r :: Base(At(m', r)) == Base(At(m, r)))
    && (forall r, k :: ForwardBy(At(m', r), k) == ForwardBy(At(m, r), k))
    && (forall r, k :: BackwardBy(At(m', r), k) ==
          Adjusted(BackwardBy(At(m, r), k), z, gained && k == key && r in refs, !gained && k == key && r in refs))
  }

  /** The links of `z` are `brefs` now, and the back links of old and new targets follow. */
  ghost predicate LinksPhase(m: map<Zid, Entry>, z: Zid, brefs: set<Zid>, existed: bool, m': map<Zid, Entry>) {
    var prev := At(m, z).forward;
    && m'.Keys == m.Keys + (prev - brefs) + (brefs - prev)
    && forall r :: At(m', r) == At(m, r).(
         forward := if r == z then brefs else At(m, r).forward,
         backward := if r == z && !existed then At(m, r).backward else
           Adjusted(At(m, r).backward, z, r in brefs - prev, r in prev - brefs))
  }

  /** The references of `z` under `key` are `mrefs` now, and those of the targets follow. */
  ghost predicate KeyPhase(m: map<Zid, Entry>, z: Zid, key: Key, mrefs: set<Zid>, existed: bool, m': map<Zid, Entry>) {
    var prev := ForwardBy(At(m, z), key);
    && (forall r :: Base(At(m', r)) == Base(At(m, r)))
    && (forall r, k :: ForwardBy(At(m', r), k) == if r == z && k == key then mrefs else ForwardBy(At(m, r), k))
    && (forall r, k :: BackwardBy(At(m', r), k) == if r == z && !existed then BackwardBy(At(m, r), k) else
          Adjusted(BackwardBy(At(m, r), k), z, k == key && r in mrefs - prev, k == key && r in prev - mrefs))
  }

  /** The references of `r` under `k`, and those to it, once all keys in `done` of `z` are as submitted. */
  function KeysForward(m: map<Zid, Entry>, z: Zid, inv: map<Key, set<Zid>>, done: set<Key>, r: Zid,
                       k: Key): (s: set<Zid>)
  {
    if r == z && k in done && k in inv then inv[k] else ForwardBy(At(m, r), k)
  }

  function KeysBackward(m: map<Zid, Entry>, z: Zid, inv: map<Key, set<Zid>>, existed: bool, done: set<Key>, r: Zid,
                        k: Key): (s: set<Zid>)
  {
    if (r == z && !existed) || k !in done then BackwardBy(At(m, r), k)
    else Adjusted(BackwardBy(At(m, r), k), z, r in Get(inv, k) - ForwardBy(At(m, z), k),
        r in ForwardBy(At(m, z), k) - Get(inv, k))
  }

  /** What `KeyPhase` does, for all keys in `done`; a key that is not submitted has no references. */
  ghost predicate KeysPhase(m: map<Zid, Entry>, z: Zid, inv: map<Key, set<Zid>>, existed: bool, done: set<Key>,
                            m': map<Zid, Entry>)
  {
    && (forall r :: Base(At(m', r)) == Base(At(m, r)))
    && (forall r, k :: ForwardBy(At(m', r), k) == KeysForward(m, z, inv, done, r, k))
    && (forall r, k :: BackwardBy(At(m', r), k) == KeysBackward(m, z, inv, existed, done, r, k))
  }

  ghost predicate RecordDropped(m: map<Zid, Entry>, z: Zid, m': map<Zid, Entry>) {
    && m'.Keys == m.Keys - {z}
    && (forall r :: r != z ==> Base(At(m', r)) == Base(At(m, r)))
    && (forall r, k :: r != z ==> ForwardBy(At(m', r), k) == ForwardBy(At(m, r), k))
    && (forall r, k :: r != z ==>
          BackwardBy(At(m', r), k) == Adjusted(BackwardBy(At(m, r), k), z, false, r in ForwardBy(At(m, z), k)))
  }

  lemma DropDone(m: map<Zid, Entry>, z: Zid, m3: map<Zid, Entry>, m4: map<Zid, Entry>)
    requires KeysPhase(m, z, map[], true, At(m, z).other.Keys - {}, m3) && m3.Keys == m.Keys && m4 == m3 - {z}
    ensures RecordDropped(m, z, m4)
  {
    forall r | r != z ensures Base(At(m4, r)) == Base(At(m, r)) {
      assert Base(At(m3, r)) == Base(At(m, r));
    }
    forall r, k | r != z
      ensures ForwardBy(At(m4, r), k) == ForwardBy(At(m, r), k)
      ensures BackwardBy(At(m4, r), k) == Adjusted(BackwardBy(At(m, r), k), z, false, r in ForwardBy(At(m, z), k))
    {
      KeysAt(m, z, map[], true, At(m, z).other.Keys - {}, m3, r, k);
    }
  }

  lemma CutDone(m: map<Zid, Entry>, z: Zid, m2: map<Zid, Entry>, m4: map<Zid, Entry>)
    requires z in m && RecordsCut(m, z, m2) && RecordDropped(m2, z, m4)
    ensures LinksCut(m, z, m4) && InverseCut(m, z, m4)
    ensures forall r :: r != z ==> At(m4, r).words == At(m, r).words && At(m4, r).urls == At(m, r).urls
  {
    forall r | r != z
      ensures Base(At(m4, r)) ==
              Base(At(m, r)).(backward := Adjusted(At(m, r).backward, z, false, r in m[z].forward),
                              forward := Adjusted(At(m, r).forward, z, false, r in m[z].backward))
    {
      assert At(m2, r) == At(m, r).(
        backward := Adjusted(At(m, r).backward, z, false, r in m[z].forward),
        forward := Adjusted(At(m, r).forward, z, false, r in m[z].backward));
      assert Base(At(m4, r)) == Base(At(m2, r));
    }
    forall r, k | r != z
      ensures ForwardBy(At(m4, r), k) == ForwardBy(At(m, r), k)
      ensures BackwardBy(At(m4, r), k) == Adjusted(BackwardBy(At(m, r), k), z, false, r in ForwardBy(m[z], k))
    {
      assert At(m2, r).other == At(m, r).other && At(m2, z).other == At(m, z).other;
      assert ForwardBy(At(m4, r), k) == ForwardBy(At(m2, r), k);
      assert BackwardBy(At(m4, r), k) == Adjusted(BackwardBy(At(m2, r), k), z, false, r in ForwardBy(At(m2, z), k));
    }
  }

  /** Links from and to `z` are gone from all other records; the record of `z` is still there. */
  ghost predicate RecordsCut(m: map<Zid, Entry>, z: Zid, m': map<Zid, Entry>)
    requires z in m
  {
    && m'.Keys == m.Keys
    && (forall r :: r != z ==> At(m', r) == At(m, r).(
          backward := Adjusted(At(m, r).backward, z, false, r in m[z].forward),
          forward := Adjusted(At(m, r).forward, z, false, r in m[z].backward)))
    && (forall r :: At(m', r).other == At(m, r).other)
  }

  /** The indexed zettel that link to `z`, `z` itself left out if its own link is recorded. */
  function Referrers(m: map<Zid, Entry>, z: Zid): (r: set<Zid>) {
    if z !in m then {} else Adjusted(m[z].backward, z, false, z in m[z].forward) * m.Keys
  }

  /** In a consistent index, these are exactly the other zettel that link to `z`. */
  lemma ReferrersExact(s: State, z: Zid, y: Zid)
    requires Consistent(s) && z in s.idx
    ensures y in Referrers(s.idx, z) <==> y != z && z in At(s.idx, y).forward
  {
    assert y != z ==> (z in At(s.idx, y).forward <==> y in At(s.idx, z).backward);
    assert z in At(s.idx, z).backward ==> z in At(s.idx, z).forward;
  }

  /** `z` is gone from the back links of `backs` and from the links of `fores`. */
  ghost predicate SidesCut(m: map<Zid, Entry>, backs: set<Zid>, fores: set<Zid>, z: Zid, m': map<Zid, Entry>) {
    && m'.Keys == m.Keys
    && forall r :: At(m', r) == At(m, r).(backward := Adjusted(At(m, r).backward, z, false, r in backs),
                                         forward := Adjusted(At(m, r).forward, z, false, r in fores))
  }

  lemma SideCutAt(m: map<Zid, Entry>, backs: set<Zid>, fores: set<Zid>, z: Zid, m': map<Zid, Entry>, r: Zid)
    requires SidesCut(m, backs, fores, z, m')
    ensures At(m', r) == At(m, r).(backward := Adjusted(At(m, r).backward, z, false, r in backs),
                                   forward := Adjusted(At(m, r).forward, z, false, r in fores))
  {}

  lemma CutStep(m0: map<Zid, Entry>, backs: set<Zid>, fores: set<Zid>, z: Zid, m: map<Zid, Entry>, ref: Zid,
                back: bool, m': map<Zid, Entry>)
    requires SidesCut(m0, backs, fores, z, m) && ref !in (if back then backs else fores)
    requires m' == if ref !in m then m else
      if back then m[ref := m[ref].(backward := m[ref].backward - {z})]
      else m[ref := m[ref].(forward := m[ref].forward - {z})]
    ensures SidesCut(m0, if back then backs + {ref} else backs, if back then fores else fores + {ref}, z, m')
  {
    var backs', fores' := if back then backs + {ref} else backs, if back then fores else fores + {ref};
    forall r ensures At(m', r) == At(m0, r).(backward := Adjusted(At(m0, r).backward, z, false, r in backs'),
                                             forward := Adjusted(At(m0, r).forward, z, false, r in fores'))
    {
      SideCutAt(m0, backs, fores, z, m, r);
    }
  }

  lemma RecordCutAt(m: map<Zid, Entry>, z: Zid, m1: map<Zid, Entry>, m2: map<Zid, Entry>, r: Zid)
    requires z in m && SidesCut(m, m[z].forward, {}, z, m1) && SidesCut(m1, {}, At(m1, z).backward, z, m2)
    ensures r != z ==> At(m2, r) == At(m, r).(backward := Adjusted(At(m, r).backward, z, false, r in m[z].forward),
                                              forward := Adjusted(At(m, r).forward, z, false, r in m[z].backward))
    ensures At(m2, r).other == At(m, r).other
  {
    SideCutAt(m, m[z].forward, {}, z, m1, z);
    SideCutAt(m, m[z].forward, {}, z, m1, r);
    SideCutAt(m1, {}, At(m1, z).backward, z, m2, r);
  }

  /** The referenced zettel that are not indexed while `u` is. */
  function Pending(m: map<Zid, Entry>, u: ZettelIndex): (r: set<Zid>) {
    var e := At(m, u.zid);
    set r | r in (e.forward - u.backrefs) + (u.backrefs - e.forward) + NewInverse(e, u.inverseRefs)
      && At(m, r).meta.None? && (r != u.zid || u.zid !in m)
  }

  /**
   After every run, these are just the zettel without a current submission that `u` starts or ceases to link to, or
   refers to under a key for the first time.
   */
  lemma RunPending(ops: seq<Op>, s: State, u: ZettelIndex, r: Zid)
    requires Reached(ops, s)
    ensures r in Pending(s.idx, u) <==>
            && Current(ops, r).None? && (r != u.zid || u.zid !in s.idx)
            && ((r in LiveLinks(ops, u.zid)) != (r in u.backrefs)
                || exists k :: k in u.inverseRefs && r in u.inverseRefs[k] && r !in ForwardBy(At(s.idx, u.zid), k))
  {
    RunRecords(ops, s, r);
    RunRecords(ops, s, u.zid);
    PendingHas(s.idx, u, r);
  }

  lemma PendingHas(m: map<Zid, Entry>, u: ZettelIndex, r: Zid)
    ensures r in Pending(m, u) <==>
            && At(m, r).meta.None? && (r != u.zid || u.zid !in m)
            && ((r in At(m, u.zid).forward) != (r in u.backrefs)
                || exists k :: k in u.inverseRefs && r in u.inverseRefs[k] && r !in ForwardBy(At(m, u.zid), k))
  {
    var e, inv := At(m, u.zid), u.inverseRefs;
    if r in NewInverse(e, inv) {
      var k :| k in inv && r in inv[k] - ForwardBy(e, k);
      assert r in inv[k] && r !in ForwardBy(e, k);
    }
    if k :| k in inv && r in inv[k] && r !in ForwardBy(e, k) {
      assert r in inv[k] - ForwardBy(e, k);
    }
  }

  /** The index at the start of the update: the record of `u` is fresh, all else is as it was. */
  ghost predicate Prepared(m: map<Zid, Entry>, u: ZettelIndex, m0: map<Zid, Entry>) {
    && m0.Keys == m.Keys + {u.zid}
    && forall r :: At(m0, r) == if r == u.zid then At(m, r).(meta := Text.Some(u.meta), dead := u.deadrefs)
       else At(m, r)
  }

  /** The last step writes the word lists into the record. */
  ghost predicate Stored(m2: map<Zid, Entry>, z: Zid, list: seq<string>, list2: seq<string>, m3: map<Zid, Entry>) {
    m3 == m2[z := At(m2, z).(words := list, urls := list2)]
  }

  ghost predicate AfterLinks(m: map<Zid, Entry>, u: ZettelIndex, m1: map<Zid, Entry>) {
    var z, e := u.zid, At(m, u.zid);
    && m1.Keys == m.Keys + {z} + (u.backrefs - e.forward) + (e.forward - u.backrefs)
    && forall r :: At(m1, r) == LinkedRecord(m, u, r)
  }

  ghost predicate TextsKept(m: map<Zid, Entry>, m': map<Zid, Entry>) {
    forall r :: At(m', r).words == At(m, r).words && At(m', r).urls == At(m, r).urls
  }

  ghost predicate AfterKeys(m: map<Zid, Entry>, u: ZettelIndex, m2: map<Zid, Entry>) {
    RecordsUpdated(m, u, m2) && InverseUpdated(m, u, m2) && TextsKept(m, m2)
  }

  lemma LinksFollow(m: map<Zid, Entry>, u: ZettelIndex, m0: map<Zid, Entry>, m1: map<Zid, Entry>)
    requires Prepared(m, u, m0) && LinksPhase(m0, u.zid, u.backrefs, u.zid in m, m1)
    ensures AfterLinks(m, u, m1)
  {
    assert At(m0, u.zid) == At(m, u.zid).(meta := Text.Some(u.meta), dead := u.deadrefs);
    forall r ensures At(m1, r) == LinkedRecord(m, u, r) {
      assert At(m0, r) == if r == u.zid then At(m, r).(meta := Text.Some(u.meta), dead := u.deadrefs) else At(m, r);
    }
  }

  lemma KeysFollow(m: map<Zid, Entry>, u: ZettelIndex, m1: map<Zid, Entry>, keys: set<Key>, m2: map<Zid, Entry>)
    requires AfterLinks(m, u, m1) && KeysPhase(m1, u.zid, u.inverseRefs, u.zid in m, keys, m2)
    requires keys == At(m1, u.zid).other.Keys + u.inverseRefs.Keys
    requires m2.Keys == m1.Keys + NewInverse(At(m1, u.zid), u.inverseRefs)
    ensures AfterKeys(m, u, m2)
  {
    KeysFollowRecords(m, u, m1, keys, m2);
    KeysFollowInverse(m, u, m1, keys, m2);
  }

  lemma KeysFollowRecords(m: map<Zid, Entry>, u: ZettelIndex, m1: map<Zid, Entry>, keys: set<Key>, m2: map<Zid, Entry>)
    requires AfterLinks(m, u, m1) && KeysPhase(m1, u.zid, u.inverseRefs, u.zid in m, keys, m2)
    requires m2.Keys == m1.Keys + NewInverse(At(m1, u.zid), u.inverseRefs)
    ensures RecordsUpdated(m, u, m2) && TextsKept(m, m2)
  {
    assert At(m1, u.zid) == LinkedRecord(m, u, u.zid);
    NewInverseSame(At(m1, u.zid), At(m, u.zid), u.inverseRefs);
    forall r ensures Base(At(m2, r)) == Base(LinkedRecord(m, u, r)) {
      RecordFollows(m, u, m1, keys, m2, r);
    }
    BaseFollows(m, u, m2);
  }

  lemma KeysFollowInverse(m: map<Zid, Entry>, u: ZettelIndex, m1: map<Zid, Entry>, keys: set<Key>, m2: map<Zid, Entry>)
    requires AfterLinks(m, u, m1) && KeysPhase(m1, u.zid, u.inverseRefs, u.zid in m, keys, m2)
    requires keys == At(m1, u.zid).other.Keys + u.inverseRefs.Keys
    ensures InverseUpdated(m, u, m2)
  {
    forall r, k
      ensures ForwardBy(At(m2, r), k) == NewForward(m, u, r, k)
      ensures BackwardBy(At(m2, r), k) == NewBackward(m, u, r, k)
    {
      InverseFollows(m, u, m1, keys, m2, r, k);
    }
  }

  lemma BaseFollows(m: map<Zid, Entry>, u: ZettelIndex, m2: map<Zid, Entry>)
    requires forall r :: Base(At(m2, r)) == Base(LinkedRecord(m, u, r))
    ensures forall r :: Links(At(m2, r)) == Links(LinkedRecord(m, u, r))
    ensures TextsKept(m, m2)
  {
    forall r ensures Links(At(m2, r)) == Links(LinkedRecord(m, u, r)) && At(m2, r).words == At(m, r).words && At(m2,
                           r).urls == At(m, r).urls {
      assert Base(At(m2, r)) == Base(LinkedRecord(m, u, r));
    }
  }

  lemma NewInverseSame(e: Entry, e': Entry, inv: map<Key, set<Zid>>)
    requires e.other == e'.other
    ensures NewInverse(e, inv) == NewInverse(e', inv)
  {
    assert forall k :: ForwardBy(e, k) == ForwardBy(e', k);
  }

  lemma RecordFollows(m: map<Zid, Entry>, u: ZettelIndex, m1: map<Zid, Entry>, keys: set<Key>, m2: map<Zid, Entry>,
                      r: Zid)
    requires AfterLinks(m, u, m1) && KeysPhase(m1, u.zid, u.inverseRefs, u.zid in m, keys, m2)
    ensures Base(At(m2, r)) == Base(LinkedRecord(m, u, r))
  {
    assert Base(At(m2, r)) == Base(At(m1, r));
    assert At(m1, r) == LinkedRecord(m, u, r);
  }

  lemma InverseFollows(m: map<Zid, Entry>, u: ZettelIndex, m1: map<Zid, Entry>, keys: set<Key>, m2: map<Zid, Entry>,
                       r: Zid, k: Key)
    requires AfterLinks(m, u, m1) && KeysPhase(m1, u.zid, u.inverseRefs, u.zid in m, keys, m2)
    requires keys == At(m1, u.zid).other.Keys + u.inverseRefs.Keys
    ensures ForwardBy(At(m2, r), k) == NewForward(m, u, r, k)
    ensures BackwardBy(At(m2, r), k) == NewBackward(m, u, r, k)
  {
    assert At(m1, r) == LinkedRecord(m, u, r) && At(m1, u.zid) == LinkedRecord(m, u, u.zid);
    KeysAt(m1, u.zid, u.inverseRefs, u.zid in m, keys, m2, r, k);
    assert k !in keys ==> ForwardBy(At(m, u.zid), k) == {} && Get(u.inverseRefs, k) == {};
    assert u.zid !in m ==> BackwardBy(At(m, u.zid), k) == {};
  }

  lemma StoreTexts(m: map<Zid, Entry>, u: ZettelIndex, m2: map<Zid, Entry>, list: seq<string>, list2: seq<string>,
                   m3: map<Zid, Entry>)
    requires AfterKeys(m, u, m2) && u.zid in m2 && Stored(m2, u.zid, list, list2, m3)
    ensures RecordsUpdated(m, u, m3) && InverseUpdated(m, u, m3)
    ensures forall r :: r != u.zid ==> At(m3, r).words == At(m, r).words && At(m3, r).urls == At(m, r).urls
  {
    assert m3.Keys == m2.Keys;
    forall r ensures Links(At(m3, r)) == Links(LinkedRecord(m, u, r)) {
      assert Links(At(m3, r)) == Links(At(m2, r));
    }
    forall r, k
      ensures ForwardBy(At(m3, r), k) == NewForward(m, u, r, k)
      ensures BackwardBy(At(m3, r), k) == NewBackward(m, u, r, k)
    {
      assert At(m3, r).other == At(m2, r).other;
      InverseAt(m, u, m2, r, k);
    }
    forall r | r != u.zid ensures At(m3, r).words == At(m, r).words && At(m3, r).urls == At(m, r).urls {
      assert At(m3, r) == At(m2, r);
    }
  }

  lemma PendingDone(m: map<Zid, Entry>, u: ZettelIndex, i0: map<Zid, Entry>, i1: map<Zid, Entry>, z1: Entry)
    requires i0 == if u.zid in m then m[u.zid := m[u.zid].(meta := Text.Some(u.meta), dead := u.deadrefs)] else m
    requires SameIndexed(i0, i1) && z1.other == At(m, u.zid).other
    ensures var e := At(m, u.zid);
      Unindexed(i0, (e.forward - u.backrefs) + (u.backrefs - e.forward)) + Unindexed(i1, NewInverse(z1, u.inverseRefs))
          == Pending(m, u)
  {
    NewInverseSame(z1, At(m, u.zid), u.inverseRefs);
    forall r ensures At(i1, r).meta.Some? == (At(m, r).meta.Some? || (r == u.zid && u.zid in m)) {
      assert At(i1, r).meta == At(i0, r).meta;
    }
  }

  ghost predicate SameIndexed(m: map<Zid, Entry>, m': map<Zid, Entry>) {
    forall r :: At(m', r).meta == At(m, r).meta
  }

  lemma SameIndexedStep(m0: map<Zid, Entry>, m: map<Zid, Entry>, m': map<Zid, Entry>)
    requires SameIndexed(m0, m) && forall r :: Base(At(m', r)) == Base(At(m, r))
    ensures SameIndexed(m0, m')
  {
    forall r ensures At(m', r).meta == At(m0, r).meta {
      assert Base(At(m', r)) == Base(At(m, r));
    }
  }

  lemma UnindexedStep(m0: map<Zid, Entry>, m: map<Zid, Entry>, m': map<Zid, Entry>, a: set<Zid>, b: set<Zid>)
    requires SameIndexed(m0, m) && SameIndexed(m, m')
    ensures SameIndexed(m0, m') && Unindexed(m0, a + b) == Unindexed(m0, a) + Unindexed(m, b)
  {
    forall r ensures At(m', r).meta == At(m0, r).meta && At(m, r).meta == At(m0, r).meta {}
  }

  /** Dropping keys leaves the forward sets as they are. */
  lemma DroppedForward(m0: map<Zid, Entry>, z: Zid, inv: map<Key, set<Zid>>, existed: bool, dropped: set<Key>,
                       m1: map<Zid, Entry>)
    requires KeysPhase(m0, z, inv, existed, dropped, m1) && dropped !! inv.Keys
    ensures forall k :: ForwardBy(At(m1, z), k) == ForwardBy(At(m0, z), k)
    ensures NewInverse(At(m1, z), inv) == NewInverse(At(m0, z), inv)
  {
    forall k ensures ForwardBy(At(m1, z), k) == ForwardBy(At(m0, z), k) {
      KeysAt(m0, z, inv, existed, dropped, m1, z, k);
    }
  }

  lemma KeysBoth(m0: map<Zid, Entry>, z: Zid, inv: map<Key, set<Zid>>, existed: bool, dropped: set<Key>,
                 m1: map<Zid, Entry>, m2: map<Zid, Entry>)
    requires KeysPhase(m0, z, inv, existed, dropped, m1) && KeysPhase(m1, z, inv, existed, inv.Keys, m2)
             && dropped !! inv.Keys
    ensures KeysPhase(m0, z, inv, existed, dropped + inv.Keys, m2)
  {
    forall r ensures Base(At(m2, r)) == Base(At(m0, r)) {
      assert Base(At(m1, r)) == Base(At(m0, r));
    }
    forall r, k
      ensures ForwardBy(At(m2, r), k) == KeysForward(m0, z, inv, dropped + inv.Keys, r, k)
      ensures BackwardBy(At(m2, r), k) == KeysBackward(m0, z, inv, existed, dropped + inv.Keys, r, k)
    {
      KeysBothAt(m0, z, inv, existed, dropped, m1, m2, r, k);
    }
  }

  lemma KeysBothAt(m0: map<Zid, Entry>, z: Zid, inv: map<Key, set<Zid>>, existed: bool, dropped: set<Key>,
                   m1: map<Zid, Entry>, m2: map<Zid, Entry>, r: Zid, k: Key)
    requires KeysPhase(m0, z, inv, existed, dropped, m1) && KeysPhase(m1, z, inv, existed, inv.Keys, m2)
             && dropped !! inv.Keys
    ensures ForwardBy(At(m2, r), k) == KeysForward(m0, z, inv, dropped + inv.Keys, r, k)
    ensures BackwardBy(At(m2, r), k) == KeysBackward(m0, z, inv, existed, dropped + inv.Keys, r, k)
  {
    KeysAt(m0, z, inv, existed, dropped, m1, z, k);
    KeysAt(m0, z, inv, existed, dropped, m1, r, k);
    KeysAt(m1, z, inv, existed, inv.Keys, m2, r, k);
  }

  lemma MetadataDone(i0: map<Zid, Entry>, z: Zid, zi: Entry, existed: bool, inv: map<Key, set<Zid>>,
                     i1: map<Zid, Entry>, z1: Entry)
    requires i1.Keys == i0.Keys && SameIndexed(i0, i1)
    ensures Final(i1, z, z1, existed).Keys == Final(i0, z, zi, existed).Keys
    ensures zi.other.Keys - inv.Keys + inv.Keys == zi.other.Keys + inv.Keys
    ensures Unindexed(i1, NewInverse(zi, inv)) == Unindexed(i0, NewInverse(zi, inv))
  {}

  lemma SetsStep(k0: set<Zid>, a: set<Zid>, k: set<Zid>, b: set<Zid>, todo: set<Key>, done: set<Key>, key: Key)
    requires k == k0 + a && key in todo && todo !! done
    ensures k + b == k0 + (a + b)
    ensures (todo - {key}) + (done + {key}) == todo + done && (todo - {key}) !! (done + {key})
  {}

  function Submap(inv: map<Key, set<Zid>>, keys: set<Key>): (r: map<Key, set<Zid>>) {
    map k | k in inv && k in keys :: inv[k]
  }

  lemma NewInverseStep(e: Entry, inv: map<Key, set<Zid>>, keys: set<Key>, key: Key)
    requires key in inv
    ensures NewInverse(e, Submap(inv, keys + {key}))
            == NewInverse(e, Submap(inv, keys)) + (inv[key] - ForwardBy(e, key))
  {
    var a, b := NewInverse(e, Submap(inv, keys + {key})), NewInverse(e, Submap(inv, keys));
    forall r ensures r in a <==> r in b + (inv[key] - ForwardBy(e, key)) {
      if r in a {
        var k :| k in Submap(inv, keys + {key}) && r in inv[k] - ForwardBy(e, k);
        if k != key { assert k in Submap(inv, keys); }
      }
      if r in b {
        var k :| k in Submap(inv, keys) && r in inv[k] - ForwardBy(e, k);
        assert k in Submap(inv, keys + {key});
      }
      if r in inv[key] - ForwardBy(e, key) { assert key in Submap(inv, keys + {key}); }
    }
  }

  function WithKey(e: Entry, key: Key, mrefs: set<Zid>): (r: Entry) {
    var mr := if key in e.other then e.other[key] else Bidi({}, {});
    e.(other := e.other[key := mr.(forward := mrefs)])
  }

  lemma KeyDone(m0: map<Zid, Entry>, z: Zid, zi: Entry, existed: bool, key: Key, mrefs: set<Zid>,
                m1: map<Zid, Entry>, m2: map<Zid, Entry>, m3: map<Zid, Entry>, zi': Entry)
    requires existed ==> z in m0 && m0[z] == zi && zi' == At(m3, z)
    requires !existed ==> zi' == WithKey(zi, key, mrefs)
    requires m1 == if existed then m0[z := WithKey(zi, key, mrefs)] else m0
    requires InverseChanged(m1, mrefs - ForwardBy(zi, key), key, z, true, m2)
    requires InverseChanged(m2, ForwardBy(zi, key) - mrefs, key, z, false, m3)
    ensures KeyPhase(Final(m0, z, zi, existed), z, key, mrefs, existed, Final(m3, z, zi', existed))
  {
    var f, f' := Final(m0, z, zi, existed), Final(m3, z, zi', existed);
    forall r ensures Base(At(f', r)) == Base(At(f, r)) {
      assert Base(At(m2, r)) == Base(At(m1, r));
      assert Base(At(m3, r)) == Base(At(m2, r));
    }
    var prev := ForwardBy(At(f, z), key);
    forall r, k
      ensures ForwardBy(At(f', r), k) == if r == z && k == key then mrefs else ForwardBy(At(f, r), k)
      ensures BackwardBy(At(f', r), k) == if r == z && !existed then BackwardBy(At(f, r), k) else
        Adjusted(BackwardBy(At(f, r), k), z, k == key && r in mrefs - prev, k == key && r in prev - mrefs)
    {
      KeyDoneAt(m0, z, zi, existed, key, mrefs, m1, m2, m3, zi', r, k);
    }
  }

  lemma KeyDoneAt(m0: map<Zid, Entry>, z: Zid, zi: Entry, existed: bool, key: Key, mrefs: set<Zid>,
                  m1: map<Zid, Entry>, m2: map<Zid, Entry>, m3: map<Zid, Entry>, zi': Entry, r: Zid, k: Key)
    requires existed ==> z in m0 && m0[z] == zi && zi' == At(m3, z)
    requires !existed ==> zi' == WithKey(zi, key, mrefs)
    requires m1 == if existed then m0[z := WithKey(zi, key, mrefs)] else m0
    requires InverseChanged(m1, mrefs - ForwardBy(zi, key), key, z, true, m2)
    requires InverseChanged(m2, ForwardBy(zi, key) - mrefs, key, z, false, m3)
    ensures var f, f' := Final(m0, z, zi, existed), Final(m3, z, zi', existed);
      && ForwardBy(At(f', r), k) == (if r == z && k == key then mrefs else ForwardBy(At(f, r), k))
      && BackwardBy(At(f', r), k) == if r == z && !existed then BackwardBy(At(f, r), k) else
        Adjusted(BackwardBy(At(f, r), k), z, k == key && r in mrefs - ForwardBy(zi, key), k == key
            && r in ForwardBy(zi, key) - mrefs)
  {
    TwoChanges(m1, mrefs - ForwardBy(zi, key), key, z, m2, ForwardBy(zi, key) - mrefs, m3, r, k);
    WithKeyAt(zi, key, mrefs, k);
  }

  lemma WithKeyAt(e: Entry, key: Key, mrefs: set<Zid>, k: Key)
    ensures ForwardBy(WithKey(e, key, mrefs), k) == if k == key then mrefs else ForwardBy(e, k)
    ensures BackwardBy(WithKey(e, key, mrefs), k) == BackwardBy(e, k)
  {}

  lemma TwoChanges(m1: map<Zid, Entry>, gain: set<Zid>, key: Key, z: Zid, m2: map<Zid, Entry>, lose: set<Zid>,
                   m3: map<Zid, Entry>, r: Zid, k: Key)
    requires InverseChanged(m1, gain, key, z, true, m2) && InverseChanged(m2, lose, key, z, false, m3) && gain !! lose
    ensures ForwardBy(At(m3, r), k) == ForwardBy(At(m1, r), k)
    ensures BackwardBy(At(m3, r), k)
            == Adjusted(BackwardBy(At(m1, r), k), z, k == key && r in gain, k == key && r in lose)
  {
    assert ForwardBy(At(m2, r), k) == ForwardBy(At(m1, r), k);
    assert BackwardBy(At(m2, r), k) == Adjusted(BackwardBy(At(m1, r), k), z, k == key && r in gain, false);
  }

  /** One more key done. */
  lemma KeysStep(m0: map<Zid, Entry>, z: Zid, inv: map<Key, set<Zid>>, existed: bool, done: set<Key>,
                 m: map<Zid, Entry>, key: Key, m': map<Zid, Entry>)
    requires KeysPhase(m0, z, inv, existed, done, m) && key !in done && key in inv
    requires KeyPhase(m, z, key, inv[key], existed, m')
    ensures KeysPhase(m0, z, inv, existed, done + {key}, m')
  {
    forall r ensures Base(At(m', r)) == Base(At(m0, r)) {
      assert Base(At(m, r)) == Base(At(m0, r));
    }
    forall r, k
      ensures ForwardBy(At(m', r), k) == KeysForward(m0, z, inv, done + {key}, r, k)
      ensures BackwardBy(At(m', r), k) == KeysBackward(m0, z, inv, existed, done + {key}, r, k)
    {
      KeysStepAt(m0, z, inv, existed, done, m, key, m', r, k);
    }
  }

  lemma KeysStepAt(m0: map<Zid, Entry>, z: Zid, inv: map<Key, set<Zid>>, existed: bool, done: set<Key>,
                   m: map<Zid, Entry>, key: Key, m': map<Zid, Entry>, r: Zid, k: Key)
    requires KeysPhase(m0, z, inv, existed, done, m) && key !in done && key in inv
    requires KeyPhase(m, z, key, inv[key], existed, m')
    ensures ForwardBy(At(m', r), k) == KeysForward(m0, z, inv, done + {key}, r, k)
    ensures BackwardBy(At(m', r), k) == KeysBackward(m0, z, inv, existed, done + {key}, r, k)
  {
    KeysAt(m0, z, inv, existed, done, m, z, key);
    KeysAt(m0, z, inv, existed, done, m, r, k);
    KeyAt(m, z, key, inv[key], existed, m', r, k);
  }

  lemma KeysAt(m0: map<Zid, Entry>, z: Zid, inv: map<Key, set<Zid>>, existed: bool, done: set<Key>, m: map<Zid, Entry>,
               r: Zid, k: Key)
    requires KeysPhase(m0, z, inv, existed, done, m)
    ensures ForwardBy(At(m, r), k) == KeysForward(m0, z, inv, done, r, k)
    ensures BackwardBy(At(m, r), k) == KeysBackward(m0, z, inv, existed, done, r, k)
  {}

  lemma KeyAt(m: map<Zid, Entry>, z: Zid, key: Key, mrefs: set<Zid>, existed: bool, m': map<Zid, Entry>, r: Zid, k: Key)
    requires KeyPhase(m, z, key, mrefs, existed, m')
    ensures ForwardBy(At(m', r), k) == if r == z && k == key then mrefs else ForwardBy(At(m, r), k)
    ensures BackwardBy(At(m', r), k) == if r == z && !existed then BackwardBy(At(m, r), k) else
        Adjusted(BackwardBy(At(m, r), k), z, k == key && r in mrefs - ForwardBy(At(m, z), key),
                 k == key && r in ForwardBy(At(m, z), key) - mrefs)
  {}

  /** A key that is no longer submitted: only the targets change. */
  lemma KeysDropStep(m0: map<Zid, Entry>, z: Zid, inv: map<Key, set<Zid>>, done: set<Key>,
                     m: map<Zid, Entry>, key: Key, m': map<Zid, Entry>)
    requires KeysPhase(m0, z, inv, true, done, m) && key !in done && key !in inv
    requires InverseChanged(m, ForwardBy(At(m0, z), key), key, z, false, m')
    ensures KeysPhase(m0, z, inv, true, done + {key}, m')
  {
    forall r ensures Base(At(m', r)) == Base(At(m0, r)) {
      assert Base(At(m, r)) == Base(At(m0, r));
    }
    forall r, k
      ensures ForwardBy(At(m', r), k) == KeysForward(m0, z, inv, done + {key}, r, k)
      ensures BackwardBy(At(m', r), k) == KeysBackward(m0, z, inv, true, done + {key}, r, k)
    {
      KeysDropStepAt(m0, z, inv, done, m, key, m', r, k);
    }
  }

  lemma KeysDropStepAt(m0: map<Zid, Entry>, z: Zid, inv: map<Key, set<Zid>>, done: set<Key>,
                       m: map<Zid, Entry>, key: Key, m': map<Zid, Entry>, r: Zid, k: Key)
    requires KeysPhase(m0, z, inv, true, done, m) && key !in done && key !in inv
    requires InverseChanged(m, ForwardBy(At(m0, z), key), key, z, false, m')
    ensures ForwardBy(At(m', r), k) == KeysForward(m0, z, inv, done + {key}, r, k)
    ensures BackwardBy(At(m', r), k) == KeysBackward(m0, z, inv, true, done + {key}, r, k)
  {
    KeysAt(m0, z, inv, true, done, m, r, k);
    InverseAtKey(m, ForwardBy(At(m0, z), key), key, z, false, m', r, k);
  }

  lemma InverseAtKey(m: map<Zid, Entry>, refs: set<Zid>, key: Key, z: Zid, gained: bool, m': map<Zid, Entry>, r: Zid,
                     k: Key)
    requires InverseChanged(m, refs, key, z, gained, m')
    ensures ForwardBy(At(m', r), k) == ForwardBy(At(m, r), k)
    ensures BackwardBy(At(m', r), k)
            == Adjusted(BackwardBy(At(m, r), k), z, gained && k == key && r in refs, !gained && k == key && r in refs)
  {}

  lemma LinksDone(m0: map<Zid, Entry>, z: Zid, zi: Entry, existed: bool, brefs: set<Zid>,
                  m1: map<Zid, Entry>, m2: map<Zid, Entry>, m3: map<Zid, Entry>, zi': Entry)
    requires existed ==> z in m0 && m0[z] == zi && zi' == At(m3, z)
    requires !existed ==> zi' == zi.(forward := brefs)
    requires m1 == if existed then m0[z := zi.(forward := brefs)] else m0
    requires BacklinksChanged(m1, zi.forward - brefs, z, false, m2)
    requires BacklinksChanged(m2, brefs - zi.forward, z, true, m3)
    ensures LinksPhase(Final(m0, z, zi, existed), z, brefs, existed, Final(m3, z, zi', existed))
  {
    var f, f' := Final(m0, z, zi, existed), Final(m3, z, zi', existed);
    forall r ensures At(f', r) == At(f, r).(
      forward := if r == z then brefs else At(f, r).forward,
      backward := if r == z && !existed then At(f, r).backward else
        Adjusted(At(f, r).backward, z, r in brefs - zi.forward, r in zi.forward - brefs))
    {
      assert At(m2, r) == At(m1, r).(backward := Adjusted(At(m1, r).backward, z, false, r in zi.forward - brefs));
      assert At(m3, r) == At(m2, r).(backward := Adjusted(At(m2, r).backward, z, r in brefs - zi.forward, false));
    }
  }

  lemma LinksKeep(m0: map<Zid, Entry>, m1: map<Zid, Entry>, a: set<Zid>, z: Zid, gained: bool, m2: map<Zid, Entry>)
    requires SameIndexed(m0, m1) && BacklinksChanged(m1, a, z, gained, m2)
    ensures SameIndexed(m0, m2) && At(m2, z).other == At(m1, z).other
  {
    forall r ensures At(m2, r).meta == At(m1, r).meta && At(m2, r).other == At(m1, r).other {
      assert At(m2, r) == At(m1, r).(backward := Adjusted(At(m1, r).backward, z, gained && r in a, !gained && r in a));
    }
  }

  lemma StillUnindexed(m1: map<Zid, Entry>, a: set<Zid>, z: Zid, m2: map<Zid, Entry>, b: set<Zid>)
    requires BacklinksChanged(m1, a, z, false, m2)
    ensures Unindexed(m1, a) + Unindexed(m2, b) == Unindexed(m1, a + b)
  {
    forall r ensures At(m2, r).meta == At(m1, r).meta {
      assert At(m2, r) == At(m1, r).(backward := Adjusted(At(m1, r).backward, z, false, r in a));
    }
  }

  lemma BacklinksStep(m0: map<Zid, Entry>, m: map<Zid, Entry>, done: set<Zid>, ref: Zid, z: Zid, gained: bool,
                      m': map<Zid, Entry>)
    requires BacklinksChanged(m0, done, z, gained, m) && ref !in done
    requires var e := At(m, ref); m' == m[ref := e.(backward := if gained then e.backward + {z} else e.backward - {z})]
    ensures BacklinksChanged(m0, done + {ref}, z, gained, m')
    ensures Unindexed(m0, done + {ref}) == Unindexed(m0, done) + if At(m, ref).meta.Some? then {} else {ref}
  {
    forall r ensures At(m', r) == At(m0, r).(backward :=
      Adjusted(At(m0, r).backward, z, gained && r in done + {ref}, !gained && r in done + {ref}))
    {
      assert At(m, r)
          == At(m0, r).(backward := Adjusted(At(m0, r).backward, z, gained && r in done, !gained && r in done));
    }
    assert At(m, ref).meta == At(m0, ref).meta;
  }

  lemma AddInverseStep(m0: map<Zid, Entry>, m: map<Zid, Entry>, done: set<Zid>, ref: Zid, key: Key, z: Zid,
                       m': map<Zid, Entry>)
    requires InverseChanged(m0, done, key, z, true, m) && ref !in done
    requires m' == m[ref := AddInverse(At(m, ref), key, z)]
    ensures InverseChanged(m0, done + {ref}, key, z, true, m')
  {
    forall r ensures Base(At(m', r)) == Base(At(m0, r)) {
      assert Base(At(m, r)) == Base(At(m0, r));
    }
    forall r, k
      ensures ForwardBy(At(m', r), k) == ForwardBy(At(m0, r), k)
      ensures BackwardBy(At(m', r), k) == Adjusted(BackwardBy(At(m0, r), k), z, k == key && r in done + {ref}, false)
    {
      assert ForwardBy(At(m, r), k) == ForwardBy(At(m0, r), k);
      assert BackwardBy(At(m, r), k) == Adjusted(BackwardBy(At(m0, r), k), z, k == key && r in done, false);
    }
  }

  lemma DropInverseStep(m0: map<Zid, Entry>, m: map<Zid, Entry>, done: set<Zid>, ref: Zid, key: Key, z: Zid,
                        m': map<Zid, Entry>)
    requires InverseChanged(m0, done, key, z, false, m) && ref !in done
    requires m' == if ref in m then m[ref := DropInverse(m[ref], key, z)] else m
    ensures InverseChanged(m0, done + {ref}, key, z, false, m')
  {
    forall r ensures Base(At(m', r)) == Base(At(m0, r)) {
      assert Base(At(m, r)) == Base(At(m0, r));
    }
    forall r, k
      ensures ForwardBy(At(m', r), k) == ForwardBy(At(m0, r), k)
      ensures BackwardBy(At(m', r), k) == Adjusted(BackwardBy(At(m0, r), k), z, false, k == key && r in done + {ref})
    {
      assert ForwardBy(At(m, r), k) == ForwardBy(At(m0, r), k);
      assert BackwardBy(At(m, r), k) == Adjusted(BackwardBy(At(m0, r), k), z, false, k == key && r in done);
      if r == ref { DropInverseEffect(At(m, r), key, z, k); }
    }
  }

  lemma DropInverseEffect(e: Entry, key: Key, z: Zid, k: Key)
    ensures ForwardBy(DropInverse(e, key, z), k) == ForwardBy(e, k)
    ensures BackwardBy(DropInverse(e, key, z), k) == Adjusted(BackwardBy(e, k), z, false, k == key)
  {}
}
