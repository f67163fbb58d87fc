/**
 The contents of the in-memory index as values: what indexing and deleting a zettel do to them, and what
 holds after every run. A zettel data record is a value; where the original shares a pointer to it, the
 model writes the record back and reads it again.
 */
module MapIndexes {
  import Text
  import opened Zids

  type Key = string
  type Postings = map<string, set<Zid>>

  datatype Bidi = Bidi(forward: set<Zid>, backward: set<Zid>)

  type Pairs = map<Key, string>

  /** There is no copy of the metadata of a zettel that is only known because others refer to it. */
  datatype Entry = Entry(meta: Text.Option<Pairs>, dead: set<Zid>, forward: set<Zid>, backward: set<Zid>,
                         other: map<Key, Bidi>, words: seq<string>, urls: seq<string>)

  const BLANK := Entry(Text.None, {}, {}, {}, map[], [], [])

  /** What the indexer submits for one zettel; words and URLs come with their counts. */
  datatype ZettelIndex = ZettelIndex(zid: Zid, meta: Pairs, backrefs: set<Zid>, inverseRefs: map<Key, set<Zid>>,
                                     deadrefs: set<Zid>, words: map<string, nat>, urls: map<string, nat>)

  datatype State = State(idx: map<Zid, Entry>, dead: map<Zid, set<Zid>>, words: Postings, urls: Postings)

  const NEW_STATE := State(map[], map[], map[], map[])

  function Get<K>(m: map<K, set<Zid>>, k: K): (r: set<Zid>) {
    if k in m then m[k] else {}
  }

  function At(m: map<Zid, Entry>, z: Zid): (e: Entry) {
    if z in m then m[z] else BLANK
  }

  function ForwardBy(e: Entry, k: Key): (r: set<Zid>) {
    if k in e.other then e.other[k].forward else {}
  }

  function BackwardBy(e: Entry, k: Key): (r: set<Zid>) {
    if k in e.other then e.other[k].backward else {}
  }

  // ---------- What the two operations do to the state ----------

  /** `refs` without `z` where `lost`, and with it where `gained`. */
  function Adjusted(refs: set<Zid>, z: Zid, gained: bool, lost: bool): (r: set<Zid>) {
    if gained then refs + {z} else if lost then refs - {z} else refs
  }

  ghost predicate NoneEmpty(p: Postings) {
    forall w :: w in p ==> p[w] != {}
  }

  ghost predicate PostingsUpdated(p: Postings, prev: seq<string>, next: set<string>, z: Zid, p': Postings) {
    && (forall w :: Get(p', w) == Adjusted(Get(p, w), z, w in next && w !in prev, w in prev && w !in next))
    && (NoneEmpty(p) ==> NoneEmpty(p'))
  }

  /** A record without its metadata references and word lists. */
  function Links(e: Entry): (r: Entry) {
    e.(other := map[], words := [], urls := [])
  }

  /** The record of `r` as indexing `u` leaves it, but for metadata references and word lists. */
  function LinkedRecord(m: map<Zid, Entry>, u: ZettelIndex, r: Zid): (e: Entry) {
    // A first-time zettel replaces the placeholder that a link to itself made, back link and all.
    if r == u.zid && u.zid !in m then BLANK.(meta := Text.Some(u.meta), dead := u.deadrefs, forward := u.backrefs) else
    var b := Adjusted(At(m, r).backward, u.zid, r in u.backrefs - At(m, u.zid).forward,
        r in At(m, u.zid).forward - u.backrefs);
    if r == u.zid then At(m, r).(meta := Text.Some(u.meta), dead := u.deadrefs, forward := u.backrefs, backward := b)
    else At(m, r).(backward := b)
  }

  /** Which entries exist, and their links and back links. */
  ghost predicate RecordsUpdated(m: map<Zid, Entry>, u: ZettelIndex, m': map<Zid, Entry>) {
    var z, e := u.zid, At(m, u.zid);
    && m'.Keys == m.Keys + {z} + (u.backrefs - e.forward) + (e.forward - u.backrefs) + NewInverse(e, u.inverseRefs)
    && forall r :: Links(At(m', r)) == Links(LinkedRecord(m, u, r))
  }

  /** References by metadata keys. The forward set of a key that is no longer submitted stays. */
  ghost predicate InverseUpdated(m: map<Zid, Entry>, u: ZettelIndex, m': map<Zid, Entry>) {
    && (forall r, k :: ForwardBy(At(m', r), k) == NewForward(m, u, r, k))
    && (forall r, k :: BackwardBy(At(m', r), k) == NewBackward(m, u, r, k))
  }

  function NewForward(m: map<Zid, Entry>, u: ZettelIndex, r: Zid, k: Key): (f: set<Zid>) {
    if r == u.zid && k in u.inverseRefs then u.inverseRefs[k] else ForwardBy(At(m, r), k)
  }

  function NewBackward(m: map<Zid, Entry>, u: ZettelIndex, r: Zid, k: Key): (b: set<Zid>) {
    if r == u.zid && u.zid !in m then {} else
    Adjusted(BackwardBy(At(m, r), k), u.zid, r in Get(u.inverseRefs, k) - ForwardBy(At(m, u.zid), k),
             r in ForwardBy(At(m, u.zid), k) - Get(u.inverseRefs, k))
  }

  ghost predicate DeadUpdated(s: State, u: ZettelIndex, dead': map<Zid, set<Zid>>) {
    var z, e := u.zid, At(s.idx, u.zid);
    forall r :: Get(dead', r) ==
      Adjusted(if r == z then {} else Get(s.dead, r), z, r in u.deadrefs - e.dead, r in e.dead - u.deadrefs)
  }

  ghost predicate TextsUpdated(s: State, u: ZettelIndex, s': State) {
    var z, e := u.zid, At(s.idx, u.zid);
    && (forall r :: r != z ==> At(s'.idx, r).words == At(s.idx, r).words && At(s'.idx, r).urls == At(s.idx, r).urls)
    && (forall w :: w in At(s'.idx, z).words <==> w in u.words)
    && (forall w :: w in At(s'.idx, z).urls <==> w in u.urls)
    && PostingsUpdated(s.words, e.words, u.words.Keys, z, s'.words)
    && PostingsUpdated(s.urls, e.urls, u.urls.Keys, z, s'.urls)
  }

  /** The state after indexing `u`. */
  ghost predicate Updated(s: State, u: ZettelIndex, s': State) {
    && RecordsUpdated(s.idx, u, s'.idx) && InverseUpdated(s.idx, u, s'.idx)
    && DeadUpdated(s, u, s'.dead) && TextsUpdated(s, u, s')
  }

  function NewInverse(e: Entry, inv: map<Key, set<Zid>>): (r: set<Zid>) {
    set k, r | k in inv && r in inv[k] - ForwardBy(e, k) :: r
  }

  /** Links from and to a deleted zettel are cut on both sides. */
  ghost predicate LinksCut(m: map<Zid, Entry>, z: Zid, m': map<Zid, Entry>)
    requires z in m
  {
    && m'.Keys == m.Keys - {z}
    && forall r :: r != z ==>
         && At(m', r).meta == At(m, r).meta
         && At(m', r).dead == At(m, r).dead
         && At(m', r).backward == Adjusted(At(m, r).backward, z, false, r in m[z].forward)
         && At(m', r).forward == Adjusted(At(m, r).forward, z, false, r in m[z].backward)
  }

  /** References of a deleted zettel by metadata keys are cut at their targets only. */
  ghost predicate InverseCut(m: map<Zid, Entry>, z: Zid, m': map<Zid, Entry>)
    requires z in m
  {
    && (forall r, k :: r != z ==> ForwardBy(At(m', r), k) == ForwardBy(At(m, r), k))
    && (forall r, k :: r != z ==>
          BackwardBy(At(m', r), k) == Adjusted(BackwardBy(At(m, r), k), z, false, r in ForwardBy(m[z], k)))
  }

  ghost predicate TextsDeleted(s: State, z: Zid, s': State)
    requires z in s.idx
  {
    && (forall r :: r != z ==> At(s'.idx, r).words == At(s.idx, r).words && At(s'.idx, r).urls == At(s.idx, r).urls)
    && PostingsUpdated(s.words, s.idx[z].words, {}, z, s'.words)
    && PostingsUpdated(s.urls, s.idx[z].urls, {}, z, s'.urls)
  }

  /** The state after deleting `z`. */
  ghost predicate Deleted(s: State, z: Zid, s': State) {
    if z !in s.idx then s' == s else
    && LinksCut(s.idx, z, s'.idx) && InverseCut(s.idx, z, s'.idx) && TextsDeleted(s, z, s')
    && forall r :: Get(s'.dead, r) == Adjusted(Get(s.dead, r), z, false, r in s.idx[z].dead)
  }

  // ---------- What holds in every state ----------

  /** A zettel is posted under a word exactly when it contains the word. */
  ghost predicate WordsPosted(s: State) {
    && NoneEmpty(s.words) && NoneEmpty(s.urls)
    && (forall w, z :: z in Get(s.words, w) <==> w in At(s.idx, z).words)
    && (forall w, z :: z in Get(s.urls, w) <==> w in At(s.idx, z).urls)
  }

  /** Links and back links mirror each other between different zettel, and never dangle. */
  ghost predicate LinksMirrored(s: State) {
    && (forall y, r :: y != r ==> (r in At(s.idx, y).forward <==> y in At(s.idx, r).backward))
    && (forall y :: y in At(s.idx, y).backward ==> y in At(s.idx, y).forward)
    && (forall y, r :: r in At(s.idx, y).forward && r != y ==> r in s.idx)
  }

  /** No phantom entries: what is recorded about a source is backed by the source's own record. */
  ghost predicate NoPhantoms(s: State) {
    && (forall y, r :: y in Get(s.dead, r) ==> r in At(s.idx, y).dead)
    && InverseBacked(s.idx)
  }

  ghost predicate InverseBacked(m: map<Zid, Entry>) {
    forall y, r, k :: y in BackwardBy(At(m, r), k) ==> r in ForwardBy(At(m, y), k)
  }

  ghost predicate Consistent(s: State) {
    WordsPosted(s) && LinksMirrored(s) && NoPhantoms(s)
  }

  lemma UpdateKeepsWords(s: State, u: ZettelIndex, s': State)
    requires WordsPosted(s) && TextsUpdated(s, u, s')
    ensures WordsPosted(s')
  {
    forall w, z ensures z in Get(s'.words, w) <==> w in At(s'.idx, z).words {
      WordKept(s.words, s'.words, At(s.idx, u.zid).words, At(s'.idx, u.zid).words, u.words.Keys, u.zid,
               At(s.idx, z).words, At(s'.idx, z).words, w, z);
    }
    forall w, z ensures z in Get(s'.urls, w) <==> w in At(s'.idx, z).urls {
      WordKept(s.urls, s'.urls, At(s.idx, u.zid).urls, At(s'.idx, u.zid).urls, u.urls.Keys, u.zid,
               At(s.idx, z).urls, At(s'.idx, z).urls, w, z);
    }
  }

  lemma WordKept(p: Postings, p': Postings, prev: seq<string>, list: seq<string>, next: set<string>, u: Zid,
                 before: seq<string>, after: seq<string>, w: string, z: Zid)
    requires PostingsUpdated(p, prev, next, u, p')
    requires z in Get(p, w) <==> w in before
    requires if z == u then before == prev && after == list && (w in list <==> w in next) else after == before
    ensures z in Get(p', w) <==> w in after
  {}

  lemma UpdateKeepsLinks(s: State, u: ZettelIndex, s': State)
    requires LinksMirrored(s) && RecordsUpdated(s.idx, u, s'.idx)
    ensures LinksMirrored(s')
  {
    forall y, r ensures y != r ==> (r in At(s'.idx, y).forward <==> y in At(s'.idx, r).backward) {
      assert Links(At(s'.idx, y)) == Links(LinkedRecord(s.idx, u, y))
          && Links(At(s'.idx, r)) == Links(LinkedRecord(s.idx, u, r));
      if y != r { assert r in At(s.idx, y).forward <==> y in At(s.idx, r).backward; }
    }
    forall y ensures y in At(s'.idx, y).backward ==> y in At(s'.idx, y).forward {
      assert Links(At(s'.idx, y)) == Links(LinkedRecord(s.idx, u, y));
      assert y in At(s.idx, y).backward ==> y in At(s.idx, y).forward;
    }
    forall y, r | r in At(s'.idx, y).forward && r != y ensures r in s'.idx {
      assert Links(At(s'.idx, y)) == Links(LinkedRecord(s.idx, u, y));
      if r in At(s.idx, y).forward { assert r in s.idx; }
    }
  }

  lemma UpdateKeepsNoPhantoms(s: State, u: ZettelIndex, s': State)
    requires NoPhantoms(s) && RecordsUpdated(s.idx, u, s'.idx) && InverseUpdated(s.idx, u, s'.idx)
             && DeadUpdated(s, u, s'.dead)
    ensures NoPhantoms(s')
  {
    forall y, r | y in Get(s'.dead, r) ensures r in At(s'.idx, y).dead {
      assert Links(At(s'.idx, y)) == Links(LinkedRecord(s.idx, u, y));
      assert y in Get(s.dead, r) ==> r in At(s.idx, y).dead;
    }
    forall y, r, k | y in BackwardBy(At(s'.idx, r), k) ensures r in ForwardBy(At(s'.idx, y), k) {
      InverseAfter(s.idx, u, s'.idx, y, r, k);
    }
  }

  /** The update of one pair of a zettel and a key. */
  lemma InverseAt(m: map<Zid, Entry>, u: ZettelIndex, m': map<Zid, Entry>, r: Zid, k: Key)
    requires InverseUpdated(m, u, m')
    ensures ForwardBy(At(m', r), k) == NewForward(m, u, r, k) && BackwardBy(At(m', r), k) == NewBackward(m, u, r, k)
  {}

  lemma InverseAfter(m: map<Zid, Entry>, u: ZettelIndex, m': map<Zid, Entry>, y: Zid, r: Zid, k: Key)
    requires InverseBacked(m) && InverseUpdated(m, u, m')
    requires y in BackwardBy(At(m', r), k)
    ensures if u.zid == y then r in Get(u.inverseRefs, k) else y in BackwardBy(At(m, r), k)
    ensures r in ForwardBy(At(m', y), k)
  {
    InverseAt(m, u, m', r, k);
    InverseAt(m, u, m', y, k);
    assert y in BackwardBy(At(m, r), k) ==> r in ForwardBy(At(m, y), k);
  }

  lemma UpdateConsistent(s: State, u: ZettelIndex, s': State)
    requires Consistent(s) && Updated(s, u, s')
    ensures Consistent(s')
  {
    UpdateKeepsWords(s, u, s');
    UpdateKeepsLinks(s, u, s');
    UpdateKeepsNoPhantoms(s, u, s');
  }

  lemma DeleteKeepsWords(s: State, z: Zid, s': State)
    requires WordsPosted(s) && z in s.idx && z !in s'.idx && TextsDeleted(s, z, s')
    ensures WordsPosted(s')
  {
    forall w, y ensures y in Get(s'.words, w) <==> w in At(s'.idx, y).words {
      WordKept(s.words, s'.words, s.idx[z].words, [], {}, z, At(s.idx, y).words, At(s'.idx, y).words, w, y);
    }
    forall w, y ensures y in Get(s'.urls, w) <==> w in At(s'.idx, y).urls {
      WordKept(s.urls, s'.urls, s.idx[z].urls, [], {}, z, At(s.idx, y).urls, At(s'.idx, y).urls, w, y);
    }
  }

  lemma DeleteKeepsLinks(s: State, z: Zid, s': State)
    requires LinksMirrored(s) && z in s.idx && LinksCut(s.idx, z, s'.idx)
    ensures LinksMirrored(s')
    ensures forall r :: z !in At(s'.idx, r).forward && z !in At(s'.idx, r).backward
  {
    assert forall r :: r != z ==> (r in At(s.idx, z).forward <==> z in At(s.idx, r).backward);
    assert forall r :: r != z ==> (z in At(s.idx, r).forward <==> r in At(s.idx, z).backward);
    forall y, r ensures y != r ==> (r in At(s'.idx, y).forward <==> y in At(s'.idx, r).backward) {
      if y != r { assert r in At(s.idx, y).forward <==> y in At(s.idx, r).backward; }
    }
    forall y ensures y in At(s'.idx, y).backward ==> y in At(s'.idx, y).forward {
      assert y in At(s.idx, y).backward ==> y in At(s.idx, y).forward;
    }
    forall y, r | r in At(s'.idx, y).forward && r != y ensures r in s'.idx {
      assert r in At(s.idx, y).forward;
      assert r in s.idx;
    }
  }

  lemma DeleteKeepsNoPhantoms(s: State, z: Zid, s': State)
    requires NoPhantoms(s) && z in s.idx && LinksCut(s.idx, z, s'.idx) && InverseCut(s.idx, z, s'.idx)
    requires forall r :: Get(s'.dead, r) == Adjusted(Get(s.dead, r), z, false, r in s.idx[z].dead)
    ensures NoPhantoms(s')
    ensures forall r :: z !in Get(s'.dead, r)
    ensures forall r, k :: z !in BackwardBy(At(s'.idx, r), k)
  {
    forall y, r | y in Get(s'.dead, r) ensures y != z && r in At(s'.idx, y).dead {
      assert r in At(s.idx, y).dead;
    }
    assert At(s'.idx, z) == BLANK;
    forall y, r, k | y in BackwardBy(At(s'.idx, r), k) ensures y != z && r in ForwardBy(At(s'.idx, y), k) {
      assert BackwardBy(At(s'.idx, z), k) == {};
      assert BackwardBy(At(s'.idx, r), k)
          == Adjusted(BackwardBy(At(s.idx, r), k), z, false, r in ForwardBy(s.idx[z], k));
      assert y in BackwardBy(At(s.idx, r), k);
      assert r in ForwardBy(At(s.idx, y), k);
    }
  }

  lemma DeleteConsistent(s: State, z: Zid, s': State)
    requires Consistent(s) && Deleted(s, z, s')
    ensures Consistent(s')
  {
    if z in s.idx {
      DeleteKeepsWords(s, z, s');
      DeleteKeepsLinks(s, z, s');
      DeleteKeepsNoPhantoms(s, z, s');
    }
  }

  /** After a delete nothing names the zettel but stale forward sets of metadata keys. */
  lemma DeleteLeavesNoTrace(s: State, z: Zid, s': State)
    requires Consistent(s) && Deleted(s, z, s')
    ensures z !in s'.idx
    ensures forall w :: z !in Get(s'.words, w) && z !in Get(s'.urls, w)
    ensures forall r :: z !in Get(s'.dead, r) && z !in At(s'.idx, r).forward && z !in At(s'.idx, r).backward
    ensures forall r, k :: z !in BackwardBy(At(s'.idx, r), k)
    ensures forall r, k :: r != z ==> (z in ForwardBy(At(s'.idx, r), k) <==> z in ForwardBy(At(s.idx, r), k))
  {
    DeleteConsistent(s, z, s');
    assert At(s'.idx, z) == BLANK;
    forall w ensures z !in Get(s'.words, w) && z !in Get(s'.urls, w) {}
    if z in s.idx {
      DeleteKeepsLinks(s, z, s');
      DeleteKeepsNoPhantoms(s, z, s');
    } else {
      AbsentNeverNamed(s, z);
    }
  }

  lemma AbsentNeverNamed(s: State, z: Zid)
    requires Consistent(s) && z !in s.idx
    ensures forall r :: z !in Get(s.dead, r) && z !in At(s.idx, r).forward && z !in At(s.idx, r).backward
    ensures forall r, k :: z !in BackwardBy(At(s.idx, r), k)
  {
    assert At(s.idx, z) == BLANK;
    forall r ensures z !in At(s.idx, r).forward && z !in At(s.idx, r).backward {
      if r != z {
        assert r in At(s.idx, z).forward <==> z in At(s.idx, r).backward;
        assert z in At(s.idx, r).forward ==> z in s.idx;
      } else {
        assert At(s.idx, r) == BLANK;
      }
    }
    forall r ensures z !in Get(s.dead, r) {
      assert z in Get(s.dead, r) ==> r in At(s.idx, z).dead;
    }
    forall r, k ensures z !in BackwardBy(At(s.idx, r), k) {
      assert z in BackwardBy(At(s.idx, r), k) ==> r in ForwardBy(At(s.idx, z), k);
    }
  }

  // ---------- Runs ----------

  datatype Op = Submit(u: ZettelIndex) | Drop(zid: Zid)

  ghost predicate Step(s: State, op: Op, s': State) {
    match op
    case Submit(u) => Updated(s, u, s')
    case Drop(z) => Deleted(s, z, s')
  }

  /** `s` is what the operations `ops` make of a new store. */
  ghost predicate Reached(ops: seq<Op>, s: State) {
    if ops == [] then s == NEW_STATE else
    exists p :: Reached(Init(ops), p) && Step(p, Last(ops), s)
  }

  function Init<T>(ops: seq<T>): seq<T>
    requires ops != []
  {
    ops[..|ops| - 1]
  }

  function Last<T>(ops: seq<T>): T
    requires ops != []
  {
    ops[|ops| - 1]
  }

  lemma {:induction false} RunConsistent(ops: seq<Op>, s: State)
    requires Reached(ops, s)
    ensures Consistent(s)
  {
    if ops != [] {
      var op := Last(ops);
      var p :| Reached(Init(ops), p) && Step(p, op, s);
      RunConsistent(Init(ops), p);
      match op
      case Submit(u) => UpdateConsistent(p, u, s);
      case Drop(z) => DeleteConsistent(p, z, s);
    }
  }

  /** The last submission for `z`, unless `z` was deleted since. */
  function Current(ops: seq<Op>, z: Zid): (r: Text.Option<ZettelIndex>)
    ensures r.Some? ==> r.value.zid == z
  {
    if ops == [] then Text.None else
    match Last(ops)
    case Submit(u) => if u.zid == z then Text.Some(u) else Current(Init(ops), z)
    case Drop(d) => if d == z then Text.None else Current(Init(ops), z)
  }

  function LastInverse(ops: seq<Op>, z: Zid): (r: map<Key, set<Zid>>) {
    if Current(ops, z).Some? then Current(ops, z).value.inverseRefs else map[]
  }

  /** What the last submission for `z` links to and was not deleted since. */
  function LiveLinks(ops: seq<Op>, z: Zid): (r: set<Zid>) {
    if ops == [] then {} else
    match Last(ops)
    case Submit(u) => if u.zid == z then u.backrefs else LiveLinks(Init(ops), z)
    case Drop(d) => if d == z then {} else LiveLinks(Init(ops), z) - {d}
  }

  /** The record of `z` tells whether it was submitted last or deleted, and what was submitted. */
  ghost predicate Recorded(e: Entry, c: Text.Option<ZettelIndex>) {
    && e.meta == (if c.Some? then Text.Some(c.value.meta) else Text.None)
    && e.dead == (if c.Some? then c.value.deadrefs else {})
    && (forall w :: w in e.words <==> c.Some? && w in c.value.words)
    && (forall w :: w in e.urls <==> c.Some? && w in c.value.urls)
  }

  lemma UpdateRecords(p: State, u: ZettelIndex, s: State, z: Zid)
    requires Updated(p, u, s)
    ensures if z == u.zid then Recorded(At(s.idx, z), Text.Some(u)) && At(s.idx, z).forward == u.backrefs
            else At(s.idx, z).forward == At(p.idx, z).forward && forall c :: Recorded(At(p.idx, z), c) ==>
                Recorded(At(s.idx, z), c)
  {
    assert Links(At(s.idx, z)) == Links(LinkedRecord(p.idx, u, z));
  }

  lemma DeleteRecords(p: State, d: Zid, s: State, z: Zid)
    requires Consistent(p) && Deleted(p, d, s)
    ensures z == d ==> Recorded(At(s.idx, z), Text.None)
    ensures z != d ==> forall c :: Recorded(At(p.idx, z), c) ==> Recorded(At(s.idx, z), c)
    ensures At(s.idx, z).forward == if z == d then {} else At(p.idx, z).forward - {d}
  {
    if d !in p.idx {
      AbsentNeverNamed(p, d);
    } else if z != d {
      assert d in At(p.idx, z).forward <==> z in At(p.idx, d).backward;
    }
  }

  /** After every run, the records and links of all zettel are those of their last submissions. */
  lemma {:induction false} RunRecords(ops: seq<Op>, s: State, z: Zid)
    requires Reached(ops, s)
    ensures Recorded(At(s.idx, z), Current(ops, z)) && At(s.idx, z).forward == LiveLinks(ops, z)
    decreases |ops|
  {
    if ops != [] {
      var op := Last(ops);
      var p :| Reached(Init(ops), p) && Step(p, op, s);
      RunConsistent(Init(ops), p);
      RunRecords(Init(ops), p, z);
      match op
      case Submit(u) => UpdateRecords(p, u, s, z);
      case Drop(d) => DeleteRecords(p, d, s, z);
    }
  }

  /**
   So a word finds just the zettel that were last submitted with it, and the back links are those of the
   submissions.
   */
  lemma RunFinds(ops: seq<Op>, s: State, z: Zid)
    requires Reached(ops, s)
    ensures forall w :: z in Get(s.words, w) <==> Current(ops, z).Some? && w in Current(ops, z).value.words
    ensures forall w :: z in Get(s.urls, w) <==> Current(ops, z).Some? && w in Current(ops, z).value.urls
    ensures forall r :: r != z ==> (z in At(s.idx, r).backward <==> r in LiveLinks(ops, z))
    ensures forall r :: z in Get(s.dead, r) ==> Current(ops, z).Some? && r in Current(ops, z).value.deadrefs
  {
    RunConsistent(ops, s);
    RunRecords(ops, s, z);
    forall w ensures z in Get(s.words, w) <==> w in At(s.idx, z).words {}
    forall w ensures z in Get(s.urls, w) <==> w in At(s.idx, z).urls {}
    forall r | r != z ensures z in At(s.idx, r).backward <==> r in LiveLinks(ops, z) {
      assert r in At(s.idx, z).forward <==> z in At(s.idx, r).backward;
    }
  }

  lemma InverseNotDropped(s: State, z: Zid, s': State, y: Zid, r: Zid, k: Key)
    requires Consistent(s) && Deleted(s, z, s') && y in BackwardBy(At(s'.idx, r), k)
    ensures z != y && y in BackwardBy(At(s.idx, r), k)
  {
    DeleteLeavesNoTrace(s, z, s');
    if z in s.idx {
      assert BackwardBy(At(s'.idx, z), k) == {};
      assert BackwardBy(At(s'.idx, r), k)
          == Adjusted(BackwardBy(At(s.idx, r), k), z, false, r in ForwardBy(s.idx[z], k));
    }
  }

  lemma InverseStep(p: State, op: Op, s: State, y: Zid, r: Zid, k: Key)
    requires Consistent(p) && Step(p, op, s) && y in BackwardBy(At(s.idx, r), k)
    ensures if op.Submit? && op.u.zid == y then r in Get(op.u.inverseRefs, k) else y in BackwardBy(At(p.idx, r), k)
    ensures op.Drop? ==> op.zid != y
  {
    match op
    case Submit(u) => InverseAfter(p.idx, u, s.idx, y, r, k);
    case Drop(z) => InverseNotDropped(p, z, s, y, r, k);
  }

  /** Whatever a zettel shows as inverse reference was in the last submission of its source. */
  lemma {:induction false} RunInverseSound(ops: seq<Op>, s: State, y: Zid, r: Zid, k: Key)
    requires Reached(ops, s)
    ensures y in BackwardBy(At(s.idx, r), k) ==> r in Get(LastInverse(ops, y), k)
    decreases |ops|
  {
    if ops != [] && y in BackwardBy(At(s.idx, r), k) {
      var op := Last(ops);
      var p :| Reached(Init(ops), p) && Step(p, op, s);
      RunConsistent(Init(ops), p);
      InverseStep(p, op, s, y, r, k);
      if !(op.Submit? && op.u.zid == y) {
        RunInverseSound(Init(ops), p, y, r, k);
      }
    }
  }

  // ---------- Where the index forgets references ----------

  /**
   A submitted inverse reference shows up at its target iff it is new there or was shown before; one of a
   zettel to itself only if the zettel had an entry.
   */
  lemma InverseShownIff(m: map<Zid, Entry>, u: ZettelIndex, m': map<Zid, Entry>, r: Zid, k: Key)
    requires InverseUpdated(m, u, m') && r in Get(u.inverseRefs, k)
    ensures u.zid in BackwardBy(At(m', r), k) <==>
            (r != u.zid || u.zid in m) && (r !in ForwardBy(At(m, u.zid), k) || u.zid in BackwardBy(At(m, r), k))
  {
    InverseAt(m, u, m', r, k);
  }

  /** A submitted dead reference is recorded iff it is new, or was recorded before and is not to the zettel itself. */
  lemma DeadShownIff(s: State, u: ZettelIndex, s': State, r: Zid)
    requires DeadUpdated(s, u, s'.dead) && r in u.deadrefs
    ensures u.zid in Get(s'.dead, r) <==> r !in At(s.idx, u.zid).dead || (r != u.zid && u.zid in Get(s.dead, r))
  {
    assert Get(s'.dead, r) == Adjusted(if r == u.zid then {} else Get(s.dead, r), u.zid,
                                       r in u.deadrefs - At(s.idx, u.zid).dead,
                                       r in At(s.idx, u.zid).dead - u.deadrefs);
  }

  /** A link to itself has a back link iff the zettel had an entry, and the link is new or had one. */
  lemma SelfLinkIff(m: map<Zid, Entry>, u: ZettelIndex, m': map<Zid, Entry>)
    requires RecordsUpdated(m, u, m') && u.zid in u.backrefs
    ensures u.zid in At(m', u.zid).backward <==>
            u.zid in m && (u.zid !in m[u.zid].forward || u.zid in m[u.zid].backward)
  {
    assert Links(At(m', u.zid)) == Links(LinkedRecord(m, u, u.zid));
  }

  lemma SubmittedForward(m: map<Zid, Entry>, u: ZettelIndex, m': map<Zid, Entry>, k: Key)
    requires InverseUpdated(m, u, m') && k in u.inverseRefs
    ensures ForwardBy(At(m', u.zid), k) == u.inverseRefs[k]
  {
    InverseAt(m, u, m', u.zid, k);
  }

  /** A key that is no longer submitted leaves its forward set behind, but no back reference. */
  lemma StaleForward(m: map<Zid, Entry>, u: ZettelIndex, m': map<Zid, Entry>, k: Key, r: Zid)
    requires InverseUpdated(m, u, m') && k !in u.inverseRefs && r in ForwardBy(At(m, u.zid), k)
    ensures r in ForwardBy(At(m', u.zid), k) && u.zid !in BackwardBy(At(m', r), k)
  {
    InverseAt(m, u, m', u.zid, k);
    InverseAt(m, u, m', r, k);
  }

  /** The same submission three times, the middle one without the key: the reference is lost. */
  lemma DroppedKeyIsForgotten(m: map<Zid, Entry>, u: ZettelIndex, k: Key, r: Zid,
                              m1: map<Zid, Entry>, m2: map<Zid, Entry>, m3: map<Zid, Entry>)
    requires r in Get(u.inverseRefs, k)
    requires InverseUpdated(m, u, m1)
    requires InverseUpdated(m1, u.(inverseRefs := u.inverseRefs - {k}), m2)
    requires InverseUpdated(m2, u, m3)
    ensures u.zid !in BackwardBy(At(m3, r), k)
  {
    SubmittedForward(m, u, m1, k);
    StaleForward(m1, u.(inverseRefs := u.inverseRefs - {k}), m2, k, r);
    StaysForgotten(m2, u, m3, r, k);
  }

  lemma StaysForgotten(m: map<Zid, Entry>, u: ZettelIndex, m': map<Zid, Entry>, r: Zid, k: Key)
    requires InverseUpdated(m, u, m') && r in ForwardBy(At(m, u.zid), k) && u.zid !in BackwardBy(At(m, r), k)
    requires r in Get(u.inverseRefs, k)
    ensures u.zid !in BackwardBy(At(m', r), k)
  {
    InverseAt(m, u, m', r, k);
  }
}
