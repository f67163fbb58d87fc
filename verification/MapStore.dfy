/**
 The in-memory index as it is changed in place: inverted word and URL lists, links in both directions,
 dead links, and the inverse references of metadata keys.
 */
module MapStores {
  import opened Zids
  import opened MapIndexes
  import opened MapSteps
  import opened WordSets
  import Ids
  import Metas
  import Text

  ghost predicate IsRelated(m: map<Zid, Entry>, test: Zid -> bool, z: Zid) {
    exists zid :: zid in m && test(zid) && z in Related(m, zid)
  }

  /** A plain look at one zettel's own lists. */
  ghost predicate HasMatch(e: Entry, pred: string -> bool) {
    exists w :: pred(w) && (w in e.words || w in e.urls)
  }

  /** A zettel and everything that refers to it. */
  function Related(m: map<Zid, Entry>, zid: Zid): (r: set<Zid>) {
    {zid} + At(m, zid).backward + set k, y | k in At(m, zid).other && y in At(m, zid).other[k].backward :: y
  }

  /** `y` is `z`, or links to it, or is shown by it as a reference by a metadata key. */
  ghost predicate RefersTo(m: map<Zid, Entry>, y: Zid, z: Zid) {
    y == z || z in At(m, y).forward || exists k :: k in At(m, z).other && y in At(m, z).other[k].backward
  }

  /** What a search by identifiers is to find: the zettel that pass the test, and all that refer to one of them. */
  ghost predicate Found(m: map<Zid, Entry>, test: Zid -> bool, y: Zid) {
    exists z :: z in m && test(z) && RefersTo(m, y, z)
  }

  /** In a consistent index, a zettel's own back links lead to just those that refer to it. */
  lemma RelatedExact(s: State, z: Zid, y: Zid)
    requires Consistent(s)
    ensures y in Related(s.idx, z) <==> RefersTo(s.idx, y, z)
  {
    assert y != z ==> (z in At(s.idx, y).forward <==> y in At(s.idx, z).backward);
  }

  lemma FoundExact(s: State, test: Zid -> bool, y: Zid)
    requires Consistent(s)
    ensures IsRelated(s.idx, test, y) <==> Found(s.idx, test, y)
  {
    forall z { RelatedExact(s, z, y); }
  }

  /**
   After every run, a zettel refers to another one iff its last submission has a link that still lives, or has the
   other one under a metadata key, and is shown there.
   */
  lemma RunRefersTo(ops: seq<Op>, s: State, y: Zid, z: Zid)
    requires Reached(ops, s)
    ensures RefersTo(s.idx, y, z) <==>
            || y == z || z in LiveLinks(ops, y)
            || exists k :: z in Get(LastInverse(ops, y), k) && k in At(s.idx, z).other
                           && y in At(s.idx, z).other[k].backward
  {
    RunRecords(ops, s, y);
    forall k | y in BackwardBy(At(s.idx, z), k) ensures z in Get(LastInverse(ops, y), k) {
      RunInverseSound(ops, s, y, z, k);
    }
    if k :| k in At(s.idx, z).other && y in At(s.idx, z).other[k].backward {
      assert y in BackwardBy(At(s.idx, z), k);
    }
  }

  const KEY_BOX_NUMBER := "box-number"
  const INTERNABLE_KEYS := ["role", "syntax", "folge-role", "lang", "read-only"]

  predicate IsComputed(rules: Metas.Rules, key: Key) {
    key in rules.registry && rules.registry[key].usage != Metas.UserKey
  }

  predicate IsInternable(key: Key) {
    key in INTERNABLE_KEYS || Ids.HasSuffix(key, "-role")
  }

  /** The keys that are walked through to copy metadata: the first ones, and all others that are not computed. */
  predicate IsPair(rules: Metas.Rules, key: Key) {
    key in Metas.FIRST_KEYS || !IsComputed(rules, key)
  }

  predicate IsCopied(rules: Metas.Rules, key: Key) {
    IsInternable(key) || key == KEY_BOX_NUMBER || !IsComputed(rules, key)
  }

  /** The copy of submitted metadata that is kept. */
  function Copied(rules: Metas.Rules, pairs: Pairs): (r: Pairs) {
    map k | k in pairs && k != Metas.KEY_ID && IsPair(rules, k) && IsCopied(rules, k) :: Metas.Trim(pairs[k])
  }

  function Kept(rules: Metas.Rules, u: ZettelIndex): (r: ZettelIndex) {
    u.(meta := Copied(rules, u.meta))
  }

  /** The copy has just the pairs that are not computed; so the test for the number of the box is of no use. */
  lemma CopiedExact(rules: Metas.Rules, pairs: Pairs, key: Key)
    requires forall k :: k in Metas.FIRST_KEYS ==> !IsComputed(rules, k)
    ensures key in Copied(rules, pairs) <==> key in pairs && key != Metas.KEY_ID && !IsComputed(rules, key)
    ensures IsComputed(rules, KEY_BOX_NUMBER) ==> KEY_BOX_NUMBER !in Copied(rules, pairs)
  {
    assert KEY_BOX_NUMBER !in Metas.FIRST_KEYS;
  }

  class MapStore {
    const rules: Metas.Rules
    var idx: map<Zid, Entry>
    var dead: map<Zid, set<Zid>>
    var words: Postings
    var urls: Postings

    constructor (rules: Metas.Rules)
      ensures this.rules == rules && View() == NEW_STATE
    {
      this.rules := rules;
      idx, dead, words, urls := map[], map[], map[], map[];
    }

    ghost function View(): (s: State)
      reads this
    {
      State(idx, dead, words, urls)
    }

    method GetOrCreateEntry(zid: Zid) returns (e: Entry)
      modifies this`idx
      ensures zid in idx && e == idx[zid] && idx == old(idx)[zid := At(old(idx), zid)]
    {
      if zid !in idx { idx := idx[zid := BLANK]; }
      e := idx[zid];
    }

    method UpdateDeadReferences(zid: Zid, prev: set<Zid>, drefs: set<Zid>)
      modifies this`dead
      ensures forall r :: Get(dead, r) == Adjusted(Get(old(dead), r), zid, r in drefs - prev, r in prev - drefs)
    {
      var todo := prev - drefs;
      while todo != {}
        invariant todo <= prev - drefs
        invariant forall r :: Get(dead, r) == Adjusted(Get(old(dead), r), zid, false, r in prev - drefs - todo)
      {
        var ref := Min(todo);
        todo := todo - {ref};
        dead := dead[ref := Get(dead, ref) - {zid}];
      }
      todo := drefs - prev;
      while todo != {}
        invariant todo <= drefs - prev
        invariant forall r ::
                  Get(dead, r) == Adjusted(Get(old(dead), r), zid, r in drefs - prev - todo, r in prev - drefs)
      {
        var ref := Min(todo);
        todo := todo - {ref};
        dead := dead[ref := Get(dead, ref) + {zid}];
      }
    }

    /** Adds or removes `zid` in the back links of `refs`, and collects those that are not indexed yet. */
    method ChangeBacklinks(zid: Zid, refs: set<Zid>, gained: bool) returns (toCheck: set<Zid>)
      modifies this`idx
      ensures BacklinksChanged(old(idx), refs, zid, gained, idx)
      ensures toCheck == Unindexed(old(idx), refs)
    {
      toCheck := {};
      var todo := refs;
      while todo != {}
        invariant todo <= refs
        invariant BacklinksChanged(old(idx), refs - todo, zid, gained, idx)
        invariant toCheck == Unindexed(old(idx), refs - todo)
      {
        var ref := Min(todo);
        ghost var m := idx;
        var bzi := GetOrCreateEntry(ref);
        idx := idx[ref := bzi.(backward := if gained then bzi.backward + {zid} else bzi.backward - {zid})];
        BacklinksStep(old(idx), m, refs - todo, ref, zid, gained, idx);
        assert refs - (todo - {ref}) == refs - todo + {ref};
        todo := todo - {ref};
        if bzi.meta.None? { toCheck := toCheck + {ref}; }
      }
      assert refs - {} == refs;
    }

    /** Adds `zid` to the back references under `key` of `refs`. */
    method AddInverseMeta(zid: Zid, key: Key, refs: set<Zid>) returns (toCheck: set<Zid>)
      modifies this`idx
      ensures idx.Keys == old(idx).Keys + refs
      ensures InverseChanged(old(idx), refs, key, zid, true, idx)
      ensures toCheck == Unindexed(old(idx), refs)
    {
      toCheck := {};
      var todo := refs;
      while todo != {}
        invariant todo <= refs && idx.Keys == old(idx).Keys + (refs - todo)
        invariant InverseChanged(old(idx), refs - todo, key, zid, true, idx)
        invariant toCheck == Unindexed(old(idx), refs - todo)
      {
        var ref := Min(todo);
        ghost var m := idx;
        var bzi := GetOrCreateEntry(ref);
        idx := idx[ref := AddInverse(bzi, key, zid)];
        AddInverseStep(old(idx), m, refs - todo, ref, key, zid, idx);
        assert refs - (todo - {ref}) == refs - todo + {ref};
        todo := todo - {ref};
        if bzi.meta.None? { toCheck := toCheck + {ref}; }
      }
      assert refs - {} == refs;
    }

    /** Removes `zid` from the back references under `key` of `refs`, where they exist. */
    method RemoveInverseMeta(zid: Zid, key: Key, refs: set<Zid>)
      modifies this`idx
      ensures idx.Keys == old(idx).Keys
      ensures InverseChanged(old(idx), refs, key, zid, false, idx)
    {
      var todo := refs;
      while todo != {}
        invariant todo <= refs && idx.Keys == old(idx).Keys
        invariant InverseChanged(old(idx), refs - todo, key, zid, false, idx)
      {
        var ref := Min(todo);
        ghost var m := idx;
        if ref in idx { idx := idx[ref := DropInverse(idx[ref], key, zid)]; }
        DropInverseStep(old(idx), m, refs - todo, ref, key, zid, idx);
        assert refs - (todo - {ref}) == refs - todo + {ref};
        todo := todo - {ref};
      }
      assert refs - {} == refs;
    }

    /** `zi` is the record of `zid`: the one in the index, or not in it yet. */
    ghost predicate Held(zid: Zid, zi: Entry, existed: bool)
      reads this
    {
      if existed then zid in idx && idx[zid] == zi else zi.backward == {} && forall k :: BackwardBy(zi, k) == {}
    }

    method UpdateForwardBackwardReferences(zid: Zid, zi: Entry, existed: bool, brefs: set<Zid>)
      returns (zi': Entry, toCheck: set<Zid>)
      requires Held(zid, zi, existed)
      modifies this`idx
      ensures Held(zid, zi', existed)
      ensures LinksPhase(Final(old(idx), zid, zi, existed), zid, brefs, existed, Final(idx, zid, zi', existed))
      ensures toCheck == Unindexed(old(idx), (zi.forward - brefs) + (brefs - zi.forward))
      ensures SameIndexed(old(idx), idx) && zi'.other == zi.other
    {
      var newRefs, remRefs := brefs - zi.forward, zi.forward - brefs;
      zi' := zi.(forward := brefs);
      if existed { idx := idx[zid := zi']; }
      ghost var m1 := idx;
      var c1 := ChangeBacklinks(zid, remRefs, false);
      ghost var m2 := idx;
      var c2 := ChangeBacklinks(zid, newRefs, true);
      toCheck := c1 + c2;
      StillUnindexed(m1, remRefs, zid, m2, newRefs);
      LinksKeep(old(idx), m1, remRefs, zid, false, m2);
      LinksKeep(old(idx), m2, newRefs, zid, true, idx);
      assert Unindexed(m1, remRefs + newRefs) == Unindexed(old(idx), remRefs + newRefs);
      if existed {
        zi' := idx[zid];
      } else {
        assert forall k :: BackwardBy(zi', k) == BackwardBy(zi, k);
      }
      LinksDone(old(idx), zid, zi, existed, brefs, m1, m2, idx, zi');
    }

    /** One key of the submitted inverse references. */
    method UpdateKeyReferences(zid: Zid, zi: Entry, existed: bool, key: Key, mrefs: set<Zid>)
      returns (zi': Entry, toCheck: set<Zid>)
      requires Held(zid, zi, existed)
      modifies this`idx
      ensures Held(zid, zi', existed)
      ensures Final(idx, zid, zi', existed).Keys
              == Final(old(idx), zid, zi, existed).Keys + (mrefs - ForwardBy(zi, key))
      ensures KeyPhase(Final(old(idx), zid, zi, existed), zid, key, mrefs, existed, Final(idx, zid, zi', existed))
      ensures toCheck == Unindexed(old(idx), mrefs - ForwardBy(zi, key))
      ensures SameIndexed(old(idx), idx)
    {
      var mr := if key in zi.other then zi.other[key] else Bidi({}, {});
      var newRefs, remRefs := mrefs - mr.forward, mr.forward - mrefs;
      zi' := zi.(other := zi.other[key := mr.(forward := mrefs)]);
      assert zi' == WithKey(zi, key, mrefs);
      if existed { idx := idx[zid := zi']; }
      ghost var m1 := idx;
      assert m1.Keys == old(idx).Keys && SameIndexed(old(idx), m1)
          && Unindexed(m1, newRefs) == Unindexed(old(idx), newRefs);
      toCheck := AddInverseMeta(zid, key, newRefs);
      ghost var m2 := idx;
      RemoveInverseMeta(zid, key, remRefs);
      assert Final(idx, zid, zi', existed).Keys == Final(m1, zid, zi', existed).Keys + newRefs;
      SameIndexedStep(old(idx), m1, m2);
      SameIndexedStep(old(idx), m2, idx);
      if existed {
        zi' := idx[zid];
      } else {
        forall k ensures BackwardBy(zi', k) == {} { WithKeyAt(zi, key, mrefs, k); }
      }
      KeyDone(old(idx), zid, zi, existed, key, mrefs, m1, m2, idx, zi');
    }

    /** The back references under keys that are not submitted any more. */
    method DropKeys(zid: Zid, zi: Entry, existed: bool, inv: map<Key, set<Zid>>) returns (zi': Entry)
      requires Held(zid, zi, existed) && (!existed ==> zi.other == map[])
      modifies this`idx
      ensures Held(zid, zi', existed) && idx.Keys == old(idx).Keys && SameIndexed(old(idx), idx)
      ensures KeysPhase(Final(old(idx), zid, zi, existed), zid, inv, existed, zi.other.Keys - inv.Keys,
              Final(idx, zid, zi', existed))
    {
      ghost var m0 := Final(idx, zid, zi, existed);
      var dropped := zi.other.Keys - inv.Keys;
      var todo := dropped;
      ghost var done: set<Key> := {};
      while todo != {}
        invariant todo + done == dropped && todo !! done && idx.Keys == old(idx).Keys && (dropped != {} ==> existed)
        invariant !existed ==> idx == old(idx)
        invariant SameIndexed(old(idx), idx)
        invariant KeysPhase(m0, zid, inv, existed, done, Final(idx, zid, zi, existed))
      {
        var key :| key in todo;
        ghost var m := idx;
        RemoveInverseMeta(zid, key, zi.other[key].forward);
        KeysDropStep(m0, zid, inv, done, m, key, idx);
        SameIndexedStep(old(idx), m, idx);
        todo, done := todo - {key}, done + {key};
      }
      zi' := if existed then idx[zid] else zi;
    }

    /** The submitted inverse references, key by key. */
    method SubmitKeys(zid: Zid, zi: Entry, existed: bool, inv: map<Key, set<Zid>>)
      returns (zi': Entry, toCheck: set<Zid>)
      requires Held(zid, zi, existed)
      modifies this`idx
      ensures Held(zid, zi', existed)
      ensures Final(idx, zid, zi', existed).Keys == Final(old(idx), zid, zi, existed).Keys + NewInverse(zi, inv)
      ensures KeysPhase(Final(old(idx), zid, zi, existed), zid, inv, existed, inv.Keys, Final(idx, zid, zi', existed))
      ensures toCheck == Unindexed(old(idx), NewInverse(zi, inv))
    {
      ghost var m0 := Final(idx, zid, zi, existed);
      zi', toCheck := zi, {};
      var todo := inv.Keys;
      ghost var done: set<Key>, news: set<Zid> := {}, {};
      while todo != {}
        invariant todo + done == inv.Keys && todo !! done && Held(zid, zi', existed)
        invariant SameIndexed(old(idx), idx)
        invariant news == NewInverse(zi, Submap(inv, done))
        invariant Final(idx, zid, zi', existed).Keys == m0.Keys + news
        invariant toCheck == Unindexed(old(idx), news)
        invariant KeysPhase(m0, zid, inv, existed, done, Final(idx, zid, zi', existed))
      {
        var key :| key in todo;
        ghost var m, i := Final(idx, zid, zi', existed), idx;
        KeysAt(m0, zid, inv, existed, done, m, zid, key);
        var c;
        zi', c := UpdateKeyReferences(zid, zi', existed, key, inv[key]);
        toCheck := toCheck + c;
        KeysStep(m0, zid, inv, existed, done, m, key, Final(idx, zid, zi', existed));
        NewInverseStep(zi, inv, done, key);
        UnindexedStep(old(idx), i, idx, news, inv[key] - ForwardBy(zi, key));
        SetsStep(m0.Keys, news, m.Keys, inv[key] - ForwardBy(zi, key), todo, done, key);
        news := news + (inv[key] - ForwardBy(zi, key));
        todo, done := todo - {key}, done + {key};
      }
      assert done == inv.Keys;
      assert Submap(inv, inv.Keys) == inv;
    }

    /** References by metadata keys: first the keys that are gone, then the submitted ones. */
    method UpdateMetadataReferences(zid: Zid, zi: Entry, existed: bool, inv: map<Key, set<Zid>>)
      returns (zi': Entry, toCheck: set<Zid>)
      requires Held(zid, zi, existed) && (!existed ==> zi.other == map[])
      modifies this`idx
      ensures Held(zid, zi', existed)
      ensures Final(idx, zid, zi', existed).Keys == Final(old(idx), zid, zi, existed).Keys + NewInverse(zi, inv)
      ensures KeysPhase(Final(old(idx), zid, zi, existed), zid, inv, existed, zi.other.Keys + inv.Keys,
              Final(idx, zid, zi', existed))
      ensures toCheck == Unindexed(old(idx), NewInverse(zi, inv))
    {
      ghost var m0 := Final(idx, zid, zi, existed);
      var z1 := DropKeys(zid, zi, existed, inv);
      ghost var m1, i1 := Final(idx, zid, z1, existed), idx;
      DroppedForward(m0, zid, inv, existed, zi.other.Keys - inv.Keys, m1);
      zi', toCheck := SubmitKeys(zid, z1, existed, inv);
      KeysBoth(m0, zid, inv, existed, zi.other.Keys - inv.Keys, m1, Final(idx, zid, zi', existed));
      MetadataDone(old(idx), zid, zi, existed, inv, i1, z1);
    }

    /** Links and metadata references of a zettel, as they are submitted. */
    method UpdateAllReferences(u: ZettelIndex, zi: Entry, existed: bool, ghost m: map<Zid, Entry>)
      returns (zi': Entry, toCheck: set<Zid>)
      requires Held(u.zid, zi, existed) && (!existed ==> zi.other == map[]) && existed == (u.zid in m)
      requires zi == At(m, u.zid).(meta := Text.Some(u.meta), dead := u.deadrefs)
               && idx == if existed then m[u.zid := zi] else m
      modifies this`idx
      ensures Held(u.zid, zi', existed) && AfterKeys(m, u, Final(idx, u.zid, zi', existed))
      ensures toCheck == Pending(m, u)
    {
      ghost var i0 := idx;
      ghost var m0 := Final(idx, u.zid, zi, existed);
      var z1, c1 := UpdateForwardBackwardReferences(u.zid, zi, existed, u.backrefs);
      ghost var i1, m1 := idx, Final(idx, u.zid, z1, existed);
      LinksFollow(m, u, m0, m1);
      var c2;
      zi', c2 := UpdateMetadataReferences(u.zid, z1, existed, u.inverseRefs);
      KeysFollow(m, u, m1, z1.other.Keys + u.inverseRefs.Keys, Final(idx, u.zid, zi', existed));
      toCheck := c1 + c2;
      PendingDone(m, u, i0, i1, z1);
    }

    /** `u` is no dead reference any more; the zettel that mention it must be checked again. */
    method RetireDead(u: ZettelIndex, prev: set<Zid>) returns (toCheck: set<Zid>)
      requires prev == At(idx, u.zid).dead
      modifies this`dead
      ensures DeadUpdated(old(View()), u, dead)
      ensures toCheck == Get(old(dead), u.zid)
    {
      toCheck := Get(dead, u.zid);
      dead := dead - {u.zid};
      UpdateDeadReferences(u.zid, prev, u.deadrefs);
    }

    /** Indexes a zettel. The zettel returned must be indexed again, since what they refer to changed. */
    method UpdateReferences(zidx: ZettelIndex) returns (toCheck: set<Zid>)
      modifies this
      ensures Updated(old(View()), Kept(rules, zidx), View())
      ensures toCheck == Get(old(dead), zidx.zid) + Pending(old(idx), Kept(rules, zidx))
    {
      var m := MakeMeta(zidx.meta);
      toCheck := UpdateIndex(zidx.(meta := m));
    }

    /** The copy of the metadata, and nothing of what is computed. */
    method MakeMeta(pairs: Pairs) returns (m: Pairs)
      ensures m == Copied(rules, pairs)
    {
      m := map[];
      var todo := pairs.Keys;
      while todo != {}
        invariant todo <= pairs.Keys
        invariant m == map k | k in Copied(rules, pairs) && k !in todo :: Copied(rules, pairs)[k]
      {
        var key :| key in todo;
        todo := todo - {key};
        if IsPair(rules, key) && IsCopied(rules, key) && key != Metas.KEY_ID { m := m[key := Metas.Trim(pairs[key])]; }
      }
    }

    /** The copy of the metadata; there is none of a zettel that was only referred to. */
    method GetMeta(zid: Zid) returns (m: Text.Option<Pairs>)
      ensures m == At(idx, zid).meta
    {
      m := Text.None;
      if zid in idx && idx[zid].meta.Some? { m := idx[zid].meta; }
    }

    /** Indexes a zettel whose metadata was copied. */
    method UpdateIndex(u: ZettelIndex) returns (toCheck: set<Zid>)
      modifies this
      ensures Updated(old(View()), u, View())
      ensures toCheck == Get(old(dead), u.zid) + Pending(old(idx), u)
    {
      ghost var m := idx;
      var existed := u.zid in idx;
      var zi := At(idx, u.zid);
      var prev := zi;

      toCheck := RetireDead(u, prev.dead);
      zi := zi.(meta := Text.Some(u.meta), dead := u.deadrefs);
      if existed { idx := idx[u.zid := zi]; }
      assert forall k :: BackwardBy(BLANK, k) == {};
      var ids;
      zi, ids := UpdateAllReferences(u, zi, existed, m);
      toCheck := toCheck + ids;

      StoreEntry(u, zi, existed, prev, m);
    }

    /** The word lists, and the record itself if it is not in the index yet. */
    method StoreEntry(u: ZettelIndex, zi: Entry, existed: bool, prev: Entry, ghost m: map<Zid, Entry>)
      requires Held(u.zid, zi, existed) && AfterKeys(m, u, Final(idx, u.zid, zi, existed)) && prev == At(m, u.zid)
      modifies this`idx, this`words, this`urls
      ensures RecordsUpdated(m, u, idx) && InverseUpdated(m, u, idx)
      ensures TextsUpdated(State(m, dead, old(words), old(urls)), u, View())
    {
      ghost var m2 := Final(idx, u.zid, zi, existed);
      var wordList, urlList;
      words, wordList := UpdateStrings(u.zid, words, prev.words, u.words);
      urls, urlList := UpdateStrings(u.zid, urls, prev.urls, u.urls);
      idx := idx[u.zid := zi.(words := wordList, urls := urlList)];
      StoreTexts(m, u, m2, wordList, urlList, idx);
    }

    method DeleteDeadSources(zid: Zid, refs: set<Zid>)
      modifies this`dead
      ensures forall r :: Get(dead, r) == Adjusted(Get(old(dead), r), zid, false, r in refs)
    {
      var todo := refs;
      while todo != {}
        invariant todo <= refs
        invariant forall r :: Get(dead, r) == Adjusted(Get(old(dead), r), zid, false, r in refs - todo)
      {
        var ref := Min(todo);
        todo := todo - {ref};
        if ref in dead {
          var drefs := dead[ref] - {zid};
          if drefs == {} { dead := dead - {ref}; } else { dead := dead[ref := drefs]; }
        }
      }
    }

    method CutBacklinks(zid: Zid, refs: set<Zid>)
      modifies this`idx
      ensures SidesCut(old(idx), refs, {}, zid, idx)
    {
      var todo := refs;
      ghost var done: set<Zid> := {};
      while todo != {}
        invariant todo + done == refs && todo !! done
        invariant SidesCut(old(idx), done, {}, zid, idx)
      {
        var ref := Min(todo);
        ghost var m := idx;
        if ref in idx { idx := idx[ref := idx[ref].(backward := idx[ref].backward - {zid})]; }
        CutStep(old(idx), done, {}, zid, m, ref, true, idx);
        todo, done := todo - {ref}, done + {ref};
      }
    }

    /** The zettel that refer to the deleted one lose their link, and must be checked again. */
    method CutForward(zid: Zid, refs: set<Zid>) returns (toCheck: set<Zid>)
      modifies this`idx
      ensures SidesCut(old(idx), {}, refs, zid, idx)
      ensures toCheck == refs * old(idx).Keys
    {
      toCheck := {};
      var todo := refs;
      ghost var done: set<Zid> := {};
      while todo != {}
        invariant todo + done == refs && todo !! done
        invariant SidesCut(old(idx), {}, done, zid, idx) && toCheck == done * old(idx).Keys
      {
        var ref := Min(todo);
        ghost var m := idx;
        if ref in idx {
          idx := idx[ref := idx[ref].(forward := idx[ref].forward - {zid})];
          toCheck := toCheck + {ref};
        }
        CutStep(old(idx), {}, done, zid, m, ref, false, idx);
        todo, done := todo - {ref}, done + {ref};
      }
    }

    /** Removes a zettel from the index; its remaining referrers are returned to be checked again. */
    method DeleteZettel(zid: Zid) returns (toCheck: set<Zid>)
      modifies this
      ensures Deleted(old(View()), zid, View())
      ensures toCheck == Referrers(old(idx), zid)
      ensures zid in old(idx) && Consistent(old(View())) ==>
        forall y :: y in toCheck <==> y != zid && zid in At(old(idx), y).forward
    {
      if zid !in idx { return {}; }
      ghost var s := View();
      ghost var m := idx;
      var zi := idx[zid];
      DeleteDeadSources(zid, zi.dead);
      toCheck := DeleteReferences(zid);
      words := UnpostWords(zid, words, zi.words);
      urls := UnpostWords(zid, urls, zi.urls);
      if Consistent(s) {
        forall y { ReferrersExact(s, zid, y); }
      }
    }

    method DeleteForwardBackward(zid: Zid) returns (toCheck: set<Zid>)
      requires zid in idx
      modifies this`idx
      ensures RecordsCut(old(idx), zid, idx)
      ensures toCheck == Referrers(old(idx), zid)
    {
      CutBacklinks(zid, idx[zid].forward);
      ghost var m1 := idx;
      SideCutAt(old(idx), old(idx)[zid].forward, {}, zid, m1, zid);
      // The loop walks the set as the first one left it: without the zettel's link to itself.
      toCheck := CutForward(zid, idx[zid].backward);
      forall r { RecordCutAt(old(idx), zid, m1, idx, r); }
    }

    method DeleteReferences(zid: Zid) returns (toCheck: set<Zid>)
      requires zid in idx
      modifies this`idx
      ensures LinksCut(old(idx), zid, idx) && InverseCut(old(idx), zid, idx)
      ensures forall r :: r != zid ==>
                At(idx, r).words == At(old(idx), r).words && At(idx, r).urls == At(old(idx), r).urls
      ensures toCheck == Referrers(old(idx), zid)
    {
      toCheck := DeleteForwardBackward(zid);
      ghost var m2 := idx;
      DeleteRecord(zid);
      CutDone(old(idx), zid, m2, idx);
    }

    /** Takes the inverse references out of the other records, then drops the record. */
    method DeleteRecord(zid: Zid)
      requires zid in idx
      modifies this`idx
      ensures RecordDropped(old(idx), zid, idx)
    {
      var zi := idx[zid];
      zi := DropKeys(zid, zi, true, map[]);
      DropDone(old(idx), zid, idx, idx - {zid});
      idx := idx - {zid};
    }

    /** All zettel posted under a word or URL that satisfies the predicate. */
    method SelectWithPred(pred: string -> bool) returns (result: set<Zid>)
      requires WordsPosted(View())
      ensures forall z :: z in result <==> HasMatch(At(idx, z), pred)
    {
      var a := SelectPostings(words, pred);
      var b := SelectPostings(urls, pred);
      result := a + b;
      forall z ensures z in result <==> HasMatch(At(idx, z), pred) {
        assert forall w :: z in Get(words, w) <==> w in At(idx, z).words;
        assert forall w :: z in Get(urls, w) <==> w in At(idx, z).urls;
      }
    }

    /** The zettel whose identifier passes the test, and all that refer to them. */
    method SelectWithZid(test: Zid -> bool) returns (result: set<Zid>)
      ensures forall z :: z in result <==> IsRelated(idx, test, z)
    {
      result := {};
      var todo := idx.Keys;
      while todo != {}
        invariant todo <= idx.Keys
        invariant forall z :: z in result <==>
                  exists zid :: zid in idx && zid !in todo && test(zid) && z in Related(idx, zid)
      {
        var zid :| zid in todo;
        todo := todo - {zid};
        if test(zid) { result := result + Related(idx, zid); }
      }
    }

    /** Zettel with a word of this prefix, and all that is linked with identifiers of this prefix. */
    method SearchPrefix(prefix: string) returns (result: set<Zid>)
      requires WordsPosted(View()) && forall z :: z in idx ==> Ids.IsValid(z)
      ensures forall z :: z in result <==>
        (HasMatch(At(idx, z), w => Ids.HasPrefix(w, prefix))
            || IsRelated(idx, (zid: Zid) => Ids.HasPrefix(Ids.String(zid), prefix), z))
      ensures Consistent(View()) ==> forall y :: y in result <==>
        ((exists w :: Ids.HasPrefix(w, prefix) && (w in At(idx, y).words || w in At(idx, y).urls))
            || exists z :: z in idx && Ids.HasPrefix(Ids.String(z), prefix) && RefersTo(idx, y, z))
    {
      result := SelectWithPred(w => Ids.HasPrefix(w, prefix));
      var more := SearchZidPrefix(prefix);
      result := result + more;
      if Consistent(View()) {
        ghost var test := (zid: Zid) => Ids.HasPrefix(Ids.String(zid), prefix);
        forall y ensures IsRelated(idx, test, y) <==> Found(idx, test, y) { FoundExact(View(), test, y); }
      }
    }

    method SearchZidPrefix(prefix: string) returns (result: set<Zid>)
      requires forall z :: z in idx ==> Ids.IsValid(z)
      ensures forall z :: z in result <==> IsRelated(idx, (zid: Zid) => Ids.HasPrefix(Ids.String(zid), prefix), z)
    {
      forall zid | zid in idx ensures Ids.InPrefixRange(prefix, zid) <==> Ids.HasPrefix(Ids.String(zid), prefix) {
        Ids.PrefixRange(prefix, zid);
      }
      var bounds := Ids.PrefixBounds(prefix);
      if bounds.None? { return {}; }
      result := SelectWithZid((zid: Zid) => bounds.value.0 <= zid <= bounds.value.1);
    }

    /** The same for a suffix; identifiers are not found by a suffix of zeros. */
    method SearchSuffix(suffix: string) returns (result: set<Zid>)
      requires WordsPosted(View()) && forall z :: z in idx ==> Ids.IsValid(z)
      ensures forall z :: z in result <==>
        (HasMatch(At(idx, z), w => Ids.HasSuffix(w, suffix))
         || (suffix != Ids.Repeat('0', |suffix|)
             && IsRelated(idx, (zid: Zid) => Ids.HasSuffix(Ids.String(zid), suffix), z)))
      ensures Consistent(View()) ==> forall y :: y in result <==>
        ((exists w :: Ids.HasSuffix(w, suffix) && (w in At(idx, y).words || w in At(idx, y).urls))
         || (suffix != Ids.Repeat('0', |suffix|)
             && exists z :: z in idx && Ids.HasSuffix(Ids.String(z), suffix) && RefersTo(idx, y, z)))
    {
      result := SelectWithPred(w => Ids.HasSuffix(w, suffix));
      var more := SearchZidSuffix(suffix);
      result := result + more;
      if Consistent(View()) {
        ghost var test := (zid: Zid) => Ids.HasSuffix(Ids.String(zid), suffix);
        forall y ensures IsRelated(idx, test, y) <==> Found(idx, test, y) { FoundExact(View(), test, y); }
      }
    }

    method SearchZidSuffix(suffix: string) returns (result: set<Zid>)
      requires forall z :: z in idx ==> Ids.IsValid(z)
      ensures forall z :: z in result <==>
        suffix != Ids.Repeat('0', |suffix|) && IsRelated(idx, (zid: Zid) => Ids.HasSuffix(Ids.String(zid), suffix), z)
    {
      forall zid | zid in idx
        ensures Ids.IsSuffixModulo(suffix, zid) <==>
                Ids.HasSuffix(Ids.String(zid), suffix) && suffix != Ids.Repeat('0', |suffix|)
      {
        Ids.SuffixModulo(suffix, zid);
      }
      if |suffix| > 14 { return {}; }
      var val := Ids.ParseUint(suffix);
      if val.None? { return {}; }
      var modulo := 1;
      for i := 0 to |suffix|
        invariant modulo == Ids.Pow(10, i) > 0
      {
        modulo := modulo * 10;
      }
      result := SelectWithZid((zid: Zid) => modulo > 0 && zid % modulo == val.value);
    }
  }
}
