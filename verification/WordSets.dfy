/** The inverted lists of words and URLs, maintained by the differences of word sets. */
module WordSets {
  import opened Zids
  import opened MapIndexes

  /** All words of the set, in whatever order the map is walked. */
  method Words(ws: map<string, nat>) returns (list: seq<string>)
    ensures |list| == |ws| && forall w :: w in list <==> w in ws
  {
    list := [];
    var todo := ws.Keys;
    while todo != {}
      invariant todo <= ws.Keys && |list| + |todo| == |ws|
      invariant forall w :: w in list <==> w in ws && w !in todo
    {
      var w :| w in todo;
      todo := todo - {w};
      list := list + [w];
    }
  }

  /** The words to add to, and to remove from, `oldWords` to get the words of `ws`. */
  method WordSetDiff(ws: map<string, nat>, oldWords: seq<string>)
    returns (newWords: seq<string>, removeWords: seq<string>)
    ensures forall w :: w in newWords <==> w in ws && w !in oldWords
    ensures forall w :: w in removeWords <==> w in oldWords && w !in ws
  {
    if |ws| == 0 { return [], oldWords; }
    if |oldWords| == 0 {
      newWords := Words(ws);
      return newWords, [];
    }
    var oldSet: set<string> := {};
    newWords, removeWords := [], [];
    for i := 0 to |oldWords|
      invariant forall w :: w in oldSet <==> w in oldWords[..i] && w in ws
      invariant forall w :: w in removeWords <==> w in oldWords[..i] && w !in ws
    {
      assert oldWords[..i + 1] == oldWords[..i] + [oldWords[i]];
      if oldWords[i] in ws {
        oldSet := oldSet + {oldWords[i]};
      } else {
        removeWords := removeWords + [oldWords[i]];
      }
    }
    assert oldWords[..|oldWords|] == oldWords;
    var todo := ws.Keys;
    while todo != {}
      invariant todo <= ws.Keys
      invariant forall w :: w in newWords <==> w in ws && w !in oldSet && w !in todo
    {
      var w :| w in todo;
      todo := todo - {w};
      if w !in oldSet { newWords := newWords + [w]; }
    }
  }

  method PostWords(zid: Zid, srefs: Postings, words: seq<string>) returns (r: Postings)
    ensures forall w :: Get(r, w) == Adjusted(Get(srefs, w), zid, w in words, false)
    ensures NoneEmpty(srefs) ==> NoneEmpty(r)
  {
    r := srefs;
    for i := 0 to |words|
      invariant forall w :: Get(r, w) == Adjusted(Get(srefs, w), zid, w in words[..i], false)
      invariant NoneEmpty(srefs) ==> NoneEmpty(r)
    {
      assert words[..i + 1] == words[..i] + [words[i]];
      r := r[words[i] := Get(r, words[i]) + {zid}];
    }
    assert words[..|words|] == words;
  }

  /** Takes `zid` out of the posting sets of the words; a set that gets empty is dropped. */
  method UnpostWords(zid: Zid, srefs: Postings, words: seq<string>) returns (r: Postings)
    ensures forall w :: Get(r, w) == Adjusted(Get(srefs, w), zid, false, w in words)
    ensures NoneEmpty(srefs) ==> NoneEmpty(r)
  {
    r := srefs;
    for i := 0 to |words|
      invariant forall w :: Get(r, w) == Adjusted(Get(srefs, w), zid, false, w in words[..i])
      invariant NoneEmpty(srefs) ==> NoneEmpty(r)
    {
      assert words[..i + 1] == words[..i] + [words[i]];
      if words[i] !in r { continue; }
      var refs := r[words[i]] - {zid};
      if refs == {} {
        r := r - {words[i]};
      } else {
        r := r[words[i] := refs];
      }
    }
    assert words[..|words|] == words;
  }

  method UpdateStrings(zid: Zid, srefs: Postings, prev: seq<string>, next: map<string, nat>)
    returns (r: Postings, list: seq<string>)
    ensures PostingsUpdated(srefs, prev, next.Keys, zid, r)
    ensures forall w :: w in list <==> w in next
  {
    var newWords, removeWords := WordSetDiff(next, prev);
    var p := PostWords(zid, srefs, newWords);
    r := UnpostWords(zid, p, removeWords);
    list := Words(next);
  }

  method SelectPostings(srefs: Postings, pred: string -> bool) returns (result: set<Zid>)
    ensures forall z :: z in result <==> exists w :: pred(w) && z in Get(srefs, w)
  {
    result := {};
    var todo := srefs.Keys;
    while todo != {}
      invariant todo <= srefs.Keys
      invariant forall z :: z in result <==> exists w :: pred(w) && w !in todo && z in Get(srefs, w)
    {
      var word :| word in todo;
      todo := todo - {word};
      if pred(word) { result := result + srefs[word]; }
    }
  }
}
