/** Zettel identifiers, and the ascending order in which an `id.Set` lists its elements. */
module Zids {

  /** A zettel identifier; `INVALID` never denotes a zettel. */
  type Zid = nat

  const INVALID: Zid := 0

  /** Strictly ascending: the representation invariant of the sorted slice behind `id.Set`. */
  ghost predicate Ascending(s: seq<Zid>) {
    forall i, j :: 0 <= i < j < |s| ==> s[i] < s[j]
  }

  ghost predicate NoDup<T>(s: seq<T>) {
    forall i, j :: 0 <= i < j < |s| ==> s[i] != s[j]
  }

  lemma {:induction false} LeastOf(s: set<Zid>) returns (m: Zid)
    requires s != {}
    ensures m in s && forall x :: x in s ==> m <= x
  {
    m :| m in s;
    var rest := s - {m};
    assert forall x :: x in s ==> x == m || x in rest;
    if rest != {} {
      var least := LeastOf(rest);
      if least < m { m := least; }
    }
  }

  lemma MinExists(s: set<Zid>)
    requires s != {}
    ensures exists m :: m in s && forall x :: x in s ==> m <= x
  {
    var m := LeastOf(s);
  }

  function Min(s: set<Zid>): (m: Zid)
    requires s != {}
    ensures m in s && forall x :: x in s ==> m <= x
  {
    MinExists(s);
    var m :| m in s && forall x :: x in s ==> m <= x;
    m
  }

  lemma {:induction false} GreatestOf(s: set<Zid>) returns (m: Zid)
    requires s != {}
    ensures m in s && forall x :: x in s ==> x <= m
  {
    m :| m in s;
    var rest := s - {m};
    assert forall x :: x in s ==> x == m || x in rest;
    if rest != {} {
      var greatest := GreatestOf(rest);
      if m < greatest { m := greatest; }
    }
  }

  lemma MaxExists(s: set<Zid>)
    requires s != {}
    ensures exists m :: m in s && forall x :: x in s ==> x <= m
  {
    var m := GreatestOf(s);
  }

  /** The greatest element: what `Pop` takes from a set. */
  function Max(s: set<Zid>): (m: Zid)
    requires s != {}
    ensures m in s && forall x :: x in s ==> x <= m
  {
    MaxExists(s);
    var m :| m in s && forall x :: x in s ==> x <= m;
    m
  }

  /** The elements of `s` in ascending order: what `SafeSorted` returns and `ForEach` visits. */
  function Sorted(s: set<Zid>): (r: seq<Zid>)
    ensures forall x :: x in r <==> x in s
  {
    if s == {} then [] else
    var m := Min(s);
    [m] + Sorted(s - {m})
  }

  lemma {:induction false} SortedAscending(s: set<Zid>)
    ensures Ascending(Sorted(s)) && |Sorted(s)| == |s|
  {
    if s != {} {
      var m := Min(s);
      SortedAscending(s - {m});
      AscendingCons(m, Sorted(s - {m}));
    }
  }

  lemma AscendingCons(m: Zid, t: seq<Zid>)
    requires Ascending(t) && forall x :: x in t ==> m < x
    ensures Ascending([m] + t)
  {
    var s := [m] + t;
    forall i, j | 0 <= i < j < |s| ensures s[i] < s[j] {
      if i == 0 { assert s[j] == t[j - 1] && t[j - 1] in t; }
    }
  }

  function Reversed(s: seq<Zid>): (r: seq<Zid>)
    ensures forall x :: x in r <==> x in s
  {
    if s == [] then [] else Reversed(s[1..]) + [s[0]]
  }

  lemma {:induction false} ReversedAt(s: seq<Zid>)
    ensures |Reversed(s)| == |s| && forall i :: 0 <= i < |s| ==> Reversed(s)[i] == s[|s| - 1 - i]
  {
    if s != [] { ReversedAt(s[1..]); }
  }

  /** An ascending sequence is determined by its elements. */
  lemma {:induction false} AscendingUnique(s: seq<Zid>, t: seq<Zid>)
    requires Ascending(s) && Ascending(t) && forall x :: x in s <==> x in t
    ensures s == t
  {
    assert t != [] ==> t[0] in t;
    if s != [] {
      assert s[0] in t;
      assert t[0] in s;
      assert s[0] == t[0];
      forall x ensures x in s[1..] <==> x in t[1..] {
        assert x in s[1..] <==> x in s && x != s[0];
        assert x in t[1..] <==> x in t && x != t[0];
      }
      AscendingUnique(s[1..], t[1..]);
      assert s == [s[0]] + s[1..] && t == [t[0]] + t[1..];
    }
  }
}
