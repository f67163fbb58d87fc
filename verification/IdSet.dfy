/** `id.Set`: a set of zettel identifiers kept as an ascending slice, changed in place. */
module IdSets {
  import opened Zids

  function Elems(s: seq<Zid>): (r: set<Zid>) {
    set z | z in s
  }

  // ---------- The operations on ascending sequences ----------

  /** The common elements, as the loops find them: going through both sequences from a position on. */
  function InterAt(s: seq<Zid>, i: nat, o: seq<Zid>, j: nat): (r: seq<Zid>)
    requires i <= |s| && j <= |o|
    decreases |s| - i + |o| - j
  {
    if i == |s| || j == |o| then []
    else if s[i] < o[j] then InterAt(s, i + 1, o, j)
    else if s[i] > o[j] then InterAt(s, i, o, j + 1)
    else [s[i]] + InterAt(s, i + 1, o, j + 1)
  }

  function Inter(s: seq<Zid>, o: seq<Zid>): (r: seq<Zid>) {
    InterAt(s, 0, o, 0)
  }

  /** The elements of the first sequence only. */
  function SubAt(s: seq<Zid>, i: nat, o: seq<Zid>, j: nat): (r: seq<Zid>)
    requires i <= |s| && j <= |o|
    decreases |s| - i + |o| - j
  {
    if i == |s| || j == |o| then s[i..]
    else if s[i] < o[j] then [s[i]] + SubAt(s, i + 1, o, j)
    else SubAt(s, if s[i] == o[j] then i + 1 else i, o, j + 1)
  }

  function Sub(s: seq<Zid>, o: seq<Zid>): (r: seq<Zid>) {
    SubAt(s, 0, o, 0)
  }

  lemma AscendingFrom(s: seq<Zid>, i: nat)
    requires Ascending(s) && i < |s|
    ensures var rest := s[i + 1..]; s[i..] == [s[i]] + rest && forall z :: z in rest ==> s[i] < z
  {
    var rest := s[i + 1..];
    forall z | z in rest ensures s[i] < z {
      var k :| 0 <= k < |rest| && rest[k] == z;
      assert z == s[i + 1 + k];
    }
  }

  lemma {:induction false} InterAtExact(s: seq<Zid>, i: nat, o: seq<Zid>, j: nat)
    requires Ascending(s) && Ascending(o) && i <= |s| && j <= |o|
    ensures Ascending(InterAt(s, i, o, j)) && forall z :: z in InterAt(s, i, o, j) <==> z in s[i..] && z in o[j..]
    decreases |s| - i + |o| - j
  {
    if i < |s| && j < |o| {
      AscendingFrom(s, i);
      AscendingFrom(o, j);
      if s[i] < o[j] {
        InterAtExact(s, i + 1, o, j);
      } else if s[i] > o[j] {
        InterAtExact(s, i, o, j + 1);
      } else {
        InterAtExact(s, i + 1, o, j + 1);
        AscendingCons(s[i], InterAt(s, i + 1, o, j + 1));
      }
    }
  }

  /** The merge of two ascending sequences is ascending and has their common elements. */
  lemma InterExact(s: seq<Zid>, o: seq<Zid>)
    requires Ascending(s) && Ascending(o)
    ensures Ascending(Inter(s, o)) && forall z :: z in Inter(s, o) <==> z in s && z in o
  {
    InterAtExact(s, 0, o, 0);
    assert s[0..] == s && o[0..] == o;
  }

  lemma {:induction false} SubAtExact(s: seq<Zid>, i: nat, o: seq<Zid>, j: nat)
    requires Ascending(s) && Ascending(o) && i <= |s| && j <= |o|
    ensures Ascending(SubAt(s, i, o, j)) && forall z :: z in SubAt(s, i, o, j) <==> z in s[i..] && z !in o[j..]
    decreases |s| - i + |o| - j
  {
    if i < |s| && j < |o| {
      AscendingFrom(s, i);
      AscendingFrom(o, j);
      if s[i] < o[j] {
        SubAtExact(s, i + 1, o, j);
        AscendingCons(s[i], SubAt(s, i + 1, o, j));
      } else {
        SubAtExact(s, if s[i] == o[j] then i + 1 else i, o, j + 1);
      }
    }
  }

  /** The merge of two ascending sequences is ascending and has the elements of the first one only. */
  lemma SubExact(s: seq<Zid>, o: seq<Zid>)
    requires Ascending(s) && Ascending(o)
    ensures Ascending(Sub(s, o)) && forall z :: z in Sub(s, o) <==> z in s && z !in o
  {
    SubAtExact(s, 0, o, 0);
    assert s[0..] == s && o[0..] == o;
  }

  lemma InterStep(done: seq<Zid>, s: seq<Zid>, i: nat, o: seq<Zid>, j: nat)
    requires i < |s| && j < |o|
    ensures done + InterAt(s, i, o, j) ==
            if s[i] < o[j] then done + InterAt(s, i + 1, o, j)
            else if s[i] > o[j] then done + InterAt(s, i, o, j + 1)
            else done + [s[i]] + InterAt(s, i + 1, o, j + 1)
  {
    assert done + ([s[i]] + InterAt(s, i + 1, o, j + 1)) == done + [s[i]] + InterAt(s, i + 1, o, j + 1);
  }

  lemma SubStep(done: seq<Zid>, s: seq<Zid>, i: nat, o: seq<Zid>, j: nat)
    requires i < |s| && j < |o|
    ensures done + SubAt(s, i, o, j) ==
            if s[i] < o[j] then done + [s[i]] + SubAt(s, i + 1, o, j)
            else done + SubAt(s, if s[i] == o[j] then i + 1 else i, o, j + 1)
  {
    assert done + ([s[i]] + SubAt(s, i + 1, o, j)) == done + [s[i]] + SubAt(s, i + 1, o, j);
  }

  function Insert(s: seq<Zid>, pos: nat, z: Zid): (r: seq<Zid>)
    requires pos <= |s|
  {
    s[..pos] + [z] + s[pos..]
  }

  /** Where `z` is, or where it belongs. */
  ghost predicate FoundAt(s: seq<Zid>, z: Zid, pos: nat, found: bool) {
    && pos <= |s|
    && (found ==> pos < |s| && s[pos] == z)
    && (!found ==> (forall i :: 0 <= i < pos ==> s[i] < z) && (forall i :: pos <= i < |s| ==> z < s[i]))
  }

  lemma InsertAscending(s: seq<Zid>, pos: nat, z: Zid)
    requires Ascending(s) && FoundAt(s, z, pos, false)
    ensures Ascending(Insert(s, pos, z)) && Elems(Insert(s, pos, z)) == Elems(s) + {z}
  {
    assert s[..pos] + s[pos..] == s;
    assert forall x :: x in s <==> x in s[..pos] || x in s[pos..];
  }

  lemma RemoveAscending(s: seq<Zid>, pos: nat)
    requires Ascending(s) && pos < |s|
    ensures Ascending(s[..pos] + s[pos + 1..]) && Elems(s[..pos] + s[pos + 1..]) == Elems(s) - {s[pos]}
  {
    var r := s[..pos] + s[pos + 1..];
    forall z | z in s && z != s[pos] ensures z in r {
      var i :| 0 <= i < |s| && s[i] == z;
      assert r[if i < pos then i else i - 1] == z;
    }
    forall z | z in r ensures z in s && z != s[pos] {
      var i :| 0 <= i < |r| && r[i] == z;
      assert z == s[if i < pos then i else i + 1];
    }
  }

  lemma ElemsNext(s: seq<Zid>, k: nat)
    requires k < |s|
    ensures Elems(s[..k + 1]) == Elems(s[..k]) + {s[k]}
  {
    assert s[..k + 1] == s[..k] + [s[k]];
  }

  /** Adding the next one of an ascending sequence to a set that begins with the same elements. */
  lemma SharedStays(was: seq<Zid>, s: seq<Zid>, k: nat, now: seq<Zid>)
    requires Ascending(was) && Ascending(s) && Ascending(now) && k < |s| && k <= |was|
             && Elems(now) == Elems(was) + {s[k]}
    requires forall i :: 0 <= i < |was| && i < |s| ==> was[i] == s[i]
    ensures now == if k < |was| then was else was + [s[k]]
  {
    var t := if k < |was| then was else was + [s[k]];
    assert forall z :: z in now <==> z in Elems(was) + {s[k]};
    assert Ascending(t);
    AscendingUnique(now, t);
  }

  ghost predicate ValidOrNil(s: IdSet?)
    reads s, if s == null then {} else {s.data}
  {
    s != null ==> s.Valid()
  }

  /** The elements of a set; a nil set has none. */
  ghost function AllOf(s: IdSet?): (r: set<Zid>)
    requires ValidOrNil(s)
    reads s, if s == null then {} else {s.data}
  {
    if s == null then {} else Elems(s.Slice())
  }

  /** There is no empty set: nil stands for it. */
  ghost predicate NilIfEmpty(s: IdSet?)
    reads s, if s == null then {} else {s.data}
  {
    ValidOrNil(s) && (s != null ==> AllOf(s) != {})
  }

  class IdSet {
    var data: array<Zid>
    var len: nat

    ghost predicate Valid()
      reads this, data
    {
      len <= data.Length && Ascending(data[..len])
    }

    ghost function Slice(): (s: seq<Zid>)
      reads this, data
      requires Valid()
    {
      data[..len]
    }

    constructor (zid: Zid)
      ensures Valid() && Slice() == [zid] && fresh(data)
    {
      data, len := new Zid[1](_ => zid), 1;
    }

    /** The binary search for an element. */
    method Find(zid: Zid) returns (pos: nat, found: bool)
      requires Valid()
      ensures FoundAt(Slice(), zid, pos, found)
    {
      var lo, hi := 0, len;
      while lo < hi
        invariant 0 <= lo <= hi <= len
        invariant forall i :: 0 <= i < lo ==> data[i] < zid
        invariant forall i :: hi <= i < len ==> zid < data[i]
      {
        var m := lo + (hi - lo) / 2;
        var z := data[m];
        assert z == Slice()[m];
        assert forall i :: 0 <= i < len ==> data[i] == Slice()[i];
        if z == zid { return m, true; }
        if z < zid { lo := m + 1; } else { hi := m; }
      }
      return hi, false;
    }

    static method Contains(s: IdSet?, zid: Zid) returns (found: bool)
      requires ValidOrNil(s)
      ensures found <==> zid in AllOf(s)
    {
      if s == null { return false; }
      var pos;
      pos, found := s.Find(zid);
    }

    /** A new set is made of a nil one. */
    static method Add(s: IdSet?, zid: Zid) returns (r: IdSet)
      requires ValidOrNil(s)
      modifies s, if s == null then {} else {s.data}
      ensures r.Valid() && AllOf(r) == old(AllOf(s)) + {zid}
      ensures if s == null then fresh(r) && fresh(r.data) else r == s && (s.data == old(s.data) || fresh(s.data))
    {
      if s == null {
        r := new IdSet(zid);
      } else {
        s.AddOne(zid);
        r := s;
      }
    }

    /** Nothing moves if there is room, besides the elements of the set. */
    method AddOne(zid: Zid)
      requires Valid()
      modifies this, data
      ensures Valid() && Elems(Slice()) == old(Elems(Slice())) + {zid} && (data == old(data) || fresh(data))
      ensures len <= old(len) + 1
      ensures old(len) < old(data.Length) ==>
                data == old(data) && forall i :: len <= i < data.Length ==> data[i] == old(data[i])
    {
      var pos, found := Find(zid);
      if found {
        assert Elems(Slice()) == Elems(Slice()) + {zid};
        return;
      }
      InsertAscending(Slice(), pos, zid);
      InsertAt(pos, zid);
    }

    /** Makes room for one more element, in place if there is some. */
    method InsertAt(pos: nat, zid: Zid)
      requires len <= data.Length && pos <= len
      modifies this, data
      ensures len <= data.Length && data[..len] == Insert(old(data[..len]), pos, zid)
              && (data == old(data) || fresh(data))
      ensures len == old(len) + 1
      ensures old(len) < old(data.Length) ==>
                data == old(data) && forall i :: len <= i < data.Length ==> data[i] == old(data[i])
    {
      if len < data.Length {
        ghost var s := data[..len];
        ShiftUp(pos);
        data[pos] := zid;
        assert forall k :: 0 <= k <= len ==> data[..len + 1][k] == Insert(s, pos, zid)[k];
      } else {
        var s := Insert(data[..len], pos, zid);
        data := new Zid[2 * len + 1](i => if 0 <= i < |s| then s[i] else INVALID);
        assert data[..len + 1] == s;
      }
      len := len + 1;
    }

    method ShiftUp(pos: nat)
      requires pos <= len < data.Length
      modifies data
      ensures forall k :: 0 <= k < pos || len < k < data.Length ==> data[k] == old(data[k])
      ensures forall k :: pos < k <= len ==> data[k] == old(data[k - 1])
    {
      var i := len;
      while i > pos
        invariant pos <= i <= len
        invariant forall k :: 0 <= k < i ==> data[k] == old(data[k])
        invariant forall k :: i < k <= len ==> data[k] == old(data[k - 1])
        invariant forall k :: len < k < data.Length ==> data[k] == old(data[k])
      {
        data[i] := data[i - 1];
        i := i - 1;
      }
    }

    /** Makes room for more elements. */
    method Grow(n: nat)
      requires Valid()
      modifies this`data
      ensures Valid() && Slice() == old(Slice()) && len + n <= data.Length && (data == old(data) || fresh(data))
    {
      if len + n <= data.Length { return; }
      ghost var s := Slice();
      var from := data;
      data := new Zid[len + n](i reads from => if 0 <= i < from.Length then from[i] else INVALID);
      assert data[..len] == s;
    }

    /** Adds the first elements of an array, which may be that of this set. */
    method AddAll(sl: array<Zid>, n: nat)
      requires Valid() && n <= sl.Length && (sl == data ==> Ascending(sl[..n]))
      modifies this, data
      ensures Valid() && Elems(Slice()) == old(Elems(Slice())) + old(Elems(sl[..n]))
              && (data == old(data) || fresh(data))
    {
      ghost var s, have := sl[..n], Elems(Slice());
      Grow(n);
      assert have + Elems(s[..0]) == have;
      for k := 0 to n
        invariant Valid() && (data == old(data) || fresh(data)) && len + n - k <= data.Length
        invariant sl[..n] == s && Elems(Slice()) == have && have == old(Elems(Slice())) + Elems(s[..k])
        invariant sl == data ==> Ascending(s) && k <= len
      {
        ElemsNext(s, k);
        AddAt(sl, k, s);
        have := have + {s[k]};
      }
      assert s[..n] == s;
    }

    /** What is still to be added stays where it is, even in the array of this set. */
    method AddAt(sl: array<Zid>, k: nat, ghost s: seq<Zid>)
      requires Valid() && k < |s| <= sl.Length && sl[..|s|] == s && len < data.Length
      requires sl == data ==> Ascending(s) && k <= len
      modifies this, data
      ensures Valid() && data == old(data) && Elems(Slice()) == old(Elems(Slice())) + {s[k]} && len <= old(len) + 1
      ensures sl[..|s|] == s && (sl == data ==> k < len)
    {
      ghost var was := Slice();
      assert sl[k] == s[k];
      AddOne(sl[k]);
      if sl == data { SharedStays(was, s, k, Slice()); }
    }

    static method AddSlice(s: IdSet?, sl: array<Zid>, n: nat) returns (r: IdSet)
      requires ValidOrNil(s) && n <= sl.Length && (s != null && s.data == sl ==> Ascending(sl[..n]))
      modifies s, if s == null then {} else {s.data}
      ensures r.Valid() && AllOf(r) == old(AllOf(s)) + old(Elems(sl[..n]))
      ensures if s == null then fresh(r) && fresh(r.data) else r == s && (s.data == old(s.data) || fresh(s.data))
    {
      if s == null { r := new IdSet.FromSlice([]); } else { r := s; }
      r.AddAll(sl, n);
    }

    /** Adds the elements of another set. */
    static method IUnion(s: IdSet?, other: IdSet?) returns (r: IdSet?)
      requires ValidOrNil(s) && ValidOrNil(other)
      modifies s, if s == null then {} else {s.data}
      ensures ValidOrNil(r) && AllOf(r) == old(AllOf(s)) + old(AllOf(other))
      ensures s != null ==> r == s && (s.data == old(s.data) || fresh(s.data))
      ensures s == null && r != null ==> fresh(r) && fresh(r.data)
    {
      if other == null || other.len == 0 { return s; }
      r := AddSlice(s, other.data, other.len);
    }

    /** The result is nil if nothing is left. */
    static method Remove(s: IdSet?, zid: Zid) returns (r: IdSet?)
      requires ValidOrNil(s)
      modifies s, if s == null then {} else {s.data}
      ensures ValidOrNil(s) && AllOf(s) == old(AllOf(s)) - {zid} && (s != null ==> s.data == old(s.data))
      ensures r == if AllOf(s) == {} then null else s
    {
      if s == null || s.len == 0 { return null; }
      s.RemoveOne(zid);
      if s.len == 0 { return null; }
      assert s.Slice()[0] in AllOf(s);
      r := s;
    }

    method RemoveOne(zid: Zid)
      requires Valid()
      modifies this`len, data
      ensures Valid() && Elems(Slice()) == old(Elems(Slice())) - {zid}
    {
      var pos, found := Find(zid);
      if found {
        ghost var s := Slice();
        RemoveAscending(s, pos);
        CloseGap(pos);
        assert Slice() == s[..pos] + s[pos + 1..];
      }
    }

    method CloseGap(pos: nat)
      requires pos < len <= data.Length
      modifies this`len, data
      ensures len == old(len) - 1 && data[..len] == old(data[..len])[..pos] + old(data[..len])[pos + 1..]
    {
      ghost var s := data[..len];
      var i := pos;
      while i < len - 1
        invariant pos <= i < len == old(len)
        invariant data[..pos] == s[..pos] && data[pos..i] == s[pos + 1..i + 1] && data[i..len] == s[i..]
      {
        assert data[i + 1] == data[i..len][1] == s[i + 1];
        assert data[i + 1..len] == data[i..len][1..] == s[i + 1..];
        assert s[pos + 1..i + 2] == s[pos + 1..i + 1] + [s[i + 1]];
        data[i] := data[i + 1];
        i := i + 1;
      }
      len := len - 1;
      assert data[..len] == data[..pos] + data[pos..len];
    }

    /** Takes the greatest element; there is none in an empty set. */
    static method Pop(s: IdSet?) returns (zid: Zid, found: bool)
      requires ValidOrNil(s)
      modifies s
      ensures ValidOrNil(s) && (s != null ==> s.data == old(s.data))
      ensures found <==> old(AllOf(s)) != {}
      ensures found ==> zid == Max(old(AllOf(s))) && AllOf(s) == old(AllOf(s)) - {zid}
      ensures !found ==> zid == INVALID && AllOf(s) == {}
    {
      if s == null || s.len == 0 { return INVALID, false; }
      ghost var was := s.Slice();
      zid, found := s.data[s.len - 1], true;
      LastIsMax(was);
      RemoveAscending(was, s.len - 1);
      s.len := s.len - 1;
      assert s.Slice() == was[..s.len] + was[s.len + 1..];
    }

    /** Compacts this set to what is also in the other one, which may be this set, or share its slice. */
    method Intersect(other: IdSet)
      requires Valid() && other.Valid()
      modifies this`len, data
      ensures Valid() && Slice() == Inter(old(Slice()), old(other.Slice()))
      ensures Elems(Slice()) == old(Elems(Slice())) * old(Elems(other.Slice()))
    {
      ghost var s, o := Slice(), other.Slice();
      InterExact(s, o);
      var topos := IntersectLoop(other);
      len := topos;
    }

    method IntersectLoop(other: IdSet) returns (topos: nat)
      requires len <= data.Length && other.len <= other.data.Length
      modifies data
      ensures topos <= len && data[..topos] == Inter(old(data[..len]), old(other.data[..other.len]))
    {
      ghost var s, o := data[..len], other.data[..other.len];
      ghost var done: seq<Zid> := [];
      topos := 0;
      var spos, opos := 0, 0;
      assert done + Inter(s, o) == Inter(s, o);
      while spos < len && opos < other.len
        invariant topos <= spos <= len && opos <= other.len && data[..topos] == done
        invariant forall i :: spos <= i < len ==> data[i] == s[i]
        invariant forall i :: opos <= i < other.len ==> other.data[i] == o[i]
        // A set that shares the slice is walked through at the same pace, and nothing is moved.
        invariant other.data == data ==> topos == spos == opos
        invariant done + InterAt(s, spos, o, opos) == Inter(s, o)
        decreases len - spos + other.len - opos
      {
        var sz, oz := data[spos], other.data[opos];
        InterStep(done, s, spos, o, opos);
        if sz < oz {
          spos := spos + 1;
        } else if sz > oz {
          opos := opos + 1;
        } else {
          done := done + [sz];
          Put(topos, sz);
          topos, spos, opos := topos + 1, spos + 1, opos + 1;
        }
      }
      assert done + [] == done;
    }

    /** Adds an element to the compacted part. */
    method Put(topos: nat, zid: Zid)
      requires topos < data.Length
      modifies data
      ensures data[..topos + 1] == old(data[..topos]) + [zid]
      ensures forall i :: topos < i < data.Length ==> data[i] == old(data[i])
    {
      data[topos] := zid;
    }

    /** Compacts a set to what is not in the other one, which may be the same set, or share its slice. */
    static method ISubstract(s: IdSet?, other: IdSet?)
      requires ValidOrNil(s) && ValidOrNil(other)
      modifies s, if s == null then {} else {s.data}
      ensures ValidOrNil(s) && AllOf(s) == old(AllOf(s)) - old(AllOf(other)) && (s != null ==> s.data == old(s.data))
    {
      if s == null || s.len == 0 || other == null || other.len == 0 { return; }
      ghost var was, o := s.Slice(), other.Slice();
      SubExact(was, o);
      var topos, spos := s.SubtractLoop(other);
      topos := s.KeepRest(topos, spos);
      s.len := topos;
      assert s.Slice() == Sub(was, o);
    }

    method SubtractLoop(other: IdSet) returns (topos: nat, spos: nat)
      requires len <= data.Length && other.len <= other.data.Length
      modifies data
      ensures topos <= spos <= len && data[spos..len] == old(data[spos..len])
      ensures data[..topos] + old(data[spos..len]) == Sub(old(data[..len]), old(other.data[..other.len]))
    {
      ghost var s, o := data[..len], other.data[..other.len];
      ghost var done: seq<Zid> := [];
      topos, spos := 0, 0;
      var opos := 0;
      assert done + Sub(s, o) == Sub(s, o);
      while spos < len && opos < other.len
        invariant topos <= spos <= len && opos <= other.len && data[..topos] == done
        invariant forall i :: spos <= i < len ==> data[i] == s[i]
        invariant forall i :: opos <= i < other.len ==> other.data[i] == o[i]
        // A set that shares the slice has the same elements, so that nothing is moved.
        invariant other.data == data ==> topos == 0 && spos == opos
        invariant done + SubAt(s, spos, o, opos) == Sub(s, o)
        decreases len - spos + other.len - opos
      {
        var sz, oz := data[spos], other.data[opos];
        SubStep(done, s, spos, o, opos);
        if sz < oz {
          done := done + [sz];
          Put(topos, sz);
          topos, spos := topos + 1, spos + 1;
        } else {
          if sz == oz { spos := spos + 1; }
          opos := opos + 1;
        }
      }
      assert old(data[spos..len]) == s[spos..];
    }

    method KeepRest(topos: nat, spos: nat) returns (end: nat)
      requires topos <= spos <= len <= data.Length
      modifies data
      ensures end <= len && data[..end] == old(data[..topos]) + old(data[spos..len])
    {
      end := topos;
      ghost var kept, rest := data[..topos], data[spos..len];
      for i := spos to len
        invariant topos <= end == topos + (i - spos)
        invariant data[..end] == kept + rest[..i - spos]
        invariant data[i..len] == rest[i - spos..]
      {
        assert data[i] == data[i..len][0] == rest[i - spos];
        data[end] := data[i];
        end := end + 1;
      }
    }

    constructor FromSlice(sl: seq<Zid>)
      requires Ascending(sl)
      ensures Valid() && Slice() == sl && fresh(data)
    {
      data, len := new Zid[|sl|](i requires 0 <= i < |sl| => sl[i]), |sl|;
      new;
      assert data[..len] == sl;
    }

    /** What is to be added to a set, and what is to be removed from it, so that it becomes the other one. */
    static method Diff(s: IdSet?, other: IdSet?) returns (newS: IdSet?, remS: IdSet?)
      requires ValidOrNil(s) && ValidOrNil(other)
      ensures NilIfEmpty(newS) && AllOf(newS) == AllOf(other) - AllOf(s)
      ensures newS != null ==> fresh(newS) && fresh(newS.data)
      ensures NilIfEmpty(remS) && AllOf(remS) == AllOf(s) - AllOf(other)
      ensures remS != null ==> fresh(remS) && fresh(remS.data)
    {
      if s == null || s.len == 0 {
        newS := Clone(other);
        return newS, null;
      }
      if other == null || other.len == 0 {
        remS := Clone(s);
        return null, remS;
      }
      SubExact(s.Slice(), other.Slice());
      SubExact(other.Slice(), s.Slice());
      var newRefs, remRefs := DiffLoop(s.data[..s.len], other.data[..other.len]);
      newS := NewFromSlice(newRefs);
      remS := NewFromSlice(remRefs);
    }

    static method Clone(s: IdSet?) returns (r: IdSet?)
      requires ValidOrNil(s)
      ensures NilIfEmpty(r) && AllOf(r) == AllOf(s)
      ensures r != null ==> fresh(r) && fresh(r.data)
    {
      if s == null || s.len == 0 { return null; }
      r := new IdSet.FromSlice(s.data[..s.len]);
      assert s.Slice()[0] in AllOf(r);
    }

    static method NewFromSlice(sl: seq<Zid>) returns (r: IdSet?)
      requires Ascending(sl)
      ensures NilIfEmpty(r) && AllOf(r) == Elems(sl)
      ensures r != null ==> fresh(r) && fresh(r.data)
    {
      if |sl| == 0 { return null; }
      r := new IdSet.FromSlice(sl);
      assert sl[0] in AllOf(r);
    }

    /** A nil set equals no other set, not even an empty one. */
    static method Equal(s: IdSet?, other: IdSet?) returns (equal: bool)
      requires ValidOrNil(s) && ValidOrNil(other)
      ensures equal <==> (s == null <==> other == null) && AllOf(s) == AllOf(other)
    {
      if s == null { return other == null; }
      if other == null { return false; }
      equal := s.data[..s.len] == other.data[..other.len];
      if AllOf(s) == AllOf(other) {
        forall z ensures z in s.Slice() <==> z in other.Slice() {
          assert z in AllOf(s) <==> z in AllOf(other);
        }
        AscendingUnique(s.Slice(), other.Slice());
      }
    }

    /** A nil set is taken as the set of everything if it is `s`, and makes the result nil if it is `other`. */
    static method IntersectOrSet(s: IdSet?, other: IdSet?) returns (r: IdSet?)
      requires ValidOrNil(s) && ValidOrNil(other)
      modifies s, if s == null then {} else {s.data}
      ensures ValidOrNil(s) && r == if s == null || other == null then other else s
      ensures AllOf(s) == if other == null then old(AllOf(s)) else old(AllOf(s)) * old(AllOf(other))
    {
      if s == null || other == null { return other; }
      s.Intersect(other);
      r := s;
    }
  }

  method DiffLoop(s: seq<Zid>, o: seq<Zid>) returns (newRefs: seq<Zid>, remRefs: seq<Zid>)
    ensures newRefs == Sub(o, s) && remRefs == Sub(s, o)
  {
    newRefs, remRefs := [], [];
    var npos, opos := 0, 0;
    assert [] + Sub(o, s) == Sub(o, s) && [] + Sub(s, o) == Sub(s, o);
    while npos < |o| && opos < |s|
      invariant npos <= |o| && opos <= |s|
      invariant newRefs + SubAt(o, npos, s, opos) == Sub(o, s)
      invariant remRefs + SubAt(s, opos, o, npos) == Sub(s, o)
      decreases |o| - npos + |s| - opos
    {
      var rn, ro := o[npos], s[opos];
      SubStep(newRefs, o, npos, s, opos);
      SubStep(remRefs, s, opos, o, npos);
      if rn == ro {
        npos := npos + 1;
        opos := opos + 1;
      } else if rn < ro {
        newRefs := newRefs + [rn];
        npos := npos + 1;
      } else {
        remRefs := remRefs + [ro];
        opos := opos + 1;
      }
    }
    if npos < |o| { newRefs := newRefs + o[npos..]; }
    if opos < |s| { remRefs := remRefs + s[opos..]; }
  }

  lemma LastIsMax(s: seq<Zid>)
    requires Ascending(s) && s != []
    ensures Elems(s) != {} && Max(Elems(s)) == s[|s| - 1]
  {
    assert s[|s| - 1] in Elems(s);
    var m := Max(Elems(s));
    var i :| 0 <= i < |s| && s[i] == m;
  }
}
