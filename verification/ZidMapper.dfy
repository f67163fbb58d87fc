/** The mapping between zettel identifiers of 14 digits and those of 4 alphanumeric characters. */
module ZidMappers {
  import opened Text
  import opened Zids
  import Ids
  import Metas
  import ZettelFiles

  type ZidN = nat

  /** New identifiers are given to the manual from 0020 on, and to all others from 0101 on. */
  const MANUAL_START: ZidN := 72
  const MANUAL_END: ZidN := 1292
  const NORMAL_START: ZidN := 1297
  const FIRST_MANUAL: Zid := 1000000000
  const LAST_MANUAL: Zid := 1099999999

  datatype Mapping = Mapping(toNew: map<Zid, ZidN>, toOld: map<ZidN, Zid>, nextZidM: ZidN, hadManual: bool,
      nextZidN: ZidN)

  predicate IsManual(zid: Zid) {
    FIRST_MANUAL <= zid <= LAST_MANUAL
  }

  // ---------- The operations as functions ----------

  /** Predefined identifiers differ, and lie below those of the manual or between them and the normal ones. */
  ghost predicate DefinedOk(defined: map<Zid, ZidN>) {
    && (forall a, b :: a in defined && b in defined && defined[a] == defined[b] ==> a == b)
    && (forall z :: z in defined ==> defined[z] < MANUAL_START || MANUAL_END <= defined[z] < NORMAL_START)
  }

  /** The next new identifier for an old one that has none yet. */
  function Allocate(m: Mapping, zid: Zid): (r: (Mapping, ZidN)) {
    var hadManual := m.hadManual || zid == FIRST_MANUAL;
    if IsManual(zid) && hadManual then
      (Mapping(m.toNew[zid := m.nextZidM], m.toOld[m.nextZidM := zid], m.nextZidM + 1, true, m.nextZidN), m.nextZidM)
    else
      (Mapping(m.toNew[zid := m.nextZidN], m.toOld[m.nextZidN := zid], m.nextZidM, m.hadManual, m.nextZidN + 1),
          m.nextZidN)
  }

  function Got(m: Mapping, zid: Zid): (r: Mapping) {
    if zid in m.toNew then m else Allocate(m, zid).0
  }

  function Deleted(defined: map<Zid, ZidN>, m: Mapping, zid: Zid): (r: Mapping) {
    if zid in defined || zid !in m.toNew then m else
    var n := m.toNew[zid];
    Mapping(m.toNew - {zid}, m.toOld - {n}, m.nextZidM, m.hadManual, if n + 1 == m.nextZidN then n else m.nextZidN)
  }

  function GotAll(m: Mapping, zids: seq<Zid>): (r: Mapping)
    decreases |zids|
  {
    if zids == [] then m else GotAll(Got(m, zids[0]), zids[1..])
  }

  /** The new identifiers of all old ones that are not given. */
  function Dropped(m: Mapping, zids: set<Zid>): (r: set<ZidN>) {
    set z | z in m.toNew && z !in zids :: m.toNew[z]
  }

  /** Only the given old identifiers stay. */
  function Kept(m: Mapping, zids: set<Zid>): (r: Mapping) {
    m.(toNew := map z | z in m.toNew && z in zids :: m.toNew[z], toOld := m.toOld - Dropped(m, zids))
  }

  function Fetched(m: Mapping, zids: set<Zid>): (r: Mapping) {
    Kept(GotAll(m, Sorted(zids)), zids)
  }

  // ---------- The invariant ----------

  /** The two maps are inverse to each other. */
  ghost predicate Inverse(m: Mapping) {
    && (forall z :: z in m.toNew ==> m.toNew[z] in m.toOld && m.toOld[m.toNew[z]] == z)
    && (forall n :: n in m.toOld ==> m.toOld[n] in m.toNew && m.toNew[m.toOld[n]] == n)
  }

  /** Every new identifier in use is the predefined one, or was given before the counters got where they are. */
  ghost predicate Counted(defined: map<Zid, ZidN>, m: Mapping) {
    && MANUAL_START <= m.nextZidM && NORMAL_START <= m.nextZidN
    && forall z :: z in m.toNew ==> GivenBefore(m, m.toNew[z]) || (z in defined && m.toNew[z] == defined[z])
  }

  predicate GivenBefore(m: Mapping, n: ZidN) {
    MANUAL_START <= n < m.nextZidM || NORMAL_START <= n < m.nextZidN
  }

  ghost predicate Ok(defined: map<Zid, ZidN>, m: Mapping) {
    Inverse(m) && Counted(defined, m)
  }

  /** A new pair keeps the maps inverse exactly if its new identifier is not in use. */
  lemma InsertExact(m: Mapping, zid: Zid, n: ZidN)
    requires Inverse(m) && zid !in m.toNew
    ensures Inverse(m.(toNew := m.toNew[zid := n], toOld := m.toOld[n := zid])) <==> n !in m.toOld
  {
    var after := m.(toNew := m.toNew[zid := n], toOld := m.toOld[n := zid]);
    if n in m.toOld {
      var z := m.toOld[n];
      assert z != zid && after.toNew[z] == n && after.toOld[n] == zid;
    } else {
      forall z | z in after.toNew ensures after.toNew[z] in after.toOld && after.toOld[after.toNew[z]] == z {
        if z != zid { assert m.toNew[z] in m.toOld; }
      }
      forall k | k in after.toOld ensures after.toOld[k] in after.toNew && after.toNew[after.toOld[k]] == k {
        if k != n { assert m.toOld[k] in m.toNew; }
      }
    }
  }

  /** As long as the manual has not used up its identifiers, a new one is not in use, and all stays consistent. */
  lemma AllocateOk(defined: map<Zid, ZidN>, m: Mapping, zid: Zid)
    requires DefinedOk(defined) && Ok(defined, m) && zid !in m.toNew
    requires Allocate(m, zid).0.nextZidM <= MANUAL_END
    ensures var (after, n) := Allocate(m, zid);
            n !in m.toOld && Ok(defined, after) && after.toNew == m.toNew[zid := n]
  {
    var (after, n) := Allocate(m, zid);
    assert forall z :: z in m.toNew ==> m.toNew[z] != n;
    InsertExact(m, zid, n);
    forall z | z in after.toNew
      ensures GivenBefore(after, after.toNew[z]) || (z in defined && after.toNew[z] == defined[z])
    {
      assert z != zid ==> GivenBefore(m, m.toNew[z]) || (z in defined && m.toNew[z] == defined[z]);
    }
  }

  /** Without an identifier left, the manual takes one that is predefined, and the maps are inverse no more. */
  lemma ManualCollision(m: Mapping, zid: Zid)
    requires Inverse(m) && zid !in m.toNew && IsManual(zid) && m.hadManual
    ensures Inverse(Allocate(m, zid).0) <==> m.nextZidM !in m.toOld
  {
    InsertExact(m, zid, m.nextZidM);
    var after := Allocate(m, zid).0;
    var plain := m.(toNew := m.toNew[zid := m.nextZidM], toOld := m.toOld[m.nextZidM := zid]);
    assert after.toNew == plain.toNew && after.toOld == plain.toOld;
  }

  /** A deletion takes just the pair of its identifier, and never a predefined one. */
  lemma DeletedExact(defined: map<Zid, ZidN>, m: Mapping, zid: Zid)
    requires Inverse(m)
    ensures var after := Deleted(defined, m, zid);
      && (forall z :: z in after.toNew <==> z in m.toNew && (z != zid || z in defined))
      && (forall z :: z in after.toNew ==> after.toNew[z] == m.toNew[z])
      && (forall n :: n in after.toOld <==> n in m.toOld && (m.toOld[n] != zid || zid in defined))
      && forall n :: n in after.toOld ==> after.toOld[n] == m.toOld[n]
  {
    if zid !in defined && zid in m.toNew {
      forall n | n in m.toOld ensures m.toOld[n] == zid <==> n == m.toNew[zid] {}
    }
  }

  /** Deleting what was given last takes it back, so that it is given again; but not if it was for the manual. */
  lemma DeleteUndoes(defined: map<Zid, ZidN>, m: Mapping, zid: Zid)
    requires Inverse(m) && zid !in m.toNew && zid !in defined && Inverse(Got(m, zid))
    ensures Deleted(defined, Got(m, zid), zid) == m <==> !(IsManual(zid) && (m.hadManual || zid == FIRST_MANUAL))
  {
    var after := Got(m, zid);
    var n := after.toNew[zid];
    assert after.toNew - {zid} == m.toNew;
    assert after.toOld - {n} == m.toOld;
  }

  lemma DeletedOk(defined: map<Zid, ZidN>, m: Mapping, zid: Zid)
    requires DefinedOk(defined) && Ok(defined, m) && m.nextZidM <= MANUAL_END
    ensures Ok(defined, Deleted(defined, m, zid))
  {
    var after := Deleted(defined, m, zid);
    if after != m {
      forall z | z in after.toNew
        ensures GivenBefore(after, after.toNew[z]) || (z in defined && after.toNew[z] == defined[z])
      {
        assert z != zid && m.toNew[z] != m.toNew[zid];
      }
    }
  }

  lemma KeptOk(defined: map<Zid, ZidN>, m: Mapping, zids: set<Zid>)
    requires Ok(defined, m)
    ensures Ok(defined, Kept(m, zids)) && Kept(m, zids).toNew.Keys == m.toNew.Keys * zids
  {
    var after := Kept(m, zids);
    forall z | z in after.toNew
      ensures GivenBefore(after, after.toNew[z]) || (z in defined && after.toNew[z] == defined[z])
    {
      assert after.toNew[z] == m.toNew[z];
    }
  }

  /** The counter for the manual never goes back. */
  lemma {:induction false} GotAllOk(defined: map<Zid, ZidN>, m: Mapping, zids: seq<Zid>)
    requires DefinedOk(defined) && Ok(defined, m)
    ensures m.nextZidM <= GotAll(m, zids).nextZidM
    ensures GotAll(m, zids).nextZidM <= MANUAL_END ==>
              Ok(defined, GotAll(m, zids))
    decreases |zids|
  {
    if zids != [] {
      var next := Got(m, zids[0]);
      GotAllCounts(next, zids[1..]);
      if GotAll(m, zids).nextZidM <= MANUAL_END {
        if zids[0] !in m.toNew { AllocateOk(defined, m, zids[0]); }
        GotAllOk(defined, next, zids[1..]);
      }
    }
  }

  lemma {:induction false} GotAllKeys(m: Mapping, zids: seq<Zid>)
    ensures forall z :: z in GotAll(m, zids).toNew <==> z in m.toNew || z in zids
    decreases |zids|
  {
    if zids != [] {
      GotAllKeys(Got(m, zids[0]), zids[1..]);
      assert forall z :: z in zids <==> z == zids[0] || z in zids[1..];
    }
  }

  lemma {:induction false} GotAllCounts(m: Mapping, zids: seq<Zid>)
    ensures m.nextZidM <= GotAll(m, zids).nextZidM
    decreases |zids|
  {
    if zids != [] { GotAllCounts(Got(m, zids[0]), zids[1..]); }
  }

  /** What is given later is given from the counter on, and what was given before stays. */
  lemma {:induction false} GotAllAbove(m: Mapping, zids: seq<Zid>, z: Zid)
    ensures z in m.toNew ==> z in GotAll(m, zids).toNew && GotAll(m, zids).toNew[z] == m.toNew[z]
    ensures z !in m.toNew && z in zids && !IsManual(z) ==>
              z in GotAll(m, zids).toNew && GotAll(m, zids).toNew[z] >= m.nextZidN
    decreases |zids|
  {
    if zids != [] { GotAllAbove(Got(m, zids[0]), zids[1..], z); }
  }

  lemma {:induction false} GotAllOrder(m: Mapping, zids: seq<Zid>, a: Zid, b: Zid)
    requires Ascending(zids) && a in zids && b in zids && a < b && a !in m.toNew && b !in m.toNew
    requires !IsManual(a) && !IsManual(b)
    ensures var after := GotAll(m, zids).toNew; a in after && b in after && after[a] < after[b]
    decreases |zids|
  {
    var next := Got(m, zids[0]);
    assert b in zids[1..];
    if zids[0] == a {
      GotAllAbove(next, zids[1..], a);
      GotAllAbove(next, zids[1..], b);
    } else {
      assert zids[0] < a;
      GotAllOrder(next, zids[1..], a, b);
    }
  }

  /** A fetch gives new identifiers in the order of the old ones. */
  lemma FetchOrder(m: Mapping, zids: set<Zid>, a: Zid, b: Zid)
    requires a in zids && b in zids && a < b && a !in m.toNew && b !in m.toNew && !IsManual(a) && !IsManual(b)
    ensures var after := Fetched(m, zids).toNew; a in after && b in after && after[a] < after[b]
  {
    SortedAscending(zids);
    GotAllOrder(m, Sorted(zids), a, b);
  }

  // ---------- Runs ----------

  datatype Step = Get(zid: Zid) | Delete(zid: Zid) | Fetch(zids: set<Zid>)

  function Next(defined: map<Zid, ZidN>, m: Mapping, step: Step): (r: Mapping) {
    match step
    case Get(zid) => Got(m, zid)
    case Delete(zid) => Deleted(defined, m, zid)
    case Fetch(zids) => Fetched(m, zids)
  }

  function Run(defined: map<Zid, ZidN>, m: Mapping, steps: seq<Step>): (r: Mapping)
    decreases |steps|
  {
    if steps == [] then m else Run(defined, Next(defined, m, steps[0]), steps[1..])
  }

  lemma NextOk(defined: map<Zid, ZidN>, m: Mapping, step: Step)
    requires DefinedOk(defined) && Ok(defined, m) && Next(defined, m, step).nextZidM <= MANUAL_END
    ensures Ok(defined, Next(defined, m, step))
    ensures step.Fetch? ==> Next(defined, m, step).toNew.Keys == step.zids
  {
    match step
    case Get(zid) => if zid !in m.toNew { AllocateOk(defined, m, zid); }
    case Delete(zid) => DeletedOk(defined, m, zid);
    case Fetch(zids) =>
      GotAllOk(defined, m, Sorted(zids));
      GotAllKeys(m, Sorted(zids));
      KeptOk(defined, GotAll(m, Sorted(zids)), zids);
  }

  lemma {:induction false} RunCounts(defined: map<Zid, ZidN>, m: Mapping, steps: seq<Step>)
    ensures m.nextZidM <= Run(defined, m, steps).nextZidM
    decreases |steps|
  {
    if steps != [] {
      RunCounts(defined, Next(defined, m, steps[0]), steps[1..]);
      if steps[0].Fetch? { GotAllCounts(m, Sorted(steps[0].zids)); }
    }
  }

  function Start(defined: map<Zid, ZidN>): (r: Mapping) {
    Mapping(defined, map n | n in defined.Values :: OldOf(defined, n), MANUAL_START, false, NORMAL_START)
  }

  function OldsOf(defined: map<Zid, ZidN>, n: ZidN): (s: set<Zid>) {
    set z | z in defined && defined[z] == n
  }

  function OldOf(defined: map<Zid, ZidN>, n: ZidN): (z: Zid) {
    if OldsOf(defined, n) == {} then INVALID else Min(OldsOf(defined, n))
  }

  lemma StartOk(defined: map<Zid, ZidN>)
    requires DefinedOk(defined)
    ensures Ok(defined, Start(defined))
  {
    forall z | z in defined ensures OldOf(defined, defined[z]) == z {
      assert OldsOf(defined, defined[z]) == {z};
    }
  }

  /** In every run the maps stay inverse, until the manual has used up its identifiers. */
  lemma {:induction false} RunOk(defined: map<Zid, ZidN>, m: Mapping, steps: seq<Step>)
    requires DefinedOk(defined) && Ok(defined, m) && Run(defined, m, steps).nextZidM <= MANUAL_END
    ensures Ok(defined, Run(defined, m, steps))
    decreases |steps|
  {
    if steps != [] {
      RunCounts(defined, Next(defined, m, steps[0]), steps[1..]);
      NextOk(defined, m, steps[0]);
      RunOk(defined, Next(defined, m, steps[0]), steps[1..]);
    }
  }

  // ---------- The mapping as text ----------

  function MappingLine(z: Zid, n: ZidN): (r: string) {
    Ids.String(z) + " " + Ids.StringN(n)
  }

  function Lines(toNew: map<Zid, ZidN>, zids: seq<Zid>): (r: string)
    requires forall z :: z in zids ==> z in toNew
  {
    if zids == [] then ""
    else MappingLine(zids[0], toNew[zids[0]]) + if |zids| == 1 then "" else "\n" + Lines(toNew, zids[1..])
  }

  function AsText(toNew: map<Zid, ZidN>): (r: string) {
    Lines(toNew, Sorted(toNew.Keys))
  }

  // ---------- Reading such a text ----------

  function DigitRun(s: string): (r: string) {
    if s == "" || !IsDigit(s[0]) then "" else [s[0]] + DigitRun(s[1..])
  }

  function AlnumRun(s: string): (r: string) {
    if s == "" || Ids.DigitValue(s[0]) == 36 then "" else [s[0]] + AlnumRun(s[1..])
  }

  function DropDigits(s: string): (r: string)
    ensures |r| <= |s|
  {
    if s == "" || !IsDigit(s[0]) then s else DropDigits(s[1..])
  }

  function DropAlnum(s: string): (r: string)
    ensures |r| <= |s|
  {
    if s == "" || Ids.DigitValue(s[0]) == 36 then s else DropAlnum(s[1..])
  }

  /** The text after the current line. */
  function NextLine(s: string): (r: string)
    ensures |r| <= |s| && (s != "" ==> |r| < |s|)
  {
    ZettelFiles.EatEOL(ZettelFiles.DropLine(s))
  }

  /** A pair that is read is added, unless the old identifier is already mapped; it is an error if to another one. */
  function AddPair(m: Mapping, z: Zid, n: ZidN): (r: (Mapping, bool)) {
    if z in m.toNew then (m, m.toNew[z] == n)
    else
      (m.(toNew := m.toNew[z := n], toOld := m.toOld[n := z],
          nextZidN := if n + 1 > m.nextZidN then n + 1 else m.nextZidN), true)
  }

  /** The mapping after a line, whether the line was right, and the text after it. */
  function ReadLine(m: Mapping, s: string): (r: (Mapping, bool, string))
    requires s != ""
    ensures |r.2| < |s|
  {
    var t := ZettelFiles.DropSpace(s);
    var z, u := Ids.Parse(DigitRun(t)), DropDigits(t);
    if z.None? then (m, false, NextLine(u)) else
    var v := ZettelFiles.DropSpace(u);
    var n, w := Ids.ParseN(AlnumRun(v)), DropAlnum(v);
    if n.None? then (m, false, NextLine(w)) else
    var added := AddPair(m, z.value, n.value);
    (added.0, added.1, NextLine(w))
  }

  /** The mapping after all lines, and whether all of them were right. */
  function ReadLines(m: Mapping, s: string): (r: (Mapping, bool))
    decreases |s|
  {
    if s == "" then (m, true) else
    var line := ReadLine(m, s);
    var rest := ReadLines(line.0, line.2);
    (rest.0, line.1 && rest.1)
  }

  // ---------- What is written is read again ----------

  lemma {:induction false} RunPrefix(d: string, t: string)
    requires (forall i :: 0 <= i < |d| ==> IsDigit(d[i])) && t != "" && !IsDigit(t[0])
    ensures DigitRun(d + t) == d && DropDigits(d + t) == t
  {
    if d == "" {
      assert d + t == t;
    } else {
      assert (d + t)[1..] == d[1..] + t;
      RunPrefix(d[1..], t);
    }
  }

  lemma {:induction false} AlnumPrefix(d: string, t: string)
    requires Ids.IsNumeral(d, 36) && (t == "" || Ids.DigitValue(t[0]) == 36)
    ensures AlnumRun(d + t) == d && DropAlnum(d + t) == t
  {
    if d == "" {
      assert d + t == t;
    } else {
      assert (d + t)[1..] == d[1..] + t;
      AlnumPrefix(d[1..], t);
    }
  }

  lemma DecimalDigits(z: Zid)
    ensures forall i :: 0 <= i < 14 ==> IsDigit(Ids.String(z)[i]) && !Metas.IsSpace(Ids.String(z)[i])
  {
    Ids.DigitsAreNumeral(z, 14, 10);
    forall i | 0 <= i < 14 ensures IsDigit(Ids.String(z)[i]) && !Metas.IsSpace(Ids.String(z)[i]) {
      assert Ids.DigitValue(Ids.String(z)[i]) < 10;
      Graphic(Ids.String(z)[i]);
    }
  }

  lemma AlnumDigits(n: ZidN)
    ensures Ids.IsNumeral(Ids.StringN(n), 36) && !Metas.IsSpace(Ids.StringN(n)[0])
  {
    Ids.DigitsAreNumeral(n, 4, 36);
    assert Ids.DigitValue(Ids.StringN(n)[0]) < 36;
    Graphic(Ids.StringN(n)[0]);
  }

  lemma ReadOld(z: Zid, t: string)
    requires t != "" && !IsDigit(t[0])
    ensures var s := Ids.String(z) + t;
            ZettelFiles.DropSpace(s) == s && DigitRun(s) == Ids.String(z) && DropDigits(s) == t
  {
    DecimalDigits(z);
    assert (Ids.String(z) + t)[0] == Ids.String(z)[0];
    RunPrefix(Ids.String(z), t);
  }

  lemma ReadNew(n: ZidN, t: string)
    requires t == "" || t[0] == '\n'
    ensures var s := " " + Ids.StringN(n) + t;
            var v := ZettelFiles.DropSpace(s);
            AlnumRun(v) == Ids.StringN(n) && DropAlnum(v) == t
  {
    AlnumDigits(n);
    assert (Ids.StringN(n) + t)[0] == Ids.StringN(n)[0];
    assert " " + Ids.StringN(n) + t == " " + (Ids.StringN(n) + t);
    DropBlank(Ids.StringN(n) + t);
    AlnumPrefix(Ids.StringN(n), t);
  }

  lemma DropBlank(v: string)
    requires v != "" && !Metas.IsSpace(v[0])
    ensures ZettelFiles.DropSpace(" " + v) == v
  {
    BlankIsWhite();
    assert (" " + v)[1..] == v && ZettelFiles.DropSpace(v) == v;
  }

  /** A pair that can be read again: `INVALID` and its like are printed, but not accepted. */
  predicate Readable(z: Zid, n: ZidN) {
    Ids.IsValid(z) && Ids.IsValidN(n)
  }

  /** The identifiers have at most as many digits as their textual forms. */
  predicate Printable(z: Zid, n: ZidN) {
    z <= Ids.MAX_ZID && n <= Ids.MAX_ZID_N
  }

  lemma ParseOld(z: Zid)
    requires z <= Ids.MAX_ZID
    ensures Ids.Parse(Ids.String(z)) == if Ids.IsValid(z) then Some(z) else None
  {
    Ids.ParseString(Ids.String(z), z);
    if z == 0 { Ids.ValueOfDigits(0, 14, 10); }
  }

  lemma ParseNew(n: ZidN)
    requires n <= Ids.MAX_ZID_N
    ensures Ids.ParseN(Ids.StringN(n)) == if Ids.IsValidN(n) then Some(n) else None
  {
    Ids.UpperOfDigits(n, 4);
    Ids.ParseStringN(Ids.StringN(n), n);
    if n == 0 { Ids.ValueOfDigits(0, 4, 36); }
  }

  /** What becomes of a mapping by a written line. */
  function AddReadable(m: Mapping, z: Zid, n: ZidN): (r: (Mapping, bool)) {
    if Readable(z, n) then AddPair(m, z, n) else (m, false)
  }

  /** A written line is read as its pair, or is an error if the pair is not readable. */
  lemma ReadMappingLine(m: Mapping, z: Zid, n: ZidN, t: string)
    requires Printable(z, n) && (t == "" || t[0] == '\n')
    ensures MappingLine(z, n) + t != ""
    ensures var added := AddReadable(m, z, n);
            ReadLine(m, MappingLine(z, n) + t) == (added.0, added.1, if t == "" then "" else t[1..])
  {
    var after := " " + Ids.StringN(n) + t;
    assert MappingLine(z, n) + t == Ids.String(z) + after;
    ParseOld(z);
    ParseNew(n);
    ReadOld(z, after);
    ReadNew(n, t);
    assert ZettelFiles.DropLine(t) == t;
    DropWritten(n, t);
  }

  lemma {:induction false} DropLineOver(d: string, t: string)
    requires (forall i :: 0 <= i < |d| ==> !Metas.IsEOL(d[i])) && (t == "" || t[0] == '\n')
    ensures ZettelFiles.DropLine(d + t) == t
  {
    if d == "" {
      assert d + t == t;
    } else {
      assert (d + t)[1..] == d[1..] + t;
      DropLineOver(d[1..], t);
    }
  }

  lemma DropWritten(n: ZidN, t: string)
    requires t == "" || t[0] == '\n'
    ensures ZettelFiles.DropLine(" " + Ids.StringN(n) + t) == t
  {
    AlnumDigits(n);
    assert forall i :: 0 <= i < 4 ==> Ids.DigitValue(Ids.StringN(n)[i]) < 36;
    DropLineOver(" " + Ids.StringN(n), t);
  }

  /** The pairs of a table that can be read again. */
  function ReadablePairs(toNew: map<Zid, ZidN>, zids: seq<Zid>): (r: map<Zid, ZidN>) {
    map z | z in toNew && z in zids && Readable(z, toNew[z]) :: toNew[z]
  }

  /** All pairs can be read, and none of them contradicts the mapping. */
  ghost predicate Accepts(m: Mapping, toNew: map<Zid, ZidN>, zids: seq<Zid>) {
    forall z :: z in zids && z in toNew ==> Readable(z, toNew[z]) && (z in m.toNew ==> m.toNew[z] == toNew[z])
  }

  /** The counter is where it was, or just above a new pair, and above all of them. */
  ghost predicate CounterAbove(m: Mapping, added: map<Zid, ZidN>, next: ZidN) {
    && m.nextZidN <= next
    && (forall z :: z in added && z !in m.toNew ==> added[z] < next)
    && (next == m.nextZidN || exists z :: z in added && z !in m.toNew && next == added[z] + 1)
  }

  /** What is read is consistent in one direction, whatever the mapping. */
  ghost predicate OldsKnown(m: Mapping) {
    && (forall z :: z in m.toNew ==> m.toNew[z] in m.toOld)
    && (forall n :: n in m.toOld ==> m.toOld[n] in m.toNew && m.toNew[m.toOld[n]] == n)
  }

  ghost predicate Injective(toNew: map<Zid, ZidN>) {
    forall y, z :: y in toNew && z in toNew && toNew[y] == toNew[z] ==> y == z
  }

  lemma InverseInjective(m: Mapping)
    requires OldsKnown(m)
    ensures Inverse(m) <==> Injective(m.toNew)
  {
    if Injective(m.toNew) {
      forall z | z in m.toNew ensures m.toOld[m.toNew[z]] == z {
        assert m.toNew[m.toOld[m.toNew[z]]] == m.toNew[z];
      }
    }
  }

  /** What becomes of a mapping when a table is read, and whether there was no error. */
  ghost predicate TableRead(m: Mapping, toNew: map<Zid, ZidN>, zids: seq<Zid>, after: Mapping, right: bool) {
    && after.toNew == ReadablePairs(toNew, zids) + m.toNew && (right <==> Accepts(m, toNew, zids))
    && CounterAbove(m, ReadablePairs(toNew, zids), after.nextZidN)
    && after.nextZidM == m.nextZidM && after.hadManual == m.hadManual
    && (OldsKnown(m) ==> OldsKnown(after))
  }

  lemma NothingRead(m: Mapping, toNew: map<Zid, ZidN>)
    ensures TableRead(m, toNew, [], m, true)
  {
    assert ReadablePairs(toNew, []) + m.toNew == m.toNew;
  }

  /** One line of a table is done. */
  lemma LineRead(m: Mapping, toNew: map<Zid, ZidN>, zids: seq<Zid>, after: Mapping, right: bool)
    requires zids != [] && zids[0] in toNew
    requires TableRead(AddReadable(m, zids[0], toNew[zids[0]]).0, toNew, zids[1..], after, right)
    ensures TableRead(m, toNew, zids, after, AddReadable(m, zids[0], toNew[zids[0]]).1 && right)
  {
    LineAdded(m, toNew, zids);
    CounterMoves(m, toNew, zids, after.nextZidN);
  }

  lemma LineAdded(m: Mapping, toNew: map<Zid, ZidN>, zids: seq<Zid>)
    requires zids != [] && zids[0] in toNew
    ensures var (next, right) := AddReadable(m, zids[0], toNew[zids[0]]);
      && ReadablePairs(toNew, zids[1..]) + next.toNew == ReadablePairs(toNew, zids) + m.toNew
      && (Accepts(m, toNew, zids) <==> right && Accepts(next, toNew, zids[1..]))
      && (OldsKnown(m) ==> OldsKnown(next))
  {
    var z := zids[0];
    assert forall x :: x in zids <==> x == z || x in zids[1..];
  }

  lemma CounterMoves(m: Mapping, toNew: map<Zid, ZidN>, zids: seq<Zid>, last: ZidN)
    requires zids != [] && zids[0] in toNew
    requires CounterAbove(AddReadable(m, zids[0], toNew[zids[0]]).0, ReadablePairs(toNew, zids[1..]), last)
    ensures CounterAbove(m, ReadablePairs(toNew, zids), last)
  {
    var next, rest, all := AddReadable(m, zids[0], toNew[zids[0]]).0, ReadablePairs(toNew, zids[1..]),
        ReadablePairs(toNew, zids);
    assert forall x :: x in zids <==> x == zids[0] || x in zids[1..];
    forall z | z in all && z !in m.toNew ensures all[z] < last {
      if z != zids[0] { assert z in rest && z !in next.toNew; }
    }
    if last != next.nextZidN {
      var z :| z in rest && z !in next.toNew && last == rest[z] + 1;
      assert z in all && z !in m.toNew && last == all[z] + 1;
    } else if last != m.nextZidN {
      assert zids[0] in all && zids[0] !in m.toNew && last == all[zids[0]] + 1;
    }
  }

  /**
   A table in text form is read into any mapping: what can be read is added, unless its old identifier is
   already mapped. It is an error iff some pair cannot be read, or contradicts the mapping.
   */
  lemma {:induction false} ReadWritten(m: Mapping, toNew: map<Zid, ZidN>, zids: seq<Zid>)
    requires forall z :: z in zids ==> z in toNew && Printable(z, toNew[z])
    ensures TableRead(m, toNew, zids, ReadLines(m, Lines(toNew, zids)).0, ReadLines(m, Lines(toNew, zids)).1)
    decreases |zids|
  {
    if zids == [] {
      NothingRead(m, toNew);
    } else {
      var z, n := zids[0], toNew[zids[0]];
      var t := if |zids| == 1 then "" else "\n" + Lines(toNew, zids[1..]);
      ReadMappingLine(m, z, n, t);
      var next := AddReadable(m, z, n).0;
      assert |zids| > 1 ==> t[1..] == Lines(toNew, zids[1..]);
      var rest := ReadLines(next, Lines(toNew, zids[1..]));
      ReadWritten(next, toNew, zids[1..]);
      LineRead(m, toNew, zids, rest.0, rest.1);
    }
  }

  /** All of a table can be read, and none of it contradicts the mapping. */
  ghost predicate AcceptsAll(m: Mapping, toNew: map<Zid, ZidN>) {
    forall z :: z in toNew ==> Readable(z, toNew[z]) && (z in m.toNew ==> m.toNew[z] == toNew[z])
  }

  lemma AcceptsSorted(m: Mapping, toNew: map<Zid, ZidN>)
    ensures Accepts(m, toNew, Sorted(toNew.Keys)) <==> AcceptsAll(m, toNew)
    ensures AcceptsAll(m, toNew) ==>
      ReadablePairs(toNew, Sorted(toNew.Keys)) == toNew && toNew + m.toNew == m.toNew + toNew
  {
    var zids := Sorted(toNew.Keys);
    assert forall z :: z in zids <==> z in toNew;
  }

  /** What is written is read again without an error iff all of it can be read, and does not contradict the mapping. */
  lemma TextRoundTrip(m: Mapping, toNew: map<Zid, ZidN>)
    requires forall z :: z in toNew ==> Printable(z, toNew[z])
    ensures var (after, right) := ReadLines(m, AsText(toNew));
      && (right <==> AcceptsAll(m, toNew))
      && (right ==> after.toNew == m.toNew + toNew && CounterAbove(m, toNew, after.nextZidN))
  {
    ReadWritten(m, toNew, Sorted(toNew.Keys));
    AcceptsSorted(m, toNew);
  }

  /** After a table was read, the maps are inverse iff no new identifier is taken twice. */
  lemma ReadInverseIff(m: Mapping, toNew: map<Zid, ZidN>)
    requires Inverse(m) && forall z :: z in toNew ==> Printable(z, toNew[z])
    requires ReadLines(m, AsText(toNew)).1
    ensures Inverse(ReadLines(m, AsText(toNew)).0) <==> Injective(m.toNew + toNew)
  {
    TextRoundTrip(m, toNew);
    ReadWritten(m, toNew, Sorted(toNew.Keys));
    InverseInjective(ReadLines(m, AsText(toNew)).0);
  }

  /** The text of a fresh mapping cannot be read without an error: `INVALID` is among the predefined identifiers. */
  lemma FreshUnreadable(m: Mapping, defined: map<Zid, ZidN>)
    requires INVALID in defined && forall z :: z in defined ==> Printable(z, defined[z])
    ensures !ReadLines(m, AsText(Start(defined).toNew)).1
  {
    TextRoundTrip(m, defined);
  }

  // ---------- What goes wrong ----------

  /** The manual's first `k` identifiers, in their order. */
  function ManualSteps(k: nat): (r: seq<Step>) {
    if k == 0 then [] else ManualSteps(k - 1) + [Get(FIRST_MANUAL + k - 1)]
  }

  lemma {:induction false} RunAppended(defined: map<Zid, ZidN>, m: Mapping, steps: seq<Step>, step: Step)
    ensures Run(defined, m, steps + [step]) == Next(defined, Run(defined, m, steps), step)
    decreases |steps|
  {
    if steps == [] {
      assert [step][1..] == [];
    } else {
      assert (steps + [step])[1..] == steps[1..] + [step];
      RunAppended(defined, Next(defined, m, steps[0]), steps[1..], step);
    }
  }

  /** The state after the manual's first `k` zettel. */
  ghost predicate ManualState(defined: map<Zid, ZidN>, k: nat, m: Mapping) {
    && Ok(defined, m) && m.nextZidM == MANUAL_START + k && (k > 0 ==> m.hadManual)
    && (forall z :: z in m.toNew <==> z in defined || FIRST_MANUAL <= z < FIRST_MANUAL + k)
    && forall z :: z in defined ==> m.toNew[z] == defined[z]
  }

  lemma ManualNext(defined: map<Zid, ZidN>, k: nat, m: Mapping)
    requires DefinedOk(defined) && (forall z :: z in defined ==> !IsManual(z)) && k < MANUAL_END - MANUAL_START
    requires ManualState(defined, k, m)
    ensures ManualState(defined, k + 1, Got(m, FIRST_MANUAL + k))
  {
    AllocateOk(defined, m, FIRST_MANUAL + k);
  }

  /** As many zettel of the manual as there are identifiers for them. */
  lemma {:induction false} ManualRun(defined: map<Zid, ZidN>, k: nat)
    requires DefinedOk(defined) && (forall z :: z in defined ==> !IsManual(z)) && k <= MANUAL_END - MANUAL_START
    ensures ManualState(defined, k, Run(defined, Start(defined), ManualSteps(k)))
    decreases k
  {
    if k == 0 {
      StartOk(defined);
    } else {
      ManualRun(defined, k - 1);
      RunAppended(defined, Start(defined), ManualSteps(k - 1), Get(FIRST_MANUAL + k - 1));
      ManualNext(defined, k - 1, Run(defined, Start(defined), ManualSteps(k - 1)));
    }
  }

  /** One zettel of the manual more, and it gets the identifier 00ZW, which is predefined. */
  lemma ManualOverflow(defined: map<Zid, ZidN>)
    requires DefinedOk(defined) && (forall z :: z in defined ==> !IsManual(z)) && MANUAL_END in defined.Values
    ensures !Inverse(Run(defined, Start(defined), ManualSteps(MANUAL_END - MANUAL_START + 1)))
  {
    var k: nat := MANUAL_END - MANUAL_START;
    var m, zid := Run(defined, Start(defined), ManualSteps(k)), FIRST_MANUAL + k;
    ManualRun(defined, k);
    RunAppended(defined, Start(defined), ManualSteps(k), Get(zid));
    ManualCollision(m, zid);
    var z :| z in defined && defined[z] == MANUAL_END;
    assert m.toNew[z] == defined[z];
  }

  /** A fetch without a predefined zettel forgets its identifier; it gets another one, which a fresh mapping rejects. */
  lemma PredefinedForgotten(defined: map<Zid, ZidN>, z: Zid)
    requires DefinedOk(defined) && z in defined && !IsManual(z)
    ensures var m := Run(defined, Start(defined), [Fetch({}), Get(z)]);
            m.toNew == map[z := NORMAL_START] && !AcceptsAll(Start(defined), m.toNew)
  {
    var steps, kept := [Fetch({}), Get(z)], Fetched(Start(defined), {});
    assert kept.toNew == map[] && GotAll(Start(defined), []) == Start(defined);
    assert steps[1..] == [Get(z)] && [Get(z)][1..] == [];
    assert Run(defined, kept, [Get(z)]) == Run(defined, Next(defined, kept, Get(z)), []);
    assert Run(defined, Start(defined), steps) == Got(kept, z);
  }

  /** Reading does not set the counter of the manual: an identifier of the manual may then be given twice. */
  lemma ManualGivenTwice(defined: map<Zid, ZidN>)
    requires DefinedOk(defined) && forall z :: z in defined ==> !IsManual(z)
    ensures var m := AddPair(Start(defined), FIRST_MANUAL + 1, MANUAL_START).0;
            Inverse(m) && !Inverse(Got(m, FIRST_MANUAL))
  {
    StartOk(defined);
    var m := AddPair(Start(defined), FIRST_MANUAL + 1, MANUAL_START).0;
    assert IsManual(FIRST_MANUAL + 1) && IsManual(FIRST_MANUAL);
    InsertExact(Start(defined), FIRST_MANUAL + 1, MANUAL_START);
    assert Start(defined).(toNew := m.toNew, toOld := m.toOld).toNew == m.toNew;
    var after := Got(m, FIRST_MANUAL);
    assert after.toNew[FIRST_MANUAL + 1] == MANUAL_START && after.toOld[MANUAL_START] == FIRST_MANUAL;
  }

  // ---------- The mapper ----------

  method Inverted(defined: map<Zid, ZidN>) returns (toOld: map<ZidN, Zid>)
    requires DefinedOk(defined)
    ensures toOld == Start(defined).toOld
  {
    toOld := map[];
    var todo := defined.Keys;
    while todo != {}
      invariant todo <= defined.Keys
      invariant forall z :: z in defined && z !in todo ==> defined[z] in toOld
      invariant forall n :: n in toOld ==> toOld[n] in defined && defined[toOld[n]] == n
    {
      var z :| z in todo;
      todo := todo - {z};
      toOld := toOld[defined[z] := z];
    }
    InverseUnique(defined, toOld);
  }

  lemma InverseUnique(defined: map<Zid, ZidN>, toOld: map<ZidN, Zid>)
    requires DefinedOk(defined) && forall z :: z in defined ==> defined[z] in toOld
    requires forall n :: n in toOld ==> toOld[n] in defined && defined[toOld[n]] == n
    ensures toOld == Start(defined).toOld
  {
    StartOk(defined);
    var start := Start(defined).toOld;
    forall n ensures n in toOld <==> n in start {
      if n in start { assert start[n] in defined && defined[start[n]] == n; }
      if n in toOld { assert defined[toOld[n]] in start; }
    }
    forall n | n in toOld ensures toOld[n] == start[n] {
      assert defined[start[n]] == n && defined[toOld[n]] == n;
    }
  }

  class ZidMapper {
    const defined: map<Zid, ZidN>
    var toNew: map<Zid, ZidN>
    var toOld: map<ZidN, Zid>
    var nextZidM: ZidN
    var hadManual: bool
    var nextZidN: ZidN

    ghost function Value(): (m: Mapping)
      reads this
    {
      Mapping(toNew, toOld, nextZidM, hadManual, nextZidN)
    }

    constructor (defined: map<Zid, ZidN>)
      requires DefinedOk(defined)
      ensures Value() == Start(defined) && this.defined == defined
    {
      var inverted := Inverted(defined);
      this.defined, toNew, toOld := defined, defined, inverted;
      nextZidM, hadManual, nextZidN := MANUAL_START, false, NORMAL_START;
    }

    method GetZidN(zid: Zid) returns (n: ZidN)
      requires Ids.IsValid(zid)
      modifies this
      ensures Value() == Got(old(Value()), zid) && zid in toNew && n == toNew[zid]
    {
      if zid in toNew { return toNew[zid]; }
      if IsManual(zid) {
        if zid == FIRST_MANUAL { hadManual := true; }
        if hadManual {
          n := nextZidM;
          nextZidM := nextZidM + 1;
          toNew := toNew[zid := n];
          toOld := toOld[n := zid];
          return;
        }
      }
      n := nextZidN;
      nextZidN := nextZidN + 1;
      toNew := toNew[zid := n];
      toOld := toOld[n := zid];
    }

    method DeleteO(zid: Zid)
      modifies this
      ensures Value() == Deleted(defined, old(Value()), zid)
    {
      if zid in defined { return; }
      if zid in toNew {
        var n := toNew[zid];
        toNew := toNew - {zid};
        toOld := toOld - {n};
        if n + 1 == nextZidN { nextZidN := n; }
      }
    }

    /** Maps all identifiers that were fetched, and no others. */
    method FetchAsBytes(zids: set<Zid>) returns (text: string)
      requires forall z :: z in zids ==> Ids.IsValid(z)
      modifies this
      ensures Value() == Fetched(old(Value()), zids) && toNew.Keys == zids && text == AsText(toNew)
    {
      GotAllKeys(Value(), Sorted(zids));
      GetAll(Sorted(zids));
      ghost var all := Value();
      if |toNew| != |zids| {
        RemoveOthers(zids);
      } else {
        SameSize(toNew.Keys, zids);
        AllKept(all, zids);
      }
      text := AsBytes();
    }

    method GetAll(zids: seq<Zid>)
      requires forall z :: z in zids ==> Ids.IsValid(z)
      modifies this
      ensures Value() == GotAll(old(Value()), zids)
    {
      for i := 0 to |zids|
        invariant GotAll(Value(), zids[i..]) == GotAll(old(Value()), zids)
      {
        assert zids[i..][1..] == zids[i + 1..];
        var _ := GetZidN(zids[i]);
      }
    }

    method RemoveOthers(zids: set<Zid>)
      modifies this
      ensures Value() == Kept(old(Value()), zids)
    {
      ghost var m := Value();
      var todo := toNew.Keys - zids;
      while todo != {}
        invariant Value() == Kept(m, zids + todo) && todo <= m.toNew.Keys - zids
      {
        var z :| z in todo;
        assert toNew[z] == m.toNew[z];
        RemoveOne(m, zids, todo, z);
        toOld := toOld - {toNew[z]};
        toNew := toNew - {z};
        todo := todo - {z};
      }
      assert zids + todo == zids;
    }

    /** Reads lines with pairs; the result says whether there was no error. */
    method ParseAndUpdate(content: string) returns (right: bool)
      modifies this
      ensures Value() == ReadLines(old(Value()), content).0 && right == ReadLines(old(Value()), content).1
    {
      right := true;
      var rest := content;
      while rest != ""
        invariant ReadLines(Value(), rest).0 == ReadLines(old(Value()), content).0
        invariant right && ReadLines(Value(), rest).1 <==> ReadLines(old(Value()), content).1
        decreases |rest|
      {
        var ok;
        ok, rest := ParseLine(rest);
        right := right && ok;
      }
    }

    method ParseLine(s: string) returns (ok: bool, rest: string)
      requires s != ""
      modifies this
      ensures (Value(), ok, rest) == ReadLine(old(Value()), s)
    {
      var t := ZettelFiles.DropSpace(s);
      var z := Ids.Parse(DigitRun(t));
      rest := DropDigits(t);
      if z.None? { return false, NextLine(rest); }
      rest := ZettelFiles.DropSpace(rest);
      var n := Ids.ParseN(AlnumRun(rest));
      rest := NextLine(DropAlnum(rest));
      if n.None? { return false, rest; }
      if z.value in toNew { return toNew[z.value] == n.value, rest; }
      toNew := toNew[z.value := n.value];
      toOld := toOld[n.value := z.value];
      if n.value + 1 > nextZidN { nextZidN := n.value + 1; }
      ok := true;
    }

    method AsBytes() returns (text: string)
      ensures text == AsText(toNew)
    {
      var zids := Sorted(toNew.Keys);
      text := "";
      assert zids[0..] == zids && "" + Lines(toNew, zids) == Lines(toNew, zids);
      for i := 0 to |zids|
        invariant text + (if i == 0 || i == |zids| then "" else "\n") + Lines(toNew, zids[i..]) == Lines(toNew, zids)
      {
        assert zids[i..][1..] == zids[i + 1..];
        var line := MappingLine(zids[i], toNew[zids[i]]);
        LineAppended(text, i == 0, line, toNew, zids, i);
        if i > 0 { text := text + "\n"; }
        text := text + line;
      }
      assert zids[|zids|..] == [] && text + "" + "" == text;
    }
  }

  lemma LineAppended(text: string, first: bool, line: string, toNew: map<Zid, ZidN>, zids: seq<Zid>, i: nat)
    requires i < |zids| && (forall z :: z in zids ==> z in toNew) && line == MappingLine(zids[i], toNew[zids[i]])
    ensures var before := if first then text else text + "\n";
            before + Lines(toNew, zids[i..]) ==
            before + line + (if i + 1 == |zids| then "" else "\n") + Lines(toNew, zids[i + 1..])
  {
    assert zids[i..][1..] == zids[i + 1..] && zids[i..][0] == zids[i];
    var before := if first then text else text + "\n";
    if i + 1 == |zids| {
      assert before + (line + "") == before + line + "" + "";
    } else {
      var rest := Lines(toNew, zids[i + 1..]);
      assert before + (line + ("\n" + rest)) == before + line + "\n" + rest;
    }
  }

  lemma SameSize(a: set<Zid>, b: set<Zid>)
    requires b <= a && |a| == |b|
    ensures a == b
  {
    assert |a - b| == |a| - |b|;
    assert a - b == {};
  }

  lemma AllKept(m: Mapping, zids: set<Zid>)
    requires m.toNew.Keys == zids
    ensures Kept(m, zids) == m
  {
    assert Dropped(m, zids) == {};
  }

  lemma RemoveOne(m: Mapping, zids: set<Zid>, todo: set<Zid>, z: Zid)
    requires z in todo && z !in zids && z in m.toNew
    ensures Kept(m, zids + (todo - {z})).toNew == Kept(m, zids + todo).toNew - {z}
    ensures Kept(m, zids + (todo - {z})).toOld == Kept(m, zids + todo).toOld - {m.toNew[z]}
  {
    assert Dropped(m, zids + (todo - {z})) == Dropped(m, zids + todo) + {m.toNew[z]};
  }
}
