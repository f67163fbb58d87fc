/**
 The context of a zettel: a best-first search over metadata references, bounded by a cost and by
 a count. Costs are reals; `log2` is the logarithm the original takes from its math library.
 */
module ContextSearch {
  import opened Zids
  import opened Text
  import opened BestFirstSearch
  import opened CheapestWays
  import Ids
  import MetaKeys = Metas

  // ---------- Metadata keys, as far as the search looks at them ----------

  predicate HasInverse(key: string) {
    key in ["precursor", "predecessor", "superior"]
  }

  function ContextCost(key: string): (c: real)
    ensures c >= 1.0
  {
    if key in ["folge", "precursor"] then 1.0
    else if key in ["subordinates", "superior"] then 1.5
    else if key in ["successors", "predecessor"] then 7.0
    else 2.0
  }

  // ---------- The references metadata contains ----------

  /** The surroundings of one search: what the box delivers, and how references are weighed. */
  datatype World = World(port: map<Zid, Meta>, starts: seq<Meta>, back: bool, forth: bool, full: bool,
                         select: string -> seq<Meta>, rules: MetaKeys.Rules, log2: real -> real) {
    /** What the interface promises: metadata of the zettel asked for, the same however it is asked for; a logarithm. */
    ghost predicate Valid() {
      && PortOk()
      && (forall i, j :: 0 <= i < |starts| && 0 <= j < |starts| && starts[i].zid == starts[j].zid
            ==> starts[i] == starts[j])
      && (forall t, m :: m in select(t) ==> m.zid in port && port[m.zid] == m)
      && (forall x :: x >= 1.0 ==> log2(x) >= 0.0)
      && forall x :: x >= 2.0 ==> log2(x) >= 1.0
    }

    ghost predicate PortOk() {
      forall z :: z in port ==> port[z].zid == z
    }

    function SetCost(n: nat): (c: real) {
      n as real * log2(n as real + 1.0)
    }

    function IdArcs(value: string, extra: real): (r: seq<Arc>) {
      match Ids.Parse(value)
      case Some(z) => [Arc(z, extra, 1.0)]
      case None => []
    }

    function ListArcs(values: seq<string>, extra: real): (r: seq<Arc>) {
      if values == [] then [] else IdArcs(values[0], extra) + ListArcs(values[1..], extra)
    }

    function SetArcs(value: string, extra: real): (r: seq<Arc>) {
      ListArcs(Fields(value), SetCost(|Fields(value)|) + extra)
    }

    /** The references one key-value pair contributes. */
    function PairArcs(p: Pair): (r: seq<Arc>) {
      var extra := ContextCost(p.key);
      if p.key == "back" then []
      else if p.key == "backward" then (if back then SetArcs(p.value, extra) else [])
      else if p.key == "forward" then (if forth then SetArcs(p.value, extra) else [])
      else if (if HasInverse(p.key) then back else forth) then
        match MetaKeys.TypeOf(rules, p.key)
        case TypeID => IdArcs(p.value, extra)
        case TypeIDSet => SetArcs(p.value, extra)
        case _ => []
      else []
    }

    function PairsArcs(ps: seq<Pair>): (r: seq<Arc>) {
      if ps == [] then [] else PairsArcs(ps[..|ps| - 1]) + PairArcs(ps[|ps| - 1])
    }

    /** The zettel that have a tag. */
    function TagZids(tag: string): (r: set<Zid>) {
      set m | m in select(tag) :: m.zid
    }

    function TagsZids(tags: seq<string>): (r: set<Zid>) {
      if tags == [] then {} else TagsZids(tags[..|tags| - 1]) + TagZids(tags[|tags| - 1])
    }

    /** The rarest of the tags a zettel has decides what is added to the cost. */
    function TagExtra(tags: seq<string>, z: Zid): (c: Option<real>) {
      if tags == [] then None else
      var front, last := TagExtra(tags[..|tags| - 1], z), tags[|tags| - 1];
      var cost := SetCost(|TagZids(last)|);
      if z in TagZids(last) && (front.None? || cost < front.value) then Some(cost) else front
    }

    /** All tags but one lower the cost. */
    function TagFactor(tags: seq<string>, z: Zid): (f: real) {
      if tags == [] then 1.1 else
      var front := TagFactor(tags[..|tags| - 1], z);
      if z in TagZids(tags[|tags| - 1]) then front / 1.1 else front
    }

    function TagArc(tags: seq<string>, z: Zid): (a: Arc) {
      Arc(z, if TagExtra(tags, z).Some? then TagExtra(tags, z).value else 0.0, TagFactor(tags, z))
    }

    function TagArcs(tags: seq<string>, zids: seq<Zid>): (r: seq<Arc>) {
      if zids == [] then [] else [TagArc(tags, zids[0])] + TagArcs(tags, zids[1..])
    }

    /** References by metadata, and for full contexts those by common tags. */
    function Arcs(m: Meta): (r: seq<Arc>) {
      PairsArcs(m.pairs) + if full then TagArcs(m.tags, Sorted(TagsZids(m.tags))) else []
    }
  }

  /** The references as a weighed graph. */
  function NetOf(w: World): (n: Net) {
    Net(w.port, w.starts, (m: Meta) => w.Arcs(m))
  }

  // ---------- When costs grow ----------

  lemma {:induction false} ListArcsCost(w: World, values: seq<string>, extra: real)
    ensures forall a :: a in w.ListArcs(values, extra) ==> a.extra == extra && a.factor == 1.0
  {
    if values != [] { ListArcsCost(w, values[1..], extra); }
  }

  lemma SetCostNonNegative(w: World, n: nat)
    requires w.Valid()
    ensures w.SetCost(n) >= 0.0
  {
    assert w.log2(n as real + 1.0) >= 0.0;
  }

  lemma SetCostPositive(w: World, n: nat)
    requires w.Valid() && n > 0
    ensures w.SetCost(n) >= 1.0
  {
    var l := w.log2(n as real + 1.0);
    assert l >= 1.0;
    assert n as real * l >= 1.0 * l;
  }

  lemma SetArcsCost(w: World, value: string, extra: real)
    requires w.Valid() && extra >= 1.0
    ensures forall a :: a in w.SetArcs(value, extra) ==> a.extra >= 1.0 && a.factor == 1.0
  {
    var n := |Fields(value)|;
    SetCostNonNegative(w, n);
    ListArcsCost(w, Fields(value), w.SetCost(n) + extra);
  }

  lemma PairArcsCost(w: World, p: Pair)
    requires w.Valid()
    ensures forall a :: a in w.PairArcs(p) ==> a.extra >= 1.0 && a.factor == 1.0
  {
    SetArcsCost(w, p.value, ContextCost(p.key));
  }

  lemma {:induction false} PairsArcsCost(w: World, ps: seq<Pair>)
    requires w.Valid()
    ensures forall a :: a in w.PairsArcs(ps) ==> a.extra >= 1.0 && a.factor == 1.0
  {
    if ps != [] {
      PairsArcsCost(w, ps[..|ps| - 1]);
      PairArcsCost(w, ps[|ps| - 1]);
    }
  }

  /** How many of the tags a zettel has. */
  function Shared(w: World, tags: seq<string>, z: Zid): (n: nat) {
    if tags == [] then 0 else Shared(w, tags[..|tags| - 1], z) + if z in w.TagZids(tags[|tags| - 1]) then 1 else 0
  }

  lemma {:induction false} SharedTags(w: World, tags: seq<string>, z: Zid)
    requires w.Valid()
    ensures z in w.TagsZids(tags) <==> Shared(w, tags, z) > 0
    ensures w.TagExtra(tags, z).Some? <==> Shared(w, tags, z) > 0
    ensures Shared(w, tags, z) > 0 ==> w.TagExtra(tags, z).value >= 1.0
    ensures if Shared(w, tags, z) == 0 then w.TagFactor(tags, z) == 1.1
            else if Shared(w, tags, z) == 1 then w.TagFactor(tags, z) == 1.0 else 0.0 < w.TagFactor(tags, z) < 1.0
  {
    if tags != [] {
      var last := tags[|tags| - 1];
      SharedTags(w, tags[..|tags| - 1], z);
      if z in w.TagZids(last) {
        assert |w.TagZids(last)| > 0;
        SetCostPositive(w, |w.TagZids(last)|);
      }
    }
  }

  lemma {:induction false} TagArcsHas(w: World, tags: seq<string>, zids: seq<Zid>, a: Arc)
    ensures a in w.TagArcs(tags, zids) <==> exists z :: z in zids && a == w.TagArc(tags, z)
  {
    if zids != [] {
      TagArcsHas(w, tags, zids[1..], a);
      assert forall z :: z in zids <==> z == zids[0] || z in zids[1..];
    }
  }

  /** On no way, a reference by two common tags or more makes a zettel cheaper than it can be had without a fall. */
  ghost predicate TagsFine(w: World, maxCost: real, first: Meta) {
    forall r: Route {:trigger TagFine(w, maxCost, first, r)} ::
      r.Valid(NetOf(w), maxCost, first) ==> TagFine(w, maxCost, first, r)
  }

  ghost predicate TagFine(w: World, maxCost: real, first: Meta, r: Route) {
    r.Via? && r.arc == w.TagArc(r.prev.End().tags, r.meta.zid) && Shared(w, r.prev.End().tags, r.meta.zid) > 1 ==>
      Bettered(NetOf(w), maxCost, first, r) && ClearEnd(NetOf(w), first, r)
  }

  /** No zettel is reached cheaper by way of a costlier one iff the context is not full, or no common tags do that. */
  lemma RisesIff(w: World, maxCost: real, first: Meta)
    requires w.Valid() && maxCost >= 1.0
    ensures Rises(NetOf(w), maxCost, first) && Sane(NetOf(w), maxCost, first) <==>
            (w.full ==> TagsFine(w, maxCost, first))
  {
    NetPositive(w);
    if Rises(NetOf(w), maxCost, first) && Sane(NetOf(w), maxCost, first) {
      forall r: Route | r.Valid(NetOf(w), maxCost, first) ensures TagFine(w, maxCost, first, r) {
        assert Bettered(NetOf(w), maxCost, first, r);
      }
    }
    if w.full ==> TagsFine(w, maxCost, first) {
      forall r: Route | r.Valid(NetOf(w), maxCost, first) ensures LastFine(NetOf(w), maxCost, first, r) {
        StepFine(w, maxCost, first, r);
      }
      FineRises(NetOf(w), maxCost, first);
    }
  }

  lemma StepFine(w: World, maxCost: real, first: Meta, r: Route)
    requires w.Valid() && r.Valid(NetOf(w), maxCost, first) && (w.full ==> TagFine(w, maxCost, first, r))
    ensures LastFine(NetOf(w), maxCost, first, r)
  {
    if r.Via? { ArcIs(w, r.prev.End(), r.arc); }
  }

  lemma NetPositive(w: World)
    requires w.Valid()
    ensures Positive(NetOf(w))
  {
    forall m, a | NetOf(w).IsMetaOf(m) && a in NetOf(w).arcs(m) ensures a.factor > 0.0 {
      ArcIs(w, m, a);
      SharedTags(w, m.tags, a.target);
    }
  }

  /** A condition on the tags alone: at the bound, no reference by two common tags or more lowers the cost. */
  ghost predicate TagsKeepBound(w: World, maxCost: real) {
    forall m: Meta, z: Zid :: NetOf(w).IsMetaOf(m) && z != m.zid && Shared(w, m.tags, z) > 1
                              ==> KeepsBound(NetOf(w), maxCost, w.TagArc(m.tags, z))
  }

  lemma ArcKeepsBound(w: World, maxCost: real, m: Meta, a: Arc)
    requires w.Valid() && maxCost >= 1.0 && a in w.Arcs(m)
    requires w.full && Shared(w, m.tags, a.target) > 1 ==> KeepsBound(NetOf(w), maxCost, w.TagArc(m.tags, a.target))
    ensures a.factor <= 1.0 && KeepsBound(NetOf(w), maxCost, a)
  {
    ArcIs(w, m, a);
    SharedTags(w, m.tags, a.target);
  }

  lemma NetKeepsBound(w: World, maxCost: real)
    requires w.Valid() && maxCost >= 1.0 && (w.full ==> TagsKeepBound(w, maxCost))
    ensures AllKeepBound(NetOf(w), maxCost)
  {
    forall m, a | NetOf(w).IsMetaOf(m) && a in NetOf(w).arcs(m) && a.target in w.port && a.target != m.zid
      ensures a.factor <= 1.0 && KeepsBound(NetOf(w), maxCost, a)
    {
      if w.full && Shared(w, m.tags, a.target) > 1 {
        assert KeepsBound(NetOf(w), maxCost, w.TagArc(m.tags, a.target));
      }
      ArcKeepsBound(w, maxCost, m, a);
    }
  }

  /** One price for every two zettel with more common tags is enough to be looked at. */
  lemma BoundSuffices(w: World, maxCost: real, first: Meta)
    requires w.Valid() && maxCost >= 1.0 && (w.full ==> TagsKeepBound(w, maxCost))
    ensures Rises(NetOf(w), maxCost, first) && Sane(NetOf(w), maxCost, first)
  {
    NetPositive(w);
    NetKeepsBound(w, maxCost);
    BoundRises(NetOf(w), maxCost, first);
  }

  /** Without tags, references just add to the cost. */
  lemma PlainNet(w: World)
    requires w.Valid() && !w.full
    ensures Plain(NetOf(w))
  {
    forall m, a | NetOf(w).IsMetaOf(m) && a in NetOf(w).arcs(m) ensures a.extra >= 1.0 && a.factor == 1.0 {
      ArcIs(w, m, a);
    }
  }

  /** Then no way of any kind is cheaper than those that the promise speaks of. */
  lemma NoCheaperWay(w: World, maxCost: real, first: Meta, r: Route)
    requires w.Valid() && maxCost >= 1.0 && r.Along(NetOf(w)) && (w.full ==> TagsKeepBound(w, maxCost) && r.Leaves())
    ensures r.Cost() > maxCost || exists v: Route ::
              v.Valid(NetOf(w), maxCost, first) && v.Rising() && v.End() == r.End() && v.Cost() <= r.Cost()
  {
    NetPositive(w);
    if w.full {
      NetKeepsBound(w, maxCost);
      BoundUpward(NetOf(w), maxCost, r);
    } else {
      PlainNet(w);
      PlainUpward(NetOf(w), maxCost, r);
    }
    AllWays(NetOf(w), maxCost, first, r);
  }

  lemma TagArcThere(w: World, m: Meta, z: Zid)
    requires w.Valid() && w.full && Shared(w, m.tags, z) > 0
    ensures w.TagArc(m.tags, z) in w.Arcs(m)
  {
    SharedTags(w, m.tags, z);
    TagArcsHas(w, m.tags, Sorted(w.TagsZids(m.tags)), w.TagArc(m.tags, z));
  }

  /** A reference just adds to the cost, or goes to a zettel with more common tags. */
  lemma ArcIs(w: World, m: Meta, a: Arc)
    requires w.Valid() && a in w.Arcs(m)
    ensures (a.extra >= 1.0 && a.factor == 1.0)
            || (w.full && Shared(w, m.tags, a.target) > 1 && a == w.TagArc(m.tags, a.target))
  {
    PairsArcsCost(w, m.pairs);
    if a !in w.PairsArcs(m.pairs) {
      TagArcsHas(w, m.tags, Sorted(w.TagsZids(m.tags)), a);
      var z :| z in Sorted(w.TagsZids(m.tags)) && a == w.TagArc(m.tags, z);
      SharedTags(w, m.tags, z);
    }
  }

  // ---------- When costs fall ----------

  function Discount(n: nat): (f: real) {
    if n == 0 then 1.1 else Discount(n - 1) / 1.1
  }

  /** Tags that are equally rare add the same, and each one but the first takes a share off the sum. */
  lemma {:induction false} EqualTags(w: World, tags: seq<string>, z: Zid, cost: real)
    requires forall t :: t in tags ==> w.SetCost(|w.TagZids(t)|) == cost
    ensures w.TagExtra(tags, z) == if Shared(w, tags, z) > 0 then Some(cost) else None
    ensures w.TagFactor(tags, z) == Discount(Shared(w, tags, z))
  {
    if tags != [] {
      var front, last := tags[..|tags| - 1], tags[|tags| - 1];
      EqualTags(w, front, z, cost);
      assert last in tags;
    }
  }

  lemma {:induction false} SharedAll(w: World, tags: seq<string>, z: Zid)
    requires forall t :: t in tags ==> z in w.TagZids(t)
    ensures Shared(w, tags, z) == |tags|
  {
    if tags != [] {
      SharedAll(w, tags[..|tags| - 1], z);
      assert tags[|tags| - 1] in tags;
    }
  }

  lemma SevenShared(k: nat)
    ensures k == 1 ==> Discount(k) == 1.0
    ensures k == 7 ==> Discount(k) < 0.565
  {
    assert Discount(3) * 1.21 == 1.0;
    assert Discount(5) * 1.21 == Discount(3);
    assert Discount(7) * 1.21 == Discount(5);
  }

  /** The start zettel shares a tag with a second one only, and this one shares other tags with a third one only. */
  ghost predicate Chained(w: World, s: Meta, t: Meta, u: Meta, tag: string, common: seq<string>) {
    && w.Valid() && w.full && w.starts == [s] && s.zid != t.zid && s.zid != u.zid && t.zid != u.zid
    && t.zid in w.port && w.port[t.zid] == t && u.zid in w.port
    && s.pairs == [] && s.tags == [tag] && t.tags == common + [tag]
    && w.TagZids(tag) == {s.zid, t.zid} && forall x :: x in common ==> w.TagZids(x) == {t.zid, u.zid}
  }

  /** What a zettel that has some of the tags costs. */
  lemma SharedArc(w: World, m: Meta, z: Zid, cost: real)
    requires w.Valid() && w.full && Shared(w, m.tags, z) > 0
    requires forall t :: t in m.tags ==> w.SetCost(|w.TagZids(t)|) == cost
    ensures Arc(z, cost, Discount(Shared(w, m.tags, z))) in w.Arcs(m)
  {
    EqualTags(w, m.tags, z, cost);
    TagArcThere(w, m, z);
  }

  /** Without pairs, there are no other references. */
  lemma SharedArcOnly(w: World, m: Meta, cost: real, a: Arc)
    requires w.Valid() && w.full && m.pairs == [] && a in w.Arcs(m)
    requires forall t :: t in m.tags ==> w.SetCost(|w.TagZids(t)|) == cost
    ensures Shared(w, m.tags, a.target) > 0 && a == Arc(a.target, cost, Discount(Shared(w, m.tags, a.target)))
  {
    TagArcsHas(w, m.tags, Sorted(w.TagsZids(m.tags)), a);
    EqualTags(w, m.tags, a.target, cost);
    SharedTags(w, m.tags, a.target);
  }

  lemma SharedSnoc(w: World, common: seq<string>, tag: string, z: Zid)
    requires forall t :: t in common ==> z in w.TagZids(t)
    ensures Shared(w, common + [tag], z) == |common| + if z in w.TagZids(tag) then 1 else 0
  {
    SharedAll(w, common, z);
    assert (common + [tag])[..|common|] == common;
  }

  lemma PairCost(w: World, y: Zid, z: Zid)
    requires y != z
    ensures w.SetCost(|{y, z}|) == 2.0 * w.log2(3.0)
  {}

  lemma ChainedFirst(w: World, s: Meta, t: Meta, u: Meta, tag: string, common: seq<string>, extra: real)
    requires Chained(w, s, t, u, tag, common) && extra == 2.0 * w.log2(3.0)
    ensures Arc(t.zid, extra, 1.0) in w.Arcs(s)
    ensures forall a :: a in w.Arcs(s) && a.target != s.zid ==> a == Arc(t.zid, extra, 1.0)
  {
    PairCost(w, s.zid, t.zid);
    forall z ensures Shared(w, s.tags, z) == if z in w.TagZids(tag) then 1 else 0 {
      assert [] + [tag] == s.tags;
      SharedSnoc(w, [], tag, z);
    }
    SevenShared(1);
    SharedArc(w, s, t.zid, extra);
    forall a | a in w.Arcs(s) && a.target != s.zid ensures a == Arc(t.zid, extra, 1.0) {
      SharedArcOnly(w, s, extra, a);
    }
  }

  lemma ChainedSecond(w: World, s: Meta, t: Meta, u: Meta, tag: string, common: seq<string>, extra: real)
    requires Chained(w, s, t, u, tag, common) && common != [] && extra == 2.0 * w.log2(3.0)
    ensures Arc(u.zid, extra, Discount(|common|)) in w.Arcs(t)
  {
    PairCost(w, s.zid, t.zid);
    PairCost(w, t.zid, u.zid);
    SharedSnoc(w, common, tag, u.zid);
    assert Shared(w, t.tags, u.zid) == |common|;
    forall x | x in t.tags ensures w.SetCost(|w.TagZids(x)|) == extra {
      assert x in common || x == tag;
    }
    SharedArc(w, t, u.zid, extra);
  }

  lemma Discounted(sum: real, factor: real, cost: real)
    requires sum == 2.0 * cost - 1.0 && 3.0 <= cost <= 4.2 && factor < 0.565
    ensures sum * factor < cost
  {
    assert sum * factor <= sum * 0.565;
  }

  lemma ChainedPrices(l: real, a: Arc, b: Arc)
    requires 1.0 <= l <= 1.6 && a.extra == b.extra == 2.0 * l && a.factor == 1.0 && b.factor < 0.565
    ensures b.Price(a.Price(1.0)) < a.Price(1.0) <= 17.0
  {
    PlainPrice(a, 1.0);
    Discounted(a.Price(1.0) + 2.0 * l, b.factor, a.Price(1.0));
  }

  /**
   In a full context results need not come in the order of their costs: with seven common tags, the third
   zettel of such a chain comes after the second one, but costs less.
   */
  lemma FullDescends(w: World, s: Meta, t: Meta, u: Meta, tag: string, common: seq<string>, rs: seq<Item>)
    requires Chained(w, s, t, u, tag, common) && |common| == 7 && w.log2(3.0) <= 1.6
    requires Greedy(NetOf(w), 17.0, 200, rs)
    ensures |rs| > 2 && rs[2].cost < rs[1].cost
  {
    var extra, factor := 2.0 * w.log2(3.0), Discount(|common|);
    var a, b := Arc(t.zid, extra, 1.0), Arc(u.zid, extra, factor);
    SevenShared(|common|);
    ChainedFirst(w, s, t, u, tag, common, extra);
    ChainedSecond(w, s, t, u, tag, common, extra);
    ChainedPrices(w.log2(3.0), a, b);
    ChainedNet(w, s, t, u, tag, common, a, b);
    DescendsBy(NetOf(w), 17.0, 200, s, a, b, rs);
  }

  lemma ChainedNet(w: World, s: Meta, t: Meta, u: Meta, tag: string, common: seq<string>, a: Arc, b: Arc)
    requires Chained(w, s, t, u, tag, common) && a in w.Arcs(s) && b in w.Arcs(t) && a.target == t.zid
             && b.target == u.zid
    requires forall x :: x in w.Arcs(s) && x.target != s.zid ==> x == a
    ensures var n := NetOf(w);
      && n.Valid() && n.starts == [s] && n.port == w.port && a in n.arcs(s) && b in n.arcs(n.port[t.zid])
      && forall x :: x in n.arcs(s) && x.target != s.zid ==> x == a
  {}

  /** There are such zettel, for any tags. */
  lemma ChainExists(tag: string, common: seq<string>, rules: MetaKeys.Rules, log2: real -> real)
    returns (w: World, s: Meta, t: Meta, u: Meta)
    requires tag !in common && (forall x :: x >= 1.0 ==> log2(x) >= 0.0) && forall x :: x >= 2.0 ==> log2(x) >= 1.0
    ensures Chained(w, s, t, u, tag, common) && w.log2 == log2
  {
    s, t, u := Meta(1, [], [tag]), Meta(2, [], common + [tag]), Meta(3, [], common);
    w := World(map[1 := s, 2 := t, 3 := u], [s], true, true, true,
               (x: string) => if x == tag then [s, t] else if x in common then [t, u] else [], rules, log2);
    assert w.select(tag) == [s, t] && s in w.select(tag) && t in w.select(tag);
    forall x | x in common ensures w.TagZids(x) == {2, 3} {
      assert t in w.select(x) && u in w.select(x);
    }
  }

  // ---------- Which references are followed, and what they cost ----------

  predicate IsIdKey(rules: MetaKeys.Rules, key: string) {
    MetaKeys.TypeOf(rules, key).TypeID? || MetaKeys.TypeOf(rules, key).TypeIDSet?
  }

  predicate ForwardKey(rules: MetaKeys.Rules, key: string) {
    key == "forward" || (IsIdKey(rules, key) && key !in {"back", "backward"} && !BackwardKey(rules, key))
  }

  predicate BackwardKey(rules: MetaKeys.Rules, key: string) {
    key == "backward" || (IsIdKey(rules, key) && key in {"precursor", "predecessor", "superior"})
  }

  predicate IsListKey(rules: MetaKeys.Rules, key: string) {
    key in {"forward", "backward"} || MetaKeys.TypeOf(rules, key).TypeIDSet?
  }

  /** The identifier is the value, or one of the elements of a value that is a list. */
  ghost predicate Names(list: bool, value: string, z: Zid) {
    if list then exists v :: v in Fields(value) && Ids.Parse(v) == Some(z) else Ids.Parse(value) == Some(z)
  }

  predicate Weighs(key: string, c: real) {
    if key == "folge" || key == "precursor" then c == 1.0
    else if key == "subordinates" || key == "superior" then c == 1.5
    else if key == "successors" || key == "predecessor" then c == 7.0
    else c == 2.0
  }

  /** A key has its weight; a list adds to it. */
  ghost predicate LeadsBy(p: Pair, list: bool, sum: real, a: Arc) {
    Names(list, p.value, a.target) && a.factor == 1.0 && Weighs(p.key, if list then a.extra - sum else a.extra)
  }

  ghost predicate Leads(w: World, p: Pair, a: Arc) {
    LeadsBy(p, IsListKey(w.rules, p.key), w.SetCost(|Fields(p.value)|), a)
  }

  ghost predicate HasTag(select: string -> seq<Meta>, t: string, z: Zid) {
    exists m :: m in select(t) && m.zid == z
  }

  /** `n` zettel with a tag cost `n * log2(n + 1)`; the rarest common tag counts, and each further one a share. */
  ghost predicate TagsPrice(w: World, tags: seq<string>, a: Arc) {
    && (exists t :: t in tags && HasTag(w.select, t, a.target) && a.extra == w.SetCost(|w.TagZids(t)|))
    && (forall t :: t in tags && HasTag(w.select, t, a.target) ==> a.extra <= w.SetCost(|w.TagZids(t)|))
    && a.factor == Discount(Shared(w, tags, a.target))
  }

  lemma {:induction false} ListArcsHas(w: World, values: seq<string>, extra: real, a: Arc)
    ensures a in w.ListArcs(values, extra) <==>
            a.extra == extra && a.factor == 1.0 && exists v :: v in values && Ids.Parse(v) == Some(a.target)
  {
    if values != [] {
      ListArcsHas(w, values[1..], extra, a);
      assert forall v :: v in values <==> v == values[0] || v in values[1..];
    }
  }

  predicate Follows(w: World, key: string) {
    (w.forth && ForwardKey(w.rules, key)) || (w.back && BackwardKey(w.rules, key))
  }

  lemma WeighsOne(key: string, c: real)
    ensures Weighs(key, c) <==> c == ContextCost(key)
  {}

  /** Which of the two directions follows a key, decided as the code does. */
  predicate FollowsKey(w: World, key: string) {
    if key == "back" then false
    else if key == "backward" then w.back
    else if key == "forward" then w.forth
    else IsIdKey(w.rules, key) && if HasInverse(key) then w.back else w.forth
  }

  lemma FollowsIff(w: World, key: string)
    ensures Follows(w, key) <==> FollowsKey(w, key)
  {
    assert HasInverse(key) <==> key in {"precursor", "predecessor", "superior"};
    assert "back" != "backward" && "back" != "forward" && "backward" != "forward";
  }

  lemma ArcsIff(w: World, p: Pair)
    ensures w.PairArcs(p) == if !FollowsKey(w, p.key) then []
            else if IsListKey(w.rules, p.key) then w.SetArcs(p.value, ContextCost(p.key))
            else w.IdArcs(p.value, ContextCost(p.key))
  {
    var key := p.key;
    assert "back" != "backward" && "back" != "forward" && "backward" != "forward";
    if key == "backward" || key == "forward" {
      assert IsListKey(w.rules, key);
    } else {
      assert key !in {"forward", "backward"};
    }
  }

  lemma ListExact(w: World, p: Pair, sum: real, a: Arc)
    ensures a in w.ListArcs(Fields(p.value), sum + ContextCost(p.key)) <==> LeadsBy(p, true, sum, a)
  {
    WeighsOne(p.key, a.extra - sum);
    ListArcsHas(w, Fields(p.value), sum + ContextCost(p.key), a);
  }

  lemma IdExact(w: World, p: Pair, sum: real, a: Arc)
    ensures a in w.IdArcs(p.value, ContextCost(p.key)) <==> LeadsBy(p, false, sum, a)
  {
    WeighsOne(p.key, a.extra);
  }

  /** A pair is followed forwards or backwards by its key alone, and leads to just the zettel it names. */
  lemma PairExact(w: World, p: Pair, a: Arc)
    ensures a in w.PairArcs(p) <==> Follows(w, p.key) && Leads(w, p, a)
  {
    var sum := w.SetCost(|Fields(p.value)|);
    FollowsIff(w, p.key);
    ArcsIff(w, p);
    assert w.SetArcs(p.value, ContextCost(p.key)) == w.ListArcs(Fields(p.value), sum + ContextCost(p.key));
    ListExact(w, p, sum, a);
    IdExact(w, p, sum, a);
    ExactBy(w, p, w.PairArcs(p), Follows(w, p.key), IsListKey(w.rules, p.key), sum, a);
  }

  lemma ExactBy(w: World, p: Pair, arcs: seq<Arc>, follows: bool, list: bool, sum: real, a: Arc)
    requires arcs == if !follows then [] else if list then w.ListArcs(Fields(p.value), sum + ContextCost(p.key))
                     else w.IdArcs(p.value, ContextCost(p.key))
    requires a in w.ListArcs(Fields(p.value), sum + ContextCost(p.key)) <==> LeadsBy(p, true, sum, a)
    requires a in w.IdArcs(p.value, ContextCost(p.key)) <==> LeadsBy(p, false, sum, a)
    ensures a in arcs <==> follows && LeadsBy(p, list, sum, a)
  {}

  lemma {:induction false} PairsExact(w: World, ps: seq<Pair>, a: Arc)
    ensures a in w.PairsArcs(ps) <==> exists p :: p in ps && a in w.PairArcs(p)
  {
    if ps != [] {
      var front, last := ps[..|ps| - 1], ps[|ps| - 1];
      PairsExact(w, front, a);
      assert forall p :: p in ps <==> p in front || p == last;
    }
  }

  lemma {:induction false} TagExtraLeast(w: World, tags: seq<string>, z: Zid)
    ensures match w.TagExtra(tags, z)
            case None => forall t :: t in tags ==> z !in w.TagZids(t)
            case Some(c) =>
              && (exists t :: t in tags && z in w.TagZids(t) && c == w.SetCost(|w.TagZids(t)|))
              && forall t :: t in tags && z in w.TagZids(t) ==> c <= w.SetCost(|w.TagZids(t)|)
    ensures w.TagFactor(tags, z) == Discount(Shared(w, tags, z))
  {
    if tags != [] {
      var front, last := tags[..|tags| - 1], tags[|tags| - 1];
      TagExtraLeast(w, front, z);
      assert forall t :: t in tags <==> t in front || t == last;
    }
  }

  lemma TagArcExact(w: World, tags: seq<string>, a: Arc)
    requires w.Valid()
    ensures a in w.TagArcs(tags, Sorted(w.TagsZids(tags))) <==> TagsPrice(w, tags, a)
  {
    var z := a.target;
    TagArcsHas(w, tags, Sorted(w.TagsZids(tags)), a);
    SharedTags(w, tags, z);
    TagExtraLeast(w, tags, z);
    forall t ensures z in w.TagZids(t) <==> HasTag(w.select, t, z) {}
    assert a in w.TagArcs(tags, Sorted(w.TagsZids(tags))) <==> z in w.TagsZids(tags) && a == w.TagArc(tags, z);
  }

  /**
   A search follows just these references: those of the keys of its directions to the zettel they name, and in a
   full context those to the zettel with a common tag; and this is what they cost.
   */
  lemma ArcsExact(w: World, m: Meta, a: Arc)
    requires w.Valid()
    ensures a in w.Arcs(m) <==>
            || (exists p :: p in m.pairs && Follows(w, p.key) && Leads(w, p, a))
            || (w.full && TagsPrice(w, m.tags, a))
  {
    PairsExact(w, m.pairs, a);
    forall p { PairExact(w, p, a); }
    TagArcExact(w, m.tags, a);
  }

  // ---------- The search ----------

  lemma {:induction false} CheapestExists(q: multiset<Item>)
    requires q != multiset{}
    ensures exists it :: it in q && forall x :: x in q ==> it.cost <= x.cost
    decreases |q|
  {
    var it :| it in q;
    var rest := q - multiset{it};
    assert forall x :: x in q ==> x == it || x in rest;
    if rest != multiset{} {
      CheapestExists(rest);
      var least :| least in rest && forall x :: x in rest ==> least.cost <= x.cost;
      var m := if it.cost <= least.cost then it else least;
      assert m in q && forall x :: x in q ==> m.cost <= x.cost;
    } else {
      assert it in q && forall x :: x in q ==> it.cost <= x.cost;
    }
  }

  /** The bookkeeping of one search. The queue is a heap: a bag that yields some cheapest item. */
  class ContextTask {
    const w: World
    const maxCost: real
    const limit: int
    var seen: set<Zid>
    var queue: multiset<Item>
    var tagMetas: map<string, seq<Meta>>
    /** Just the identifiers of `tagMetas`. */
    var tagZids: map<string, set<Zid>>
    /** The metadata of all zettel that were found by tags. */
    var metaZid: map<Zid, Meta>

    constructor NewQueue(w: World, maxCost: real, limit: int)
      requires w.Valid() && maxCost >= 1.0 && limit > 0
      ensures this.w == w && this.maxCost == maxCost && this.limit == limit && Ready([])
    {
      this.w, this.maxCost, this.limit := w, maxCost, limit;
      seen, queue := {}, multiset{};
      tagMetas, tagZids, metaZid := map[], map[], map[];
      new;
      for i := 0 to |w.starts|
        invariant seen == {} && tagMetas == map[] && tagZids == map[] && metaZid == map[]
        invariant forall x :: x in queue <==> exists m :: m in w.starts[..i] && x == Item(1.0, m)
      {
        assert w.starts[..i + 1] == w.starts[..i] + [w.starts[i]];
        queue := queue + multiset{Item(1.0, w.starts[i])};
      }
      assert w.starts[..|w.starts|] == w.starts;
      StartQueued(NetOf(w), maxCost, queue);
    }

    predicate HasLimit()
      reads this`seen
    {
      limit > 0 && |seen| >= limit
    }

    ghost function CurrentGate(): (g: Gate)
      reads this`seen
    {
      Gate(NetOf(w), seen, HasLimit(), |seen| <= 1 || maxCost == 0.0, maxCost)
    }

    /** While the initial zettel is processed, the cost bound is not applied. */
    method AddMeta(m: Meta, newCost: real)
      modifies this`queue
      ensures queue == old(queue) +
        if !HasLimit() && (|seen| <= 1 || maxCost == 0.0 || newCost <= maxCost) && m.zid !in seen
        then multiset{Item(newCost, m)} else multiset{}
    {
      if !HasLimit() && (|seen| <= 1 || maxCost == 0.0 || newCost <= maxCost) {
        if m.zid !in seen {
          queue := queue + multiset{Item(newCost, m)};
        }
      }
    }

    method AddID(cost: real, extra: real, value: string)
      requires w.PortOk()
      modifies this`queue
      ensures queue == old(queue) + CurrentGate().Pushes(w.IdArcs(value, extra), cost)
    {
      match Ids.Parse(value)
      case None =>
      case Some(zid) =>
        ghost var g, a := CurrentGate(), Arc(zid, extra, 1.0);
        PushOne(g, a, cost);
        if zid in w.port {
          PlainPrice(a, cost);
          PushIs(g, a, cost, cost + extra);
          AddMeta(w.port[zid], cost + extra);
        }
    }

    method AddIDSet(cost: real, extra: real, value: string)
      requires w.PortOk()
      modifies this`queue
      ensures queue == old(queue) + CurrentGate().Pushes(w.SetArcs(value, extra), cost)
    {
      var elems := Fields(value);
      AddIDs(elems, cost, w.SetCost(|elems|) + extra);
    }

    method AddIDs(elems: seq<string>, cost: real, refCost: real)
      requires w.PortOk()
      modifies this`queue
      ensures queue == old(queue) + CurrentGate().Pushes(w.ListArcs(elems, refCost), cost)
    {
      ghost var g := CurrentGate();
      assert elems[0..] == elems && g.Pushes([], cost) == multiset{};
      for i := 0 to |elems|
        invariant g == CurrentGate()
        invariant queue + g.Pushes(w.ListArcs(elems[i..], refCost), cost)
               == old(queue) + g.Pushes(w.ListArcs(elems, refCost), cost)
      {
        ListPushes(w, g, elems, i, refCost, cost);
        AddID(cost, refCost, elems[i]);
      }
    }

    method AddPair(p: Pair, curCost: real, isBackward: bool, isForward: bool)
      requires w.Valid() && isBackward == w.back && isForward == w.forth
      modifies this`queue
      ensures queue == old(queue) + CurrentGate().Pushes(w.PairArcs(p), curCost)
    {
      if p.key == "back" { return; }
      var extra := ContextCost(p.key);
      if p.key == "backward" {
        if isBackward { AddIDSet(curCost, extra, p.value); }
        return;
      }
      if p.key == "forward" {
        if isForward { AddIDSet(curCost, extra, p.value); }
        return;
      }
      var hasInverse := HasInverse(p.key);
      if (!hasInverse || !isBackward) && (hasInverse || !isForward) { return; }
      match MetaKeys.TypeOf(w.rules, p.key)
      case TypeID => AddID(curCost, extra, p.value);
      case TypeIDSet => AddIDSet(curCost, extra, p.value);
      case _ =>
    }

    /** All references in the metadata of a delivered zettel. */
    method AddPairs(pairs: seq<Pair>, curCost: real, isBackward: bool, isForward: bool)
      requires w.Valid() && isBackward == w.back && isForward == w.forth
      modifies this`queue
      ensures queue == old(queue) + CurrentGate().Pushes(w.PairsArcs(pairs), curCost)
    {
      ghost var g := CurrentGate();
      for i := 0 to |pairs|
        invariant g == CurrentGate()
        invariant queue == old(queue) + g.Pushes(w.PairsArcs(pairs[..i]), curCost)
      {
        assert pairs[..i + 1][..i] == pairs[..i];
        g.PushesConcat(w.PairsArcs(pairs[..i]), w.PairArcs(pairs[i]), curCost);
        AddPair(pairs[i], curCost, isBackward, isForward);
      }
      assert pairs[..|pairs|] == pairs;
    }

    // ---------- Tags ----------

    /** What is remembered of tags is what the box selects for them. */
    ghost predicate TagsOk()
      reads this`tagMetas, this`tagZids, this`metaZid
    {
      && tagMetas.Keys == tagZids.Keys
      && (forall t :: t in tagZids ==> tagZids[t] == w.TagZids(t) && tagZids[t] <= metaZid.Keys)
      && forall z :: z in metaZid ==> z in w.port && metaZid[z] == w.port[z]
    }

    ghost predicate Known(tags: seq<string>)
      reads this`tagZids
    {
      forall t :: t in tags ==> t in tagZids && tagZids[t] == w.TagZids(t)
    }

    ghost predicate Found(tags: seq<string>, z: Zid)
      reads this`metaZid
    {
      && w.TagExtra(tags, z).Some?
      && z in metaZid && z in w.port && metaZid[z] == w.port[z] && w.port[z].zid == z
    }

    /** The zettel with a tag, selected only once. */
    method UpdateTagData(tag: string) returns (zids: set<Zid>)
      requires w.Valid() && TagsOk()
      modifies this`tagMetas, this`tagZids, this`metaZid
      ensures TagsOk() && zids == w.TagZids(tag) && zids <= metaZid.Keys && tagZids.Keys == old(tagZids.Keys) + {tag}
      ensures old(metaZid.Keys) <= metaZid.Keys
    {
      if tag in tagMetas { return tagZids[tag]; }
      var ml := w.select(tag);
      zids := {};
      for i := 0 to |ml|
        invariant zids == (set m | m in ml[..i] :: m.zid) && zids <= metaZid.Keys && old(metaZid.Keys) <= metaZid.Keys
        invariant forall z :: z in metaZid ==> z in w.port && metaZid[z] == w.port[z]
        invariant tagMetas == old(tagMetas) && tagZids == old(tagZids)
      {
        assert ml[..i + 1] == ml[..i] + [ml[i]] && ml[i] in ml;
        var zid := ml[i].zid;
        zids := zids + {zid};
        if zid !in metaZid { metaZid := metaZid[zid := ml[i]]; }
      }
      assert ml[..|ml|] == ml;
      tagMetas := tagMetas[tag := ml];
      tagZids := tagZids[tag := zids];
    }

    method SelectTags(tags: seq<string>) returns (zidSet: set<Zid>)
      requires w.Valid() && TagsOk()
      modifies this`tagMetas, this`tagZids, this`metaZid
      ensures TagsOk() && zidSet == w.TagsZids(tags) && zidSet <= metaZid.Keys && Known(tags)
    {
      zidSet := {};
      for i := 0 to |tags|
        invariant TagsOk() && zidSet == w.TagsZids(tags[..i]) && zidSet <= metaZid.Keys
        invariant forall t :: t in tags[..i] ==> t in tagZids
      {
        assert tags[..i + 1][..i] == tags[..i] && tags[..i + 1][i] == tags[i];
        var zs := UpdateTagData(tags[i]);
        zidSet := zidSet + zs;
      }
      assert tags[..|tags|] == tags;
    }

    /** The cost of a zettel that has some of the tags. */
    method TagPrice(tags: seq<string>, zid: Zid, baseCost: real) returns (minCost: Option<real>, costFactor: real)
      requires Known(tags)
      ensures minCost == (match w.TagExtra(tags, zid) case Some(extra) => Some(extra + baseCost) case None => None)
      ensures costFactor == w.TagFactor(tags, zid)
    {
      minCost, costFactor := None, 1.1;
      for i := 0 to |tags|
        invariant minCost == (match w.TagExtra(tags[..i], zid)
                              case Some(extra) => Some(extra + baseCost)
                              case None => None)
        invariant costFactor == w.TagFactor(tags[..i], zid)
      {
        assert tags[..i + 1][..i] == tags[..i] && tags[..i + 1][i] == tags[i];
        var zids := tagZids[tags[i]];
        if zid in zids {
          var cost := w.SetCost(|zids|) + baseCost;
          if minCost.None? || cost < minCost.value { minCost := Some(cost); }
          costFactor := costFactor / 1.1;
        }
      }
      assert tags[..|tags|] == tags;
    }

    /** Offers all zettel that have one of the tags. */
    method AddTags(tags: seq<string>, baseCost: real)
      requires w.Valid() && TagsOk()
      modifies this`queue, this`tagMetas, this`tagZids, this`metaZid
      ensures TagsOk()
      ensures queue == old(queue) + old(CurrentGate()).Pushes(w.TagArcs(tags, Sorted(w.TagsZids(tags))), baseCost)
    {
      ghost var g := CurrentGate();
      var zidSet := SelectTags(tags);
      assert g == CurrentGate();
      forall z | z in zidSet ensures Found(tags, z) { SharedTags(w, tags, z); }
      OfferTagged(tags, Sorted(zidSet), baseCost);
    }

    method OfferTagged(tags: seq<string>, zids: seq<Zid>, baseCost: real)
      requires Known(tags) && forall z :: z in zids ==> Found(tags, z)
      modifies this`queue
      ensures queue == old(queue) + CurrentGate().Pushes(w.TagArcs(tags, zids), baseCost)
    {
      ghost var g := CurrentGate();
      for i := 0 to |zids|
        invariant g == CurrentGate()
        invariant queue + g.Pushes(w.TagArcs(tags, zids[i..]), baseCost)
                  == old(queue) + g.Pushes(w.TagArcs(tags, zids), baseCost)
      {
        TagPushes(w, g, tags, zids, i, baseCost);
        OfferZettel(tags, zids[i], baseCost);
      }
    }

    method OfferZettel(tags: seq<string>, zid: Zid, baseCost: real)
      requires Known(tags) && Found(tags, zid)
      modifies this`queue
      ensures queue == old(queue) + CurrentGate().Push(w.TagArc(tags, zid), baseCost)
    {
      var minCost, costFactor := TagPrice(tags, zid, baseCost);
      var price := minCost.value * costFactor;
      TagArcPrice(w, tags, zid, baseCost, price);
      ghost var g := CurrentGate();
      PushIs(g, w.TagArc(tags, zid), baseCost, price);
      AddMeta(metaZid[zid], price);
    }

    /** What the heap yields: some cheapest item. */
    method Pop() returns (item: Item)
      requires |queue| > 0
      modifies this`queue
      ensures item in old(queue) && queue == old(queue) - multiset{item}
      ensures forall x :: x in old(queue) ==> item.cost <= x.cost
    {
      CheapestExists(queue);
      item :| item in queue && forall x :: x in queue ==> item.cost <= x.cost;
      queue := queue - multiset{item};
    }

    /** Delivers the cheapest item whose zettel was not delivered before. */
    method Next() returns (r: Option<Item>)
      modifies this`seen, this`queue
      ensures r.None? ==> seen == old(seen) && (HasLimit() || forall x :: x in old(queue) ==> x.meta.zid in seen)
      ensures r.Some? ==> !old(HasLimit()) && seen == old(seen) + {r.value.meta.zid} && |seen| == |old(seen)| + 1
      ensures r.Some? ==> Popped(old(seen), old(queue), r.value, queue)
    {
      if HasLimit() { return None; }
      while |queue| > 0
        invariant seen == old(seen) && queue <= old(queue)
        invariant forall x :: x in old(queue) && x !in queue ==> x.meta.zid in seen
        decreases |queue|
      {
        ghost var q := queue;
        var item := Pop();
        if item.meta.zid in seen { continue; }
        PoppedNow(seen, old(queue), q, item);
        seen := seen + {item.meta.zid};
        return Some(item);
      }
      return None;
    }

    ghost predicate Ready(rs: seq<Item>)
      reads this
    {
      && w.Valid() && maxCost >= 1.0 && limit > 0 && TagsOk()
      && seen == Seen(rs) && |seen| == |rs| && Searching(NetOf(w), maxCost, limit, rs, queue)
    }

    /** One turn of the search: deliver the next zettel, then offer all its references. */
    method Round(isBackward: bool, isForward: bool, isFull: bool, ghost rs: seq<Item>) returns (r: Option<Item>)
      requires Ready(rs) && isBackward == w.back && isForward == w.forth && isFull == w.full
      modifies this
      ensures r.None? ==> Greedy(NetOf(w), maxCost, limit, rs)
      ensures r.Some? ==> |rs| < limit && Ready(rs + [r.value])
    {
      ghost var q0 := queue;
      r := Next();
      if r.None? {
        FinishedSearch(NetOf(w), maxCost, limit, rs, q0);
        return;
      }
      SeenSnoc(rs, r.value);
      Offer(r.value, isBackward, isForward, isFull, rs, q0);
    }

    /** Offers all references of the zettel that was taken from the queue `q0`. */
    method Offer(item: Item, isBackward: bool, isForward: bool, isFull: bool, ghost rs: seq<Item>,
                 ghost q0: multiset<Item>)
      requires w.Valid() && maxCost >= 1.0 && limit > 0 && TagsOk() && isBackward == w.back && isForward == w.forth
               && isFull == w.full
      requires |rs| < limit && seen == Seen(rs + [item]) && |seen| == |rs| + 1
      requires Searching(NetOf(w), maxCost, limit, rs, q0) && Popped(Seen(rs), q0, item, queue)
      modifies this`queue, this`tagMetas, this`tagZids, this`metaZid
      ensures Ready(rs + [item])
    {
      ghost var q1 := queue;
      ghost var g := CurrentGate();
      AddReferences(item, isBackward, isForward, isFull);
      RoundDone(g, limit, rs, q0, item, q1, queue);
    }

    method AddReferences(item: Item, isBackward: bool, isForward: bool, isFull: bool)
      requires w.Valid() && TagsOk() && isBackward == w.back && isForward == w.forth && isFull == w.full
      modifies this`queue, this`tagMetas, this`tagZids, this`metaZid
      ensures TagsOk() && queue == old(queue) + old(CurrentGate()).Pushes(w.Arcs(item.meta), item.cost)
    {
      ghost var g := CurrentGate();
      ArcsPushes(w, g, item.meta, item.cost);
      AddPairs(item.meta.pairs, item.cost, isBackward, isForward);
      if isFull { AddTags(item.meta.tags, item.cost); }
    }

    /** The loop of the search: zettel are delivered until the limit or the end of the queue. */
    method Run(isBackward: bool, isForward: bool, isFull: bool) returns (result: seq<Meta>, ghost rs: seq<Item>)
      requires Ready([]) && isBackward == w.back && isForward == w.forth && isFull == w.full
      modifies this
      ensures result == Metas(rs) && Greedy(NetOf(w), maxCost, limit, rs)
    {
      result, rs := [], [];
      while true
        invariant result == Metas(rs) && Ready(rs)
        decreases limit - |rs|
      {
        var next := Round(isBackward, isForward, isFull, rs);
        if next.None? { return; }
        result := result + [next.value.meta];
        MetasSnoc(rs, next.value);
        rs := rs + [next.value];
      }
    }
  }

  lemma PushOne(g: Gate, a: Arc, cost: real)
    ensures g.Pushes([a], cost) == g.Push(a, cost)
  {
    assert [a][1..] == [] && g.Pushes([], cost) == multiset{};
  }

  lemma TagArcPrice(w: World, tags: seq<string>, z: Zid, base: real, price: real)
    requires w.TagExtra(tags, z).Some? && price == (w.TagExtra(tags, z).value + base) * w.TagFactor(tags, z)
    ensures price == w.TagArc(tags, z).Price(base)
  {}

  lemma PlainPrice(a: Arc, cost: real)
    requires a.factor == 1.0
    ensures a.Price(cost) == cost + a.extra
  {}

  lemma PushIs(g: Gate, a: Arc, cost: real, price: real)
    requires a.target in g.w.port && g.w.port[a.target].zid == a.target && price == a.Price(cost)
    ensures var m := g.w.port[a.target];
            g.Push(a, cost) == if !g.closed && (g.unbounded || price <= g.maxCost) && m.zid !in g.seen
                               then multiset{Item(price, m)} else multiset{}
  {}

  lemma ListPushes(w: World, g: Gate, elems: seq<string>, i: nat, extra: real, cost: real)
    requires i < |elems|
    ensures g.Pushes(w.ListArcs(elems[i..], extra), cost)
         == g.Pushes(w.IdArcs(elems[i], extra), cost) + g.Pushes(w.ListArcs(elems[i + 1..], extra), cost)
  {
    assert elems[i..][1..] == elems[i + 1..];
    g.PushesConcat(w.IdArcs(elems[i], extra), w.ListArcs(elems[i + 1..], extra), cost);
  }

  lemma ArcsPushes(w: World, g: Gate, m: Meta, cost: real)
    ensures g.Pushes(w.Arcs(m), cost) == g.Pushes(w.PairsArcs(m.pairs), cost)
         + if w.full then g.Pushes(w.TagArcs(m.tags, Sorted(w.TagsZids(m.tags))), cost) else multiset{}
  {
    var tags := if w.full then w.TagArcs(m.tags, Sorted(w.TagsZids(m.tags))) else [];
    g.PushesConcat(w.PairsArcs(m.pairs), tags, cost);
  }

  lemma TagPushes(w: World, g: Gate, tags: seq<string>, zids: seq<Zid>, i: nat, cost: real)
    requires i < |zids|
    ensures g.Pushes(w.TagArcs(tags, zids[i..]), cost)
         == g.Push(w.TagArc(tags, zids[i]), cost) + g.Pushes(w.TagArcs(tags, zids[i + 1..]), cost)
  {
    assert zids[i..][1..] == zids[i + 1..];
    var a, rest := w.TagArc(tags, zids[i]), w.TagArcs(tags, zids[i + 1..]);
    assert ([a] + rest)[1..] == rest;
  }

  datatype Direction = DirBoth | DirForward | DirBackward

  /**
   A zettel refers to another one by a key that the direction of the context lets follow, or, in a full context,
   by a common tag.
   */
  ghost predicate Refers(spec: ContextSpec, rules: MetaKeys.Rules, select: string -> seq<Meta>, m: Meta, z: Zid) {
    || (exists p :: p in m.pairs && Names(IsListKey(rules, p.key), p.value, z) && Along(spec.direction, rules, p.key))
    || (spec.full && exists t :: t in m.tags && HasTag(select, t, z))
  }

  predicate Along(direction: Direction, rules: MetaKeys.Rules, key: string) {
    match direction
    case DirForward => ForwardKey(rules, key)
    case DirBackward => BackwardKey(rules, key)
    case DirBoth => ForwardKey(rules, key) || BackwardKey(rules, key)
  }

  /** Every result but a start is referred to by an earlier one. */
  lemma {:induction false} ReachedBy(spec: ContextSpec, w: World, maxCost: real, rs: seq<Item>, i: nat)
    requires w.Valid() && Chosen(NetOf(w), maxCost, rs) && i < |rs| && rs[i].meta !in w.starts
    requires w == spec.WorldOf(w.starts, w.port, w.select, w.rules, w.log2)
    ensures |Metas(rs)| == |rs| && exists j {:trigger Metas(rs)[j]} ::
              0 <= j < i && Refers(spec, w.rules, w.select, Metas(rs)[j], rs[i].meta.zid)
  {
    var j, a := ReferredBy(NetOf(w), maxCost, rs, i);
    MetasAt(rs);
    ArcRefers(spec, w, rs[j].meta, a);
    assert Metas(rs)[j] == rs[j].meta;
  }

  lemma {:induction false} ReferredBy(n: Net, maxCost: real, rs: seq<Item>, i: nat) returns (j: nat, a: Arc)
    requires n.Valid() && Chosen(n, maxCost, rs) && i < |rs| && rs[i].meta !in n.starts
    ensures j < i && a in n.arcs(rs[j].meta) && a.target == rs[i].meta.zid
  {
    assert Cheapest(n, maxCost, rs[..0], rs[0]);
    j, a := OfferedBy(n, maxCost, rs, i);
  }

  lemma ArcRefers(spec: ContextSpec, w: World, m: Meta, a: Arc)
    requires w.Valid() && a in w.Arcs(m) && w == spec.WorldOf(w.starts, w.port, w.select, w.rules, w.log2)
    ensures Refers(spec, w.rules, w.select, m, a.target)
  {
    ArcsExact(w, m, a);
    forall key | Follows(w, key) ensures Along(spec.direction, w.rules, key) {}
  }

  datatype ContextSpec = ContextSpec(direction: Direction, maxCost: int, maxCount: int, full: bool) {
    function WorldOf(startSeq: seq<Meta>, port: map<Zid, Meta>, select: string -> seq<Meta>, rules: MetaKeys.Rules,
                     log2: real -> real): (w: World) {
      World(port, startSeq, direction != DirForward, direction != DirBackward, full, select, rules, log2)
    }

    /**
     The search: start zettel cost 1, a reference adds its weight, and the cheapest undelivered zettel comes
     next. This is a search for the cheapest ways iff no zettel is reached cheaper by way of a costlier one.
     */
    method Execute(startSeq: seq<Meta>, port: map<Zid, Meta>, select: string -> seq<Meta>, rules: MetaKeys.Rules,
                   log2: real -> real) returns (result: seq<Meta>)
      requires WorldOf(startSeq, port, select, rules, log2).Valid()
      ensures Delivers(NetOf(WorldOf(startSeq, port, select, rules, log2)),
                       if maxCost <= 0 then 17.0 else maxCost as real, if maxCount <= 0 then 200 else maxCount, result)
      ensures |result| <= if maxCount <= 0 then 200 else maxCount
      ensures forall i :: 0 <= i < |result| ==> result[i] in startSeq || exists j {:trigger result[j]} ::
                0 <= j < i && Refers(this, rules, select, result[j], result[i].zid)
    {
      var bound := if maxCost <= 0 then 17.0 else maxCost as real;
      var count := if maxCount <= 0 then 200 else maxCount;
      var isBackward := direction == DirBoth || direction == DirBackward;
      var isForward := direction == DirBoth || direction == DirForward;
      var w := World(port, startSeq, isBackward, isForward, full, select, rules, log2);
      var tasks := new ContextTask.NewQueue(w, bound, count);
      ghost var rs;
      result, rs := tasks.Run(isBackward, isForward, full);
      GreedyDelivers(NetOf(w), bound, count, rs);
      MetasAt(rs);
      forall i | 0 <= i < |result| && result[i] !in startSeq
        ensures exists j {:trigger result[j]} :: 0 <= j < i && Refers(this, rules, select, result[j], result[i].zid)
      {
        ReachedBy(this, w, bound, rs, i);
      }
    }
  }
}
