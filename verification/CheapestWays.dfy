/**
 What a greedy search finds: the cheapest ways to all zettel within a bound, exactly if no zettel is reached
 cheaper by way of a costlier one.
 */
module CheapestWays {
  import opened Zids
  import opened BestFirstSearch

  // ---------- Ways ----------

  /** A way from some start zettel along references. */
  datatype Route = At(start: Meta) | Via(prev: Route, arc: Arc, meta: Meta) {
    function End(): (m: Meta) {
      match this
      case At(m) => m
      case Via(_, _, m) => m
    }

    function Cost(): (c: real) {
      match this
      case At(_) => 1.0
      case Via(p, a, _) => a.Price(p.Cost())
    }

    function Zids(): (r: set<Zid>) {
      match this
      case At(m) => {m.zid}
      case Via(p, _, m) => p.Zids() + {m.zid}
    }

    /**
     A way a search may go if `first` is its first result: it meets no zettel twice, and only the references of
     `first` may go beyond the bound.
     */
    ghost predicate Valid(w: Net, maxCost: real, first: Meta) {
      match this
      case At(m) => m in w.starts
      case Via(p, a, m) =>
        && p.Valid(w, maxCost, first) && Step(w, p.End(), a, m) && m.zid !in p.Zids()
        && (Cost() <= maxCost || p == At(first))
    }

    /** The cost never falls. */
    predicate Rising() {
      match this
      case At(_) => true
      case Via(p, _, _) => p.Rising() && p.Cost() <= Cost()
    }

    /** A way of any kind. */
    ghost predicate Along(w: Net) {
      match this
      case At(m) => m in w.starts
      case Via(p, a, m) => p.Along(w) && Step(w, p.End(), a, m)
    }

    /** No step stays at its zettel. */
    predicate Leaves() {
      match this
      case At(_) => true
      case Via(p, a, _) => p.Leaves() && a.target != p.End().zid
    }

    ghost predicate AllUpward(w: Net, maxCost: real) {
      match this
      case At(_) => true
      case Via(p, a, _) => p.AllUpward(w, maxCost) && AlwaysUpward(w, maxCost, a)
    }
  }

  ghost predicate Step(w: Net, from: Meta, a: Arc, m: Meta) {
    a in w.arcs(from) && m.zid == a.target && a.target in w.port && w.IsMetaOf(m)
  }

  ghost predicate Reaches(w: Net, maxCost: real, first: Meta, r: Route, z: Zid) {
    r.Valid(w, maxCost, first) && r.End().zid == z
  }

  /** `q` leads to the same zettel, costs no more, and its cost never falls. */
  ghost predicate NoWorse(w: Net, maxCost: real, first: Meta, r: Route, q: Route) {
    Reaches(w, maxCost, first, q, r.End().zid) && q.Rising() && q.Cost() <= r.Cost()
  }

  /** No zettel is reached cheaper by way of a costlier one. */
  ghost predicate Rises(w: Net, maxCost: real, first: Meta) {
    forall r: Route {:trigger Bettered(w, maxCost, first, r)} ::
      r.Valid(w, maxCost, first) ==> Bettered(w, maxCost, first, r)
  }

  ghost predicate Bettered(w: Net, maxCost: real, first: Meta, r: Route) {
    exists q :: NoWorse(w, maxCost, first, r, q)
  }

  /** No reference offers a start zettel at exactly the cost it starts with, but with other metadata. */
  ghost predicate Clear(w: Net, maxCost: real, first: Meta) {
    forall r: Route :: r.Valid(w, maxCost, first) ==> ClearEnd(w, first, r)
  }

  ghost predicate ClearEnd(w: Net, first: Meta, r: Route) {
    var z := r.End().zid;
    r.Via? && w.IsStart(z) && z != first.zid && r.Cost() == 1.0 ==> z in w.port && w.port[z] in w.starts
  }

  ghost predicate Positive(w: Net) {
    forall m, a :: w.IsMetaOf(m) && a in w.arcs(m) ==> a.factor > 0.0
  }

  ghost predicate Sane(w: Net, maxCost: real, first: Meta) {
    w.Valid() && Positive(w) && Clear(w, maxCost, first)
  }

  ghost predicate CostsAscend(rs: seq<Item>) {
    forall i, j :: 0 <= i < j < |rs| ==> rs[i].cost <= rs[j].cost && rs[i].meta.zid != rs[j].meta.zid
  }

  /** Some way has this end and this cost. */
  ghost predicate Sound(w: Net, maxCost: real, first: Meta, e: Item) {
    exists r :: Reaches(w, maxCost, first, r, e.meta.zid) && r.Cost() == e.cost
  }

  /** A result has the least cost of all ways to it. */
  ghost predicate SettledItem(w: Net, maxCost: real, first: Meta, e: Item) {
    && w.IsMetaOf(e.meta) && Sound(w, maxCost, first, e)
    && forall r :: Reaches(w, maxCost, first, r, e.meta.zid) ==> e.cost <= r.Cost()
  }

  ghost predicate Settled(w: Net, maxCost: real, rs: seq<Item>) {
    forall e :: e in rs ==> SettledItem(w, maxCost, rs[0].meta, e)
  }

  /** What a search for cheapest ways promises about its results, given with their costs. */
  ghost predicate BestFirst(w: Net, maxCost: real, maxCount: int, rs: seq<Item>)
    requires rs != []
  {
    && |rs| <= maxCount && StartItem(w, rs[0]) && CostsAscend(rs) && Settled(w, maxCost, rs)
    // Where a way leads to a missing zettel, the count is used up by results that are no farther away.
    && forall r: Route :: r.Valid(w, maxCost, rs[0].meta) && r.End().zid !in Seen(rs) ==>
         |rs| == maxCount && r.Cost() >= rs[|rs| - 1].cost
  }

  lemma MetaUnique(w: Net, m: Meta, n: Meta)
    requires w.Valid() && w.IsMetaOf(m) && w.IsMetaOf(n) && m.zid == n.zid
    ensures m == n
  {
    if m in w.starts {
      var i :| 0 <= i < |w.starts| && w.starts[i] == m;
      assert w.IsStart(n.zid);
    }
    if n in w.starts {
      var i :| 0 <= i < |w.starts| && w.starts[i] == n;
      assert w.IsStart(m.zid);
    }
  }

  lemma EndIsMeta(w: Net, maxCost: real, first: Meta, r: Route)
    requires r.Valid(w, maxCost, first)
    ensures w.IsMetaOf(r.End())
  {}

  lemma PriceMono(a: Arc, c: real, d: real)
    requires a.factor > 0.0 && c <= d
    ensures a.Price(c) <= a.Price(d)
  {
    assert (d - c) * a.factor >= 0.0;
  }

  lemma {:induction false} RisingCost(r: Route)
    requires r.Rising()
    ensures r.Cost() >= 1.0
  {
    if r.Via? { RisingCost(r.prev); }
  }

  lemma {:induction false} EndVisited(r: Route)
    ensures r.End().zid in r.Zids()
  {}

  lemma StartOf(w: Net, z: Zid) returns (s: Meta)
    requires w.IsStart(z)
    ensures s in w.starts && s.zid == z
  {
    var i :| 0 <= i < |w.starts| && w.starts[i].zid == z;
    s := w.starts[i];
  }

  /** Every way to an undelivered zettel whose cost never falls passes an item that waits. */
  lemma {:induction false} FrontierLemma(w: Net, maxCost: real, rs: seq<Item>, q: Route)
    requires w.Valid() && Positive(w) && rs != [] && StartItem(w, rs[0]) && Settled(w, maxCost, rs)
    requires q.Valid(w, maxCost, rs[0].meta) && q.Rising() && q.End().zid !in Seen(rs)
    ensures exists x :: Waiting(w, maxCost, rs, x) && x.cost <= q.Cost()
  {
    if w.IsStart(q.End().zid) {
      var s := StartOf(w, q.End().zid);
      RisingCost(q);
      assert Waiting(w, maxCost, rs, Item(1.0, s));
    } else if q.prev.End().zid !in Seen(rs) {
      FrontierLemma(w, maxCost, rs, q.prev);
    } else {
      FrontierCrossed(w, maxCost, rs, q.prev, q.arc, q.meta);
    }
  }

  lemma FrontierCrossed(w: Net, maxCost: real, rs: seq<Item>, p: Route, a: Arc, m: Meta)
    requires w.Valid() && Positive(w) && rs != [] && StartItem(w, rs[0]) && Settled(w, maxCost, rs)
    requires Via(p, a, m).Valid(w, maxCost, rs[0].meta) && m.zid !in Seen(rs) && p.End().zid in Seen(rs)
    ensures exists x :: Waiting(w, maxCost, rs, x) && x.cost <= a.Price(p.Cost())
  {
    var e :| e in rs && e.meta.zid == p.End().zid && (p == At(rs[0].meta) ==> e == rs[0]);
    assert SettledItem(w, maxCost, rs[0].meta, e) && Reaches(w, maxCost, rs[0].meta, p, e.meta.zid);
    EndIsMeta(w, maxCost, rs[0].meta, p);
    MetaUnique(w, e.meta, p.End());
    PriceMono(a, e.cost, p.Cost());
    OfferWaits(w, maxCost, rs, e, a);
  }

  lemma Better(w: Net, maxCost: real, first: Meta, r: Route) returns (q: Route)
    requires Rises(w, maxCost, first) && r.Valid(w, maxCost, first)
    ensures q.Valid(w, maxCost, first) && q.End().zid == r.End().zid && q.Rising() && 1.0 <= q.Cost() <= r.Cost()
  {
    assert Bettered(w, maxCost, first, r);
    q :| NoWorse(w, maxCost, first, r, q);
    RisingCost(q);
  }

  /** The same for all ways, where none is better than those whose cost never falls. */
  lemma FrontierPassed(w: Net, maxCost: real, rs: seq<Item>, r: Route)
    requires w.Valid() && Positive(w) && rs != [] && StartItem(w, rs[0]) && Settled(w, maxCost, rs)
    requires Rises(w, maxCost, rs[0].meta) && r.Valid(w, maxCost, rs[0].meta) && r.End().zid !in Seen(rs)
    ensures exists x :: Waiting(w, maxCost, rs, x) && x.cost <= r.Cost()
  {
    var q := Better(w, maxCost, rs[0].meta, r);
    FrontierLemma(w, maxCost, rs, q);
  }

  // ---------- The ways of a search ----------

  lemma FirstIsStart(w: Net, maxCost: real, rs: seq<Item>)
    requires Chosen(w, maxCost, rs) && rs != []
    ensures StartItem(w, rs[0])
  {
    assert rs[..0] == [] && Cheapest(w, maxCost, rs[..0], rs[0]);
  }

  ghost predicate Trace(w: Net, maxCost: real, rs: seq<Item>, i: nat, r: Route)
    requires i < |rs|
  {
    && r.Valid(w, maxCost, rs[0].meta) && r.End() == rs[i].meta && r.Cost() == rs[i].cost && r.Rising()
    && (i == 0 ==> r == At(rs[0].meta)) && r.Zids() <= Seen(rs[..i + 1])
  }

  /** Where results ascend, the offers that led to one of them are a way along which the cost never falls. */
  lemma {:induction false} TraceOf(w: Net, maxCost: real, rs: seq<Item>, i: nat) returns (r: Route)
    requires w.Valid() && Chosen(w, maxCost, rs) && CostsAscend(rs) && i < |rs|
    requires forall e :: e in rs ==> w.IsMetaOf(e.meta)
    ensures Trace(w, maxCost, rs, i, r)
  {
    FirstIsStart(w, maxCost, rs);
    if StartItem(w, rs[i]) {
      r := At(rs[i].meta);
      assert rs[..i + 1][i] == rs[i];
    } else {
      var j, a := OfferedBy(w, maxCost, rs, i);
      var p := TraceOf(w, maxCost, rs, j);
      r := Via(p, a, rs[i].meta);
      TraceLonger(w, maxCost, rs, j, p, i, a);
    }
  }

  lemma OfferedBy(w: Net, maxCost: real, rs: seq<Item>, i: nat) returns (j: nat, a: Arc)
    requires w.Valid() && Chosen(w, maxCost, rs) && i < |rs| && !StartItem(w, rs[i]) && StartItem(w, rs[0])
    ensures j < i && Offer(w, maxCost, rs[..i], rs[j], a, rs[i]) && (rs[j] == rs[0] ==> j == 0)
    ensures rs[i].meta.zid == a.target && rs[i].meta.zid !in Seen(rs[..i])
  {
    var front := rs[..i];
    assert Cheapest(w, maxCost, front, rs[i]);
    var e, b :| Offer(w, maxCost, front, e, b, rs[i]);
    a := b;
    j :| 0 <= j < i && front[j] == e;
    if e == rs[0] { j := 0; }
  }

  lemma TraceLonger(w: Net, maxCost: real, rs: seq<Item>, j: nat, p: Route, i: nat, a: Arc)
    requires j < i < |rs| && Trace(w, maxCost, rs, j, p) && CostsAscend(rs) && w.IsMetaOf(rs[i].meta)
    requires Offer(w, maxCost, rs[..i], rs[j], a, rs[i]) && (rs[j] == rs[0] ==> j == 0) && rs[i].meta.zid == a.target
    requires rs[i].meta.zid !in Seen(rs[..i])
    ensures Trace(w, maxCost, rs, i, Via(p, a, rs[i].meta))
  {
    var r := Via(p, a, rs[i].meta);
    SeenPrefix(rs, j + 1, i);
    SeenSnoc(rs[..i], rs[i]);
    assert rs[..i + 1] == rs[..i] + [rs[i]];
    assert Step(w, p.End(), a, rs[i].meta);
  }

  lemma SeenPrefix(rs: seq<Item>, j: nat, i: nat)
    requires j <= i <= |rs|
    ensures Seen(rs[..j]) <= Seen(rs[..i])
  {
    assert rs[..i] == rs[..j] + rs[j..i];
  }

  // ---------- Greedy search finds cheapest ways ----------

  /** An offer continues the way to the result that makes it. */
  lemma OfferedWay(w: Net, maxCost: real, rs: seq<Item>, j: nat, a: Arc, it: Item) returns (r: Route)
    requires w.Valid() && Chosen(w, maxCost, rs) && CostsAscend(rs) && Settled(w, maxCost, rs) && j < |rs|
    requires Offer(w, maxCost, rs, rs[j], a, it) && it.meta.zid !in Seen(rs)
    ensures r.Valid(w, maxCost, rs[0].meta) && r.Via? && r.End().zid == it.meta.zid && r.Cost() == it.cost
  {
    assert forall e :: e in rs ==> SettledItem(w, maxCost, rs[0].meta, e);
    var p := TraceOf(w, maxCost, rs, j);
    SeenPrefix(rs, j + 1, |rs|);
    assert rs[..|rs|] == rs;
    if w.IsStart(a.target) {
      var s := StartOf(w, a.target);
      r := Via(p, a, s);
    } else {
      r := Via(p, a, it.meta);
    }
    assert rs[j] == rs[0] ==> j == 0;
    assert Step(w, p.End(), a, r.meta);
  }

  lemma StartsFirst(w: Net, maxCost: real, rs: seq<Item>, it: Item)
    requires Cheapest(w, maxCost, rs, it) && w.IsStart(it.meta.zid)
    ensures it.cost <= 1.0
  {
    var s := StartOf(w, it.meta.zid);
    assert Waiting(w, maxCost, rs, Item(1.0, s));
  }

  /** What is chosen next was offered at the end of a way, unless it is a start zettel. */
  lemma ChosenWay(w: Net, maxCost: real, rs: seq<Item>, it: Item) returns (r: Route)
    requires w.Valid() && rs != [] && Chosen(w, maxCost, rs) && CostsAscend(rs) && Settled(w, maxCost, rs)
    requires Cheapest(w, maxCost, rs, it)
    ensures r.Valid(w, maxCost, rs[0].meta) && r.End().zid == it.meta.zid && r.Cost() == it.cost
    ensures StartItem(w, it) || (r.Via? && it.meta.zid in w.port && it.meta == w.port[it.meta.zid])
  {
    if StartItem(w, it) {
      r := At(it.meta);
    } else {
      var e, a :| Offer(w, maxCost, rs, e, a, it);
      var j: nat :| j < |rs| && rs[j] == e;
      r := OfferedWay(w, maxCost, rs, j, a, it);
    }
  }

  ghost predicate Good(w: Net, maxCost: real, rs: seq<Item>)
    requires rs != []
  {
    && StartItem(w, rs[0]) && Chosen(w, maxCost, rs) && CostsAscend(rs) && Settled(w, maxCost, rs)
    && Sane(w, maxCost, rs[0].meta) && Rises(w, maxCost, rs[0].meta)
  }

  /** It has the least cost of all ways to it. */
  lemma CheapestSettled(w: Net, maxCost: real, rs: seq<Item>, it: Item)
    requires rs != [] && Good(w, maxCost, rs) && Cheapest(w, maxCost, rs, it)
    ensures SettledItem(w, maxCost, rs[0].meta, it)
  {
    var first := rs[0].meta;
    var r := ChosenWay(w, maxCost, rs, it);
    assert Reaches(w, maxCost, first, r, it.meta.zid);
    if w.IsStart(it.meta.zid) && !StartItem(w, it) {
      StartsFirst(w, maxCost, rs, it);
      var q := Better(w, maxCost, first, r);
    }
    forall v | Reaches(w, maxCost, first, v, it.meta.zid) ensures it.cost <= v.Cost() {
      FrontierPassed(w, maxCost, rs, v);
    }
  }

  /** What is missing is no nearer than what was chosen last. */
  lemma LastNearest(w: Net, maxCost: real, rs: seq<Item>, last: Item, r: Route)
    requires rs != [] && Good(w, maxCost, rs) && Cheapest(w, maxCost, rs, last)
    requires r.Valid(w, maxCost, rs[0].meta) && r.End().zid !in Seen(rs)
    ensures r.Cost() >= last.cost
  {
    FrontierPassed(w, maxCost, rs, r);
  }

  /** What was chosen last is no cheaper than what was chosen before. */
  lemma CheapestLast(w: Net, maxCost: real, rs: seq<Item>, last: Item, longer: seq<Item>, it: Item)
    requires longer == rs + [last] && rs != [] && Good(w, maxCost, rs) && Cheapest(w, maxCost, rs, last)
    requires Good(w, maxCost, longer) && Cheapest(w, maxCost, longer, it)
    ensures last.cost <= it.cost
  {
    SeenSnoc(rs, last);
    var r := ChosenWay(w, maxCost, longer, it);
    LastNearest(w, maxCost, rs, last, r);
  }

  lemma AscendSnoc(rs: seq<Item>, it: Item)
    requires CostsAscend(rs) && it.meta.zid !in Seen(rs) && (rs != [] ==> rs[|rs| - 1].cost <= it.cost)
    ensures CostsAscend(rs + [it])
  {
    var longer := rs + [it];
    forall i, j | 0 <= i < j < |longer|
      ensures longer[i].cost <= longer[j].cost && longer[i].meta.zid != longer[j].meta.zid
    {
      assert rs[i] in rs;
      if j < |rs| { assert longer[j] == rs[j]; }
    }
  }

  lemma FirstGood(w: Net, maxCost: real, rs: seq<Item>)
    requires |rs| == 1 && Chosen(w, maxCost, rs) && Sane(w, maxCost, rs[0].meta) && Rises(w, maxCost, rs[0].meta)
    ensures Good(w, maxCost, rs)
  {
    FirstIsStart(w, maxCost, rs);
    var first := rs[0].meta;
    assert Reaches(w, maxCost, first, At(first), first.zid) && At(first).Cost() == rs[0].cost;
    forall r | Reaches(w, maxCost, first, r, first.zid) ensures 1.0 <= r.Cost() {
      var q := Better(w, maxCost, first, r);
    }
  }

  lemma GoodSnoc(w: Net, maxCost: real, rs: seq<Item>, it: Item)
    requires rs != [] && Good(w, maxCost, rs) && Cheapest(w, maxCost, rs, it) && rs[|rs| - 1].cost <= it.cost
    ensures Good(w, maxCost, rs + [it])
  {
    CheapestSettled(w, maxCost, rs, it);
    AscendSnoc(rs, it);
    ChosenSnoc(w, maxCost, rs, it);
    forall e | e in rs + [it] ensures SettledItem(w, maxCost, rs[0].meta, e) {
      assert e in rs || e == it;
    }
  }

  lemma SecondCost(w: Net, maxCost: real, rs: seq<Item>, it: Item)
    requires |rs| == 1 && Good(w, maxCost, rs) && Cheapest(w, maxCost, rs, it)
    ensures it.cost >= 1.0
  {
    var r := ChosenWay(w, maxCost, rs, it);
    var q := Better(w, maxCost, rs[0].meta, r);
  }

  lemma {:induction false} ChosenGood(w: Net, maxCost: real, rs: seq<Item>)
    requires rs != [] && Chosen(w, maxCost, rs) && Sane(w, maxCost, rs[0].meta) && Rises(w, maxCost, rs[0].meta)
    ensures Good(w, maxCost, rs)
  {
    if |rs| == 1 {
      FirstGood(w, maxCost, rs);
    } else {
      var front, it := rs[..|rs| - 1], rs[|rs| - 1];
      assert rs == front + [it] && front[0] == rs[0];
      ChosenFront(w, maxCost, rs);
      ChosenGood(w, maxCost, front);
      if |front| > 1 {
        ChosenFront(w, maxCost, front);
        ChosenGood(w, maxCost, front[..|front| - 1]);
      }
      NextCost(w, maxCost, front, it);
      GoodSnoc(w, maxCost, front, it);
    }
  }

  lemma NextCost(w: Net, maxCost: real, front: seq<Item>, it: Item)
    requires front != [] && Good(w, maxCost, front) && Cheapest(w, maxCost, front, it)
    requires |front| > 1 ==> Good(w, maxCost, front[..|front| - 1])
    ensures front[|front| - 1].cost <= it.cost
  {
    if |front| == 1 {
      SecondCost(w, maxCost, front, it);
    } else {
      FrontAndLast(front);
      ChosenFront(w, maxCost, front);
      CheapestLast(w, maxCost, front[..|front| - 1], front[|front| - 1], front, it);
    }
  }

  lemma FrontAndLast(rs: seq<Item>)
    requires rs != []
    ensures rs == rs[..|rs| - 1] + [rs[|rs| - 1]]
  {}

  /** Where no zettel is reached cheaper by way of a costlier one, a greedy search finds cheapest ways. */
  lemma GreedyIsBestFirst(w: Net, maxCost: real, maxCount: int, rs: seq<Item>)
    requires rs != [] && Greedy(w, maxCost, maxCount, rs)
    requires Sane(w, maxCost, rs[0].meta) && Rises(w, maxCost, rs[0].meta)
    ensures BestFirst(w, maxCost, maxCount, rs)
  {
    ChosenGood(w, maxCost, rs);
    forall r: Route | r.Valid(w, maxCost, rs[0].meta) && r.End().zid !in Seen(rs)
      ensures |rs| == maxCount && r.Cost() >= rs[|rs| - 1].cost
    {
      FrontierPassed(w, maxCost, rs, r);
      MissingIsFar(w, maxCost, rs, r);
    }
  }

  lemma MissingIsFar(w: Net, maxCost: real, rs: seq<Item>, r: Route)
    requires rs != [] && Good(w, maxCost, rs) && r.Valid(w, maxCost, rs[0].meta) && r.End().zid !in Seen(rs)
    ensures r.Cost() >= rs[|rs| - 1].cost
  {
    if |rs| == 1 {
      var q := Better(w, maxCost, rs[0].meta, r);
    } else {
      var front, last := rs[..|rs| - 1], rs[|rs| - 1];
      assert rs == front + [last] && front[0] == rs[0];
      ChosenFront(w, maxCost, rs);
      ChosenGood(w, maxCost, front);
      SeenSnoc(front, last);
      LastNearest(w, maxCost, front, last, r);
    }
  }

  /** The converse, for a search that was not ended by the count. */
  lemma BestFirstRises(w: Net, maxCost: real, maxCount: int, rs: seq<Item>)
    requires w.Valid() && rs != [] && Greedy(w, maxCost, maxCount, rs) && |rs| < maxCount
    requires BestFirst(w, maxCost, maxCount, rs)
    ensures Rises(w, maxCost, rs[0].meta)
  {
    var first := rs[0].meta;
    forall r: Route | r.Valid(w, maxCost, first) ensures Bettered(w, maxCost, first, r) {
      var e :| e in rs && e.meta.zid == r.End().zid;
      assert forall x :: x in rs ==> SettledItem(w, maxCost, first, x);
      assert Reaches(w, maxCost, first, r, e.meta.zid);
      var i: nat :| i < |rs| && rs[i] == e;
      var q := TraceOf(w, maxCost, rs, i);
      assert NoWorse(w, maxCost, first, r, q);
    }
  }

  /**
   A greedy search that is not ended by the count finds cheapest ways iff no zettel is reached cheaper by way
   of a costlier one.
   */
  lemma BestFirstIff(w: Net, maxCost: real, maxCount: int, rs: seq<Item>)
    requires rs != [] && Greedy(w, maxCost, maxCount, rs) && |rs| < maxCount && Sane(w, maxCost, rs[0].meta)
    ensures BestFirst(w, maxCost, maxCount, rs) <==> Rises(w, maxCost, rs[0].meta)
  {
    if BestFirst(w, maxCost, maxCount, rs) { BestFirstRises(w, maxCost, maxCount, rs); }
    if Rises(w, maxCost, rs[0].meta) { GreedyIsBestFirst(w, maxCost, maxCount, rs); }
  }

  /** The bound does not hold for the references of the first result, and a result beyond the bound is one of them. */
  lemma BeyondBound(w: Net, maxCost: real, maxCount: int, rs: seq<Item>)
    requires w.Valid() && maxCost >= 1.0 && rs != [] && BestFirst(w, maxCost, maxCount, rs)
    ensures forall e :: e in rs && e.cost > maxCost ==> DirectFrom(w, rs[0].meta, e)
    ensures forall a :: a in w.arcs(rs[0].meta) && a.target in w.port && a.target != rs[0].meta.zid ==>
              DirectShown(rs, maxCount, a)
  {
    var first := rs[0].meta;
    assert forall x :: x in rs ==> SettledItem(w, maxCost, first, x);
    forall e | e in rs && e.cost > maxCost ensures DirectFrom(w, first, e) {
      var r :| Reaches(w, maxCost, first, r, e.meta.zid) && r.Cost() == e.cost;
      assert r.arc in w.arcs(first);
    }
    forall a | a in w.arcs(first) && a.target in w.port && a.target != first.zid ensures DirectShown(rs, maxCount, a) {
      var r := DirectWay(w, maxCost, first, a);
      assert forall e :: e in rs && e.meta.zid == a.target ==> Reaches(w, maxCost, first, r, e.meta.zid);
    }
  }

  ghost predicate DirectFrom(w: Net, first: Meta, e: Item) {
    exists a :: a in w.arcs(first) && a.target == e.meta.zid && e.cost == a.Price(1.0)
  }

  /** The target is delivered at this price at most, unless the count is used up by what is no costlier. */
  ghost predicate DirectShown(rs: seq<Item>, maxCount: int, a: Arc)
    requires rs != []
  {
    && (a.target !in Seen(rs) ==> |rs| == maxCount && a.Price(1.0) >= rs[|rs| - 1].cost)
    && forall e :: e in rs && e.meta.zid == a.target ==> e.cost <= a.Price(1.0)
  }

  lemma DirectWay(w: Net, maxCost: real, first: Meta, a: Arc) returns (r: Route)
    requires w.Valid() && first in w.starts && a in w.arcs(first) && a.target in w.port && a.target != first.zid
    ensures r.Valid(w, maxCost, first) && r.End().zid == a.target && r.Cost() == a.Price(1.0)
  {
    var m := w.port[a.target];
    if w.IsStart(a.target) { m := StartOf(w, a.target); }
    assert Step(w, first, a, m) && At(first).Valid(w, maxCost, first);
    r := Via(At(first), a, m);
  }

  // ---------- When costs rise ----------

  /**
   A reference that is followed at some cost does not lower it. At a cost beyond the bound, the price has to
   stay beyond; and a start zettel has to stay the cheapest.
   */
  ghost predicate Upward(w: Net, maxCost: real, c: real, a: Arc) {
    if w.IsStart(a.target) then a.Price(c) > 1.0
    else if c <= maxCost then a.Price(c) >= c
    else a.Price(c) > maxCost
  }

  ghost predicate AlwaysUpward(w: Net, maxCost: real, a: Arc) {
    forall c :: c >= 1.0 ==> Upward(w, maxCost, c, a)
  }

  /** A single price decides: for a reference to a start zettel that at the least cost, otherwise that at the bound. */
  ghost predicate KeepsBound(w: Net, maxCost: real, a: Arc) {
    if w.IsStart(a.target) then a.Price(1.0) > 1.0 else a.Price(maxCost) >= maxCost
  }

  lemma UpwardIff(w: Net, maxCost: real, a: Arc)
    requires 0.0 < a.factor <= 1.0 && maxCost >= 1.0
    ensures AlwaysUpward(w, maxCost, a) <==> KeepsBound(w, maxCost, a)
  {
    if AlwaysUpward(w, maxCost, a) {
      assert Upward(w, maxCost, 1.0, a) && Upward(w, maxCost, maxCost, a);
    }
    if KeepsBound(w, maxCost, a) {
      forall c | c >= 1.0 ensures Upward(w, maxCost, c, a) { UpwardAt(w, maxCost, c, a); }
    }
  }

  lemma UpwardAt(w: Net, maxCost: real, c: real, a: Arc)
    requires 0.0 < a.factor <= 1.0 && c >= 1.0 && KeepsBound(w, maxCost, a)
    ensures Upward(w, maxCost, c, a)
  {
    if w.IsStart(a.target) {
      PriceMono(a, 1.0, c);
    } else if c <= maxCost {
      assert (maxCost - c) * (1.0 - a.factor) >= 0.0;
    } else {
      assert a.Price(c) - a.Price(maxCost) == (c - maxCost) * a.factor > 0.0;
    }
  }

  /** The part of a way up to a zettel that it meets. */
  lemma {:induction false} PartOf(w: Net, maxCost: real, first: Meta, q: Route, z: Zid) returns (v: Route)
    requires q.Valid(w, maxCost, first) && q.Rising() && z in q.Zids()
    ensures v.Valid(w, maxCost, first) && v.Rising() && v.End().zid == z && v.Cost() <= q.Cost()
  {
    if q.Via? && z in q.prev.Zids() {
      v := PartOf(w, maxCost, first, q.prev, z);
    } else {
      v := q;
    }
  }

  /** A step upward from a way that another one betters. */
  lemma StepBettered(w: Net, maxCost: real, first: Meta, r: Route)
    requires w.Valid() && Positive(w) && maxCost >= 1.0 && r.Via? && r.Valid(w, maxCost, first)
    requires Bettered(w, maxCost, first, r.prev) && AlwaysUpward(w, maxCost, r.arc)
    ensures Bettered(w, maxCost, first, r)
  {
    var p, a, m := r.prev, r.arc, r.meta;
    EndIsMeta(w, maxCost, first, p);
    var q :| NoWorse(w, maxCost, first, p, q);
    RisingCost(q);
    PriceMono(a, q.Cost(), p.Cost());
    assert Upward(w, maxCost, q.Cost(), a) && Upward(w, maxCost, p.Cost(), a);
    if w.IsStart(m.zid) {
      var s := StartOf(w, m.zid);
      assert NoWorse(w, maxCost, first, r, At(s));
    } else if p == At(first) {
      assert NoWorse(w, maxCost, first, r, r);
    } else if m.zid in q.Zids() {
      var v := PartOf(w, maxCost, first, q, m.zid);
      assert NoWorse(w, maxCost, first, r, v);
    } else {
      EndIsMeta(w, maxCost, first, q);
      MetaUnique(w, q.End(), p.End());
      assert NoWorse(w, maxCost, first, r, Via(q, a, m));
    }
  }

  /** The last step of a way goes upward, or nothing is wrong with the way. */
  ghost predicate LastFine(w: Net, maxCost: real, first: Meta, r: Route) {
    r.Via? ==> AlwaysUpward(w, maxCost, r.arc) || (Bettered(w, maxCost, first, r) && ClearEnd(w, first, r))
  }

  ghost predicate AllFine(w: Net, maxCost: real, first: Meta) {
    forall r: Route {:trigger LastFine(w, maxCost, first, r)} ::
      r.Valid(w, maxCost, first) ==> LastFine(w, maxCost, first, r)
  }

  lemma {:induction false} WayBettered(w: Net, maxCost: real, first: Meta, r: Route)
    requires w.Valid() && Positive(w) && maxCost >= 1.0 && AllFine(w, maxCost, first) && r.Valid(w, maxCost, first)
    ensures Bettered(w, maxCost, first, r) && ClearEnd(w, first, r)
  {
    assert LastFine(w, maxCost, first, r);
    if r.At? {
      assert NoWorse(w, maxCost, first, r, r);
    } else {
      WayBettered(w, maxCost, first, r.prev);
      if AlwaysUpward(w, maxCost, r.arc) {
        StepBettered(w, maxCost, first, r);
        UpwardClear(w, maxCost, first, r);
      }
    }
  }

  lemma UpwardClear(w: Net, maxCost: real, first: Meta, r: Route)
    requires r.Via? && r.Valid(w, maxCost, first)
    requires Bettered(w, maxCost, first, r.prev) && AlwaysUpward(w, maxCost, r.arc)
    ensures ClearEnd(w, first, r)
  {
    var q :| NoWorse(w, maxCost, first, r.prev, q);
    RisingCost(q);
    assert Upward(w, maxCost, r.prev.Cost(), r.arc);
  }

  /** Where all steps go upward, or do no harm, no zettel is reached cheaper by way of a costlier one. */
  lemma FineRises(w: Net, maxCost: real, first: Meta)
    requires w.Valid() && Positive(w) && maxCost >= 1.0 && AllFine(w, maxCost, first)
    ensures Rises(w, maxCost, first) && Sane(w, maxCost, first)
  {
    forall r: Route | r.Valid(w, maxCost, first)
      ensures Bettered(w, maxCost, first, r) && ClearEnd(w, first, r)
    {
      WayBettered(w, maxCost, first, r);
    }
  }

  /** At the bound, no reference to another zettel lowers the cost. */
  ghost predicate AllKeepBound(w: Net, maxCost: real) {
    forall m, a :: w.IsMetaOf(m) && a in w.arcs(m) && a.target in w.port && a.target != m.zid ==>
      a.factor <= 1.0 && KeepsBound(w, maxCost, a)
  }

  /** One price for each reference is enough to be looked at. */
  lemma BoundRises(w: Net, maxCost: real, first: Meta)
    requires w.Valid() && Positive(w) && maxCost >= 1.0 && AllKeepBound(w, maxCost)
    ensures Rises(w, maxCost, first) && Sane(w, maxCost, first)
  {
    forall r: Route | r.Valid(w, maxCost, first) ensures LastFine(w, maxCost, first, r) {
      if r.Via? {
        EndIsMeta(w, maxCost, first, r.prev);
        EndVisited(r.prev);
        UpwardIff(w, maxCost, r.arc);
      }
    }
    FineRises(w, maxCost, first);
  }

  /** References that just add to the cost. */
  ghost predicate Plain(w: Net) {
    w.Valid() && forall m, a :: w.IsMetaOf(m) && a in w.arcs(m) ==> a.extra >= 1.0 && a.factor == 1.0
  }

  /** Of ways that only go upward, none of any kind is cheaper than those that the promise speaks of. */
  lemma {:induction false} AllWays(w: Net, maxCost: real, first: Meta, r: Route)
    requires w.Valid() && Positive(w) && maxCost >= 1.0 && r.Along(w) && r.AllUpward(w, maxCost)
    ensures w.IsMetaOf(r.End()) && r.Cost() >= 1.0
    ensures r.Cost() > maxCost ||
            exists v: Route :: v.Valid(w, maxCost, first) && v.Rising() && v.End() == r.End() && v.Cost() <= r.Cost()
  {
    match r
    case At(_) =>
      assert r.Valid(w, maxCost, first);
    case Via(p, a, m) =>
      AllWays(w, maxCost, first, p);
      assert Upward(w, maxCost, p.Cost(), a);
      if w.IsStart(m.zid) {
        var s := StartOf(w, m.zid);
        MetaUnique(w, m, s);
        assert At(s).Valid(w, maxCost, first);
      } else if p.Cost() <= maxCost && r.Cost() <= maxCost {
        var q: Route :| q.Valid(w, maxCost, first) && q.Rising() && q.End() == p.End() && q.Cost() <= p.Cost();
        RisingCost(q);
        PriceMono(a, q.Cost(), p.Cost());
        assert Upward(w, maxCost, q.Cost(), a);
        WayOn(w, maxCost, first, q, a, m);
      }
  }

  lemma WayOn(w: Net, maxCost: real, first: Meta, q: Route, a: Arc, m: Meta)
    requires w.Valid() && q.Valid(w, maxCost, first) && q.Rising() && Step(w, q.End(), a, m)
    requires q.Cost() <= a.Price(q.Cost()) <= maxCost
    ensures exists v: Route ::
              v.Valid(w, maxCost, first) && v.Rising() && v.End() == m && v.Cost() <= a.Price(q.Cost())
  {
    if m.zid in q.Zids() {
      var v := PartOf(w, maxCost, first, q, m.zid);
      EndIsMeta(w, maxCost, first, v);
      MetaUnique(w, m, v.End());
    } else {
      var v := Via(q, a, m);
      assert v.Valid(w, maxCost, first) && v.Rising() && v.End() == m;
    }
  }

  lemma {:induction false} PlainUpward(w: Net, maxCost: real, r: Route)
    requires Plain(w) && r.Along(w)
    ensures r.AllUpward(w, maxCost) && w.IsMetaOf(r.End())
  {
    if r.Via? { PlainUpward(w, maxCost, r.prev); }
  }

  /** Other references have to be looked at only where they lead to other zettel. */
  lemma {:induction false} BoundUpward(w: Net, maxCost: real, r: Route)
    requires w.Valid() && Positive(w) && maxCost >= 1.0 && AllKeepBound(w, maxCost) && r.Along(w) && r.Leaves()
    ensures r.AllUpward(w, maxCost) && w.IsMetaOf(r.End())
  {
    if r.Via? {
      BoundUpward(w, maxCost, r.prev);
      UpwardIff(w, maxCost, r.arc);
    }
  }

  /** Where the metadata of start zettel is that of the box, it does not matter who offers them. */
  lemma SameMetaClear(w: Net, maxCost: real, first: Meta)
    requires forall s :: s in w.starts && s.zid in w.port ==> w.port[s.zid] == s
    ensures Clear(w, maxCost, first)
  {
    forall r: Route | r.Valid(w, maxCost, first) && r.Via? && w.IsStart(r.End().zid) ensures ClearEnd(w, first, r) {
      var s := StartOf(w, r.End().zid);
    }
  }

  function Metas(rs: seq<Item>): (r: seq<Meta>) {
    if rs == [] then [] else Metas(rs[..|rs| - 1]) + [rs[|rs| - 1].meta]
  }

  /**
   These are the results of a greedy search; and they are those of a search for cheapest ways if no zettel is
   reached cheaper by way of a costlier one, and only then, unless the count ends the search.
   */
  ghost predicate Delivers(w: Net, maxCost: real, maxCount: int, result: seq<Meta>) {
    exists rs: seq<Item> ::
      && result == Metas(rs) && Greedy(w, maxCost, maxCount, rs)
      && (rs != [] && Sane(w, maxCost, rs[0].meta) ==> Promise(w, maxCost, maxCount, rs))
  }

  ghost predicate Promise(w: Net, maxCost: real, maxCount: int, rs: seq<Item>)
    requires rs != []
  {
    && (Rises(w, maxCost, rs[0].meta) ==> BestFirst(w, maxCost, maxCount, rs))
    && (|rs| < maxCount && BestFirst(w, maxCost, maxCount, rs) ==> Rises(w, maxCost, rs[0].meta))
  }

  lemma GreedyDelivers(w: Net, maxCost: real, maxCount: int, rs: seq<Item>)
    requires Greedy(w, maxCost, maxCount, rs)
    ensures Delivers(w, maxCost, maxCount, Metas(rs))
  {
    if rs != [] && Sane(w, maxCost, rs[0].meta) {
      if Rises(w, maxCost, rs[0].meta) { GreedyIsBestFirst(w, maxCost, maxCount, rs); }
      if |rs| < maxCount && BestFirst(w, maxCost, maxCount, rs) { BestFirstRises(w, maxCost, maxCount, rs); }
      assert Promise(w, maxCost, maxCount, rs);
    }
  }

  lemma {:induction false} MetasAt(rs: seq<Item>)
    ensures |Metas(rs)| == |rs| && forall i :: 0 <= i < |rs| ==> Metas(rs)[i] == rs[i].meta
  {
    if rs != [] { MetasAt(rs[..|rs| - 1]); }
  }

  lemma MetasSnoc(rs: seq<Item>, it: Item)
    ensures Metas(rs + [it]) == Metas(rs) + [it.meta]
  {
    assert (rs + [it])[..|rs|] == rs;
  }

  // ---------- Ties ----------

  lemma {:induction false} SeenSize(rs: seq<Item>)
    ensures |Seen(rs)| <= |rs|
    ensures (forall i, j :: 0 <= i < j < |rs| ==> rs[i].meta.zid != rs[j].meta.zid) ==> |Seen(rs)| == |rs|
  {
    if rs != [] {
      var front, last := rs[..|rs| - 1], rs[|rs| - 1];
      assert rs == front + [last];
      SeenSize(front);
      SeenSnoc(front, last);
    }
  }

  lemma NotAllSeen(rs: seq<Item>, other: seq<Item>) returns (k: nat)
    requires CostsAscend(rs) && |other| < |rs|
    ensures k < |rs| && rs[k].meta.zid !in Seen(other)
  {
    SeenSize(rs);
    SeenSize(other);
    if Seen(rs) <= Seen(other) { SubsetSize(Seen(rs), Seen(other)); }
    var z :| z in Seen(rs) && z !in Seen(other);
    k :| 0 <= k < |rs| && rs[k].meta.zid == z;
  }

  lemma NotAllSeenBy(rs: seq<Item>, i: nat, other: seq<Item>) returns (k: nat)
    requires CostsAscend(rs) && |other| <= i < |rs|
    ensures k <= i && rs[k].meta.zid !in Seen(other) && rs[k].cost <= rs[i].cost
  {
    k := NotAllSeen(rs[..i + 1], other);
  }

  lemma ResultsAreMeta(w: Net, maxCost: real, rs: seq<Item>)
    requires Settled(w, maxCost, rs)
    ensures forall e :: e in rs ==> w.IsMetaOf(e.meta)
  {
    forall e | e in rs ensures w.IsMetaOf(e.meta) {
      assert SettledItem(w, maxCost, rs[0].meta, e);
    }
  }

  lemma {:induction false} SubsetSize(a: set<Zid>, b: set<Zid>)
    requires a <= b
    ensures |a| <= |b|
  {
    if a != {} {
      var z :| z in a;
      SubsetSize(a - {z}, b - {z});
    }
  }

  /** Within the bound, a way along which the cost never falls does not depend on the first zettel. */
  lemma {:induction false} AnyFirst(w: Net, maxCost: real, first: Meta, r: Route, other: Meta)
    requires r.Valid(w, maxCost, first) && r.Rising() && r.Cost() <= maxCost
    ensures r.Valid(w, maxCost, other)
  {
    if r.Via? { AnyFirst(w, maxCost, first, r.prev, other); }
  }

  ghost predicate Best(w: Net, maxCost: real, maxCount: int, rs: seq<Item>) {
    rs != [] && Greedy(w, maxCost, maxCount, rs) && BestFirst(w, maxCost, maxCount, rs)
  }

  /** Among more results there is one that fewer ones miss, with a way to it. */
  lemma MissedRoute(w: Net, maxCost: real, maxCount: int, rs: seq<Item>, i: nat, other: seq<Item>, first: Meta)
    returns (r: Route)
    requires w.Valid() && Best(w, maxCost, maxCount, rs) && |other| <= i < |rs| && rs[i].cost <= maxCost
    ensures r.Valid(w, maxCost, first) && r.End().zid !in Seen(other) && r.Cost() <= rs[i].cost
  {
    var k := NotAllSeenBy(rs, i, other);
    ResultsAreMeta(w, maxCost, rs);
    r := TraceOf(w, maxCost, rs, k);
    AnyFirst(w, maxCost, rs[0].meta, r, first);
  }

  /** What one search delivers within the bound is not missed by another in favour of something costlier. */
  lemma NoCostlier(w: Net, maxCost: real, maxCount: int, rs: seq<Item>, other: seq<Item>, i: nat)
    requires w.Valid() && Best(w, maxCost, maxCount, rs) && Best(w, maxCost, maxCount, other)
    requires i < |rs| && i < |other| && rs[i].cost <= maxCost
    ensures other[i].cost <= rs[i].cost
  {
    var r := MissedRoute(w, maxCost, maxCount, rs, i, other[..i], other[0].meta);
    if r.End().zid in Seen(other) {
      SeenNotBefore(w, maxCost, other, i, r);
    } else {
      NotSeenAfter(w, maxCost, maxCount, other, i, r);
    }
  }

  lemma NotSeenAfter(w: Net, maxCost: real, maxCount: int, rs: seq<Item>, i: nat, r: Route)
    requires rs != [] && BestFirst(w, maxCost, maxCount, rs) && i < |rs|
    requires r.Valid(w, maxCost, rs[0].meta) && r.End().zid !in Seen(rs)
    ensures rs[i].cost <= r.Cost()
  {
    assert r.Cost() >= rs[|rs| - 1].cost >= rs[i].cost;
  }

  lemma SeenNotBefore(w: Net, maxCost: real, rs: seq<Item>, i: nat, r: Route)
    requires CostsAscend(rs) && Settled(w, maxCost, rs) && i < |rs| && r.Valid(w, maxCost, rs[0].meta)
    requires r.End().zid in Seen(rs) && r.End().zid !in Seen(rs[..i])
    ensures rs[i].cost <= r.Cost()
  {
    var j := SeenLater(rs, i, r.End().zid);
    assert rs[j] in rs && SettledItem(w, maxCost, rs[0].meta, rs[j]);
    assert Reaches(w, maxCost, rs[0].meta, r, rs[j].meta.zid);
  }

  lemma SeenLater(rs: seq<Item>, i: nat, z: Zid) returns (j: nat)
    requires i <= |rs| && z in Seen(rs) && z !in Seen(rs[..i])
    ensures i <= j < |rs| && rs[j].meta.zid == z
  {
    assert rs == rs[..i] + rs[i..];
    var e :| e in rs && e.meta.zid == z;
    assert e in rs[i..];
    j :| i <= j < |rs| && rs[j] == e;
  }

  /** Fewer results come from a count that is used up. */
  lemma FewerIsFull(w: Net, maxCost: real, maxCount: int, rs: seq<Item>, other: seq<Item>, i: nat)
    requires w.Valid() && Best(w, maxCost, maxCount, rs) && Best(w, maxCost, maxCount, other)
    requires |other| <= i < |rs| && rs[i].cost <= maxCost
    ensures |other| == maxCount
  {
    var r := MissedRoute(w, maxCost, maxCount, rs, i, other, other[0].meta);
  }

  /**
   Whichever of equally cheap items the queue yields, as many results within the bound are delivered, at
   the same costs.
   */
  lemma TiesIrrelevant(w: Net, maxCost: real, maxCount: int, rs: seq<Item>, other: seq<Item>, i: nat)
    requires w.Valid() && Best(w, maxCost, maxCount, rs)
    requires Greedy(w, maxCost, maxCount, other) && (other != [] ==> BestFirst(w, maxCost, maxCount, other))
    requires i < |rs| && rs[i].cost <= maxCost
    ensures i < |other| && other[i].cost == rs[i].cost
  {
    FirstIsStart(w, maxCost, rs);
    assert Waiting(w, maxCost, [], rs[0]);
    if |other| <= i { FewerIsFull(w, maxCost, maxCount, rs, other, i); }
    NoCostlier(w, maxCost, maxCount, rs, other, i);
    NoCostlier(w, maxCost, maxCount, other, rs, i);
  }
}
