/**
 Best-first search over a graph with weighed references: what a greedy search delivers, for whatever
 cheapest item the queue yields at each step.
 */
module BestFirstSearch {
  import opened Zids

  datatype Pair = Pair(key: string, value: string)

  /** Metadata: the pairs other than title, role, tags and syntax, and the tags. */
  datatype Meta = Meta(zid: Zid, pairs: seq<Pair>, tags: seq<string>)

  datatype Arc = Arc(target: Zid, extra: real, factor: real) {
    /** What the target costs when it is offered by a zettel of this cost. */
    function Price(cost: real): (p: real) {
      (cost + extra) * factor
    }
  }

  /** The graph of one search: the metadata a box delivers, the start zettel, and the weighed references. */
  datatype Net = Net(port: map<Zid, Meta>, starts: seq<Meta>, arcs: Meta -> seq<Arc>) {
    ghost predicate Valid() {
      && (forall z :: z in port ==> port[z].zid == z)
      && (forall i, j :: 0 <= i < |starts| && 0 <= j < |starts| && starts[i].zid == starts[j].zid
            ==> starts[i] == starts[j])
    }

    predicate IsStart(z: Zid) {
      exists i :: 0 <= i < |starts| && starts[i].zid == z
    }

    /** The metadata a zettel is expanded with: the caller's for a start, the box's otherwise. */
    ghost predicate IsMetaOf(m: Meta) {
      m in starts || (!IsStart(m.zid) && m.zid in port && m == port[m.zid])
    }
  }

  datatype Item = Item(cost: real, meta: Meta)

  function Seen(rs: seq<Item>): (r: set<Zid>) {
    set e | e in rs :: e.meta.zid
  }

  lemma SeenSnoc(rs: seq<Item>, it: Item)
    ensures Seen(rs + [it]) == Seen(rs) + {it.meta.zid}
  {
    assert forall e :: e in rs + [it] <==> e in rs || e == it;
  }

  // ---------- Greedy search ----------

  /** Result `e` offers item `x` along reference `a`; for the first result, the bound does not hold. */
  ghost predicate Offer(w: Net, maxCost: real, rs: seq<Item>, e: Item, a: Arc, x: Item) {
    && e in rs && a in w.arcs(e.meta) && a.target in w.port
    && (e == rs[0] || a.Price(e.cost) <= maxCost)
    && x == Item(a.Price(e.cost), w.port[a.target])
  }

  ghost predicate StartItem(w: Net, x: Item) {
    x.cost == 1.0 && x.meta in w.starts
  }

  /** What the results so far make available: start zettel and offers, as far as they were not delivered. */
  ghost predicate Waiting(w: Net, maxCost: real, rs: seq<Item>, x: Item) {
    x.meta.zid !in Seen(rs) && (StartItem(w, x) || exists e, a :: Offer(w, maxCost, rs, e, a, x))
  }

  /** One of the cheapest items that wait. */
  ghost predicate Cheapest(w: Net, maxCost: real, rs: seq<Item>, it: Item) {
    Waiting(w, maxCost, rs, it) && forall x :: Waiting(w, maxCost, rs, x) ==> it.cost <= x.cost
  }

  ghost predicate Chosen(w: Net, maxCost: real, rs: seq<Item>) {
    forall i :: 0 <= i < |rs| ==> Cheapest(w, maxCost, rs[..i], rs[i])
  }

  /** Each result is one of the cheapest items that wait, until nothing waits or the count is used up. */
  ghost predicate Greedy(w: Net, maxCost: real, maxCount: int, rs: seq<Item>) {
    && |rs| <= maxCount && Chosen(w, maxCost, rs)
    && (|rs| < maxCount ==> forall x :: !Waiting(w, maxCost, rs, x))
  }

  lemma OfferWaits(w: Net, maxCost: real, rs: seq<Item>, e: Item, a: Arc)
    requires w.Valid() && e in rs && a in w.arcs(e.meta) && a.target in w.port && a.target !in Seen(rs)
    requires e == rs[0] || a.Price(e.cost) <= maxCost
    ensures Waiting(w, maxCost, rs, Item(a.Price(e.cost), w.port[a.target]))
  {
    assert Offer(w, maxCost, rs, e, a, Item(a.Price(e.cost), w.port[a.target]));
  }

  /** While something waits, there is a next result, and none that waits is cheaper. */
  lemma NextResult(w: Net, maxCost: real, maxCount: int, rs: seq<Item>, k: nat, x: Item)
    requires Greedy(w, maxCost, maxCount, rs) && k <= |rs| && k < maxCount && Waiting(w, maxCost, rs[..k], x)
    ensures k < |rs| && Waiting(w, maxCost, rs[..k], rs[k]) && rs[k].cost <= x.cost
  {
    assert rs[..|rs|] == rs;
    assert k < |rs| ==> Cheapest(w, maxCost, rs[..k], rs[k]);
  }

  lemma ChosenSnoc(w: Net, maxCost: real, rs: seq<Item>, it: Item)
    requires Chosen(w, maxCost, rs) && Cheapest(w, maxCost, rs, it)
    ensures Chosen(w, maxCost, rs + [it])
  {
    var longer := rs + [it];
    forall i | 0 <= i < |longer| ensures Cheapest(w, maxCost, longer[..i], longer[i]) {
      assert longer[..i] == rs[..i];
      assert rs[..|rs|] == rs;
    }
  }

  lemma ChosenFront(w: Net, maxCost: real, rs: seq<Item>)
    requires Chosen(w, maxCost, rs) && rs != []
    ensures var front := rs[..|rs| - 1]; Chosen(w, maxCost, front) && Cheapest(w, maxCost, front, rs[|rs| - 1])
  {
    var front := rs[..|rs| - 1];
    forall i | 0 <= i < |front| ensures Cheapest(w, maxCost, front[..i], front[i]) {
      assert front[..i] == rs[..i];
    }
  }

  /** What waits after one more result: what has waited, and its offers. */
  lemma WaitingSnoc(w: Net, maxCost: real, rs: seq<Item>, it: Item, x: Item)
    ensures Waiting(w, maxCost, rs + [it], x) <==>
            (x.meta.zid !in Seen(rs + [it])
             && (Waiting(w, maxCost, rs, x) || exists a :: Offer(w, maxCost, rs + [it], it, a, x)))
  {
    var longer := rs + [it];
    SeenSnoc(rs, it);
    assert rs != [] ==> longer[0] == rs[0];
    forall e, a | Offer(w, maxCost, longer, e, a, x) ensures Offer(w, maxCost, rs, e, a, x) || e == it {
      assert e in rs || e == it;
    }
    forall e, a | Offer(w, maxCost, rs, e, a, x) ensures Offer(w, maxCost, longer, e, a, x) {}
  }

  // ---------- The queue ----------

  /** The queue holds just what waits, besides items for zettel that were delivered since. */
  ghost predicate Queued(w: Net, maxCost: real, rs: seq<Item>, q: multiset<Item>) {
    forall x: Item :: x.meta.zid !in Seen(rs) ==> (x in q <==> Waiting(w, maxCost, rs, x))
  }

  /** Delivering the cheapest undelivered item of the queue. */
  ghost predicate Popped(seen: set<Zid>, q0: multiset<Item>, it: Item, q1: multiset<Item>) {
    && it in q0 && it.meta.zid !in seen && q1 <= q0
    && (forall x :: x in q0 && x.meta.zid !in seen ==> it.cost <= x.cost)
    && forall x :: x in q0 && x.meta.zid !in seen && x.meta.zid != it.meta.zid ==> x in q1
  }

  lemma PoppedNow(seen: set<Zid>, q0: multiset<Item>, q: multiset<Item>, it: Item)
    requires q <= q0 && forall x :: x in q0 && x !in q ==> x.meta.zid in seen
    requires it in q && it.meta.zid !in seen && forall x :: x in q ==> it.cost <= x.cost
    ensures Popped(seen, q0, it, q - multiset{it})
  {
    forall x | x in q0 && x.meta.zid !in seen && x.meta.zid != it.meta.zid ensures x in q - multiset{it} {
      assert x in q;
    }
  }

  /** What decides during one round whether a reference is queued. */
  datatype Gate = Gate(w: Net, seen: set<Zid>, closed: bool, unbounded: bool, maxCost: real) {
    predicate Admits(a: Arc, cost: real) {
      a.target in w.port && !closed && (unbounded || a.Price(cost) <= maxCost) && a.target !in seen
    }

    function Push(a: Arc, cost: real): (q: multiset<Item>) {
      if Admits(a, cost) then multiset{Offered(a, cost)} else multiset{}
    }

    function Pushes(arcs: seq<Arc>, cost: real): (q: multiset<Item>) {
      if arcs == [] then multiset{} else Push(arcs[0], cost) + Pushes(arcs[1..], cost)
    }

    lemma {:induction false} PushesConcat(s: seq<Arc>, t: seq<Arc>, cost: real)
      ensures Pushes(s + t, cost) == Pushes(s, cost) + Pushes(t, cost)
    {
      if s == [] {
        assert s + t == t;
      } else {
        assert (s + t)[1..] == s[1..] + t;
        PushesConcat(s[1..], t, cost);
      }
    }

    function Offered(a: Arc, cost: real): (x: Item)
      requires a.target in w.port
    {
      Item(a.Price(cost), w.port[a.target])
    }

    lemma {:induction false} PushesHas(arcs: seq<Arc>, cost: real, a: Arc)
      requires a in arcs && Admits(a, cost)
      ensures Offered(a, cost) in Pushes(arcs, cost)
    {
      if a != arcs[0] { PushesHas(arcs[1..], cost, a); }
    }

    lemma {:induction false} PushesFrom(arcs: seq<Arc>, cost: real, x: Item) returns (a: Arc)
      requires x in Pushes(arcs, cost)
      ensures a in arcs && Admits(a, cost) && x == Offered(a, cost)
    {
      if x in Push(arcs[0], cost) {
        a := arcs[0];
      } else {
        a := PushesFrom(arcs[1..], cost, x);
      }
    }
  }

  lemma StartQueued(w: Net, maxCost: real, q: multiset<Item>)
    requires forall x :: x in q <==> exists m :: m in w.starts && x == Item(1.0, m)
    ensures Queued(w, maxCost, [], q)
  {
    forall x ensures x in q <==> StartItem(w, x) {
      if StartItem(w, x) { assert x.meta in w.starts && x == Item(1.0, x.meta); }
    }
  }

  /** The invariant of the search loop. */
  ghost predicate Searching(w: Net, maxCost: real, maxCount: int, rs: seq<Item>, q: multiset<Item>) {
    |rs| <= maxCount && Chosen(w, maxCost, rs) && (|rs| < maxCount ==> Queued(w, maxCost, rs, q))
  }

  /** The search ends when the count is reached, or nothing undelivered is queued. */
  lemma FinishedSearch(w: Net, maxCost: real, maxCount: int, rs: seq<Item>, q: multiset<Item>)
    requires Searching(w, maxCost, maxCount, rs, q)
             && (|rs| == maxCount || forall x :: x in q ==> x.meta.zid in Seen(rs))
    ensures Greedy(w, maxCost, maxCount, rs)
  {
    if |rs| < maxCount {
      forall x ensures !Waiting(w, maxCost, rs, x) {
        assert x.meta.zid !in Seen(rs) ==> (x in q <==> Waiting(w, maxCost, rs, x));
      }
    }
  }

  lemma PopIsCheapest(w: Net, maxCost: real, rs: seq<Item>, q0: multiset<Item>, it: Item, q1: multiset<Item>)
    requires Queued(w, maxCost, rs, q0) && Popped(Seen(rs), q0, it, q1)
    ensures Cheapest(w, maxCost, rs, it)
  {
    forall x | Waiting(w, maxCost, rs, x) ensures it.cost <= x.cost { assert x in q0; }
  }

  /** The pushes of one round are exactly the offers of its result. */
  lemma PushesAreOffers(g: Gate, rs: seq<Item>, e: Item, x: Item)
    requires g.w.Valid() && g.seen == Seen(rs + [e]) && !g.closed && (g.unbounded <==> rs == [])
    requires e.meta.zid !in Seen(rs) && x.meta.zid !in g.seen
    ensures x in g.Pushes(g.w.arcs(e.meta), e.cost) <==> exists a :: Offer(g.w, g.maxCost, rs + [e], e, a, x)
  {
    var arcs, longer := g.w.arcs(e.meta), rs + [e];
    assert longer[|rs|] == e;
    if x in g.Pushes(arcs, e.cost) {
      var a := g.PushesFrom(arcs, e.cost, x);
      assert Offer(g.w, g.maxCost, longer, e, a, x);
    }
    forall a | Offer(g.w, g.maxCost, longer, e, a, x) ensures x in g.Pushes(arcs, e.cost) {
      assert x.meta.zid == a.target;
      g.PushesHas(arcs, e.cost, a);
    }
  }

  /** After one round: the result was one of the cheapest, and its offers are queued, unless the count is used up. */
  lemma RoundDone(g: Gate, maxCount: int, rs: seq<Item>, q0: multiset<Item>, e: Item, q1: multiset<Item>,
                  q2: multiset<Item>)
    requires g.w.Valid() && g.seen == Seen(rs + [e]) && (g.unbounded <==> rs == [])
             && (g.closed <==> |rs| + 1 >= maxCount)
    requires |rs| < maxCount && Searching(g.w, g.maxCost, maxCount, rs, q0) && Popped(Seen(rs), q0, e, q1)
    requires q2 == q1 + g.Pushes(g.w.arcs(e.meta), e.cost)
    ensures Searching(g.w, g.maxCost, maxCount, rs + [e], q2)
  {
    PopIsCheapest(g.w, g.maxCost, rs, q0, e, q1);
    ChosenSnoc(g.w, g.maxCost, rs, e);
    if !g.closed { RoundQueued(g, rs, q0, e, q1, q2); }
  }

  lemma RoundQueued(g: Gate, rs: seq<Item>, q0: multiset<Item>, e: Item, q1: multiset<Item>, q2: multiset<Item>)
    requires g.w.Valid() && g.seen == Seen(rs + [e]) && !g.closed && (g.unbounded <==> rs == [])
    requires Queued(g.w, g.maxCost, rs, q0) && Popped(Seen(rs), q0, e, q1)
    requires q2 == q1 + g.Pushes(g.w.arcs(e.meta), e.cost)
    ensures Queued(g.w, g.maxCost, rs + [e], q2)
  {
    SeenSnoc(rs, e);
    forall x: Item | x.meta.zid !in Seen(rs + [e]) ensures x in q2 <==> Waiting(g.w, g.maxCost, rs + [e], x) {
      WaitingSnoc(g.w, g.maxCost, rs, e, x);
      PushesAreOffers(g, rs, e, x);
      assert x in q1 <==> x in q0;
    }
  }

  // ---------- Costs that fall ----------

  /** The `i`-th result was offered by the one before, below the cost of that one. */
  ghost predicate Lowers(w: Net, maxCost: real, rs: seq<Item>, i: int, a: Arc) {
    && 0 < i < |rs| && Offer(w, maxCost, rs[..i], rs[i - 1], a, rs[i])
    && a.Price(rs[i - 1].cost) < rs[i - 1].cost
  }

  lemma OfferedLast(w: Net, maxCost: real, rs: seq<Item>, it: Item, x: Item) returns (a: Arc)
    requires Cheapest(w, maxCost, rs, it) && Waiting(w, maxCost, rs + [it], x) && x.cost < it.cost
    ensures Offer(w, maxCost, rs + [it], it, a, x)
  {
    WaitingSnoc(w, maxCost, rs, it, x);
    a :| Offer(w, maxCost, rs + [it], it, a, x);
  }

  lemma FallsByOffer(w: Net, maxCost: real, rs: seq<Item>, i: int) returns (a: Arc)
    requires Chosen(w, maxCost, rs) && 0 < i < |rs| && rs[i].cost < rs[i - 1].cost
    ensures Lowers(w, maxCost, rs, i, a)
  {
    var front := rs[..i - 1];
    assert rs[..i] == front + [rs[i - 1]];
    assert Cheapest(w, maxCost, front, rs[i - 1]) && Cheapest(w, maxCost, rs[..i], rs[i]);
    a := OfferedLast(w, maxCost, front, rs[i - 1], rs[i]);
  }

  /** The results come in the order of their costs iff none of them offers the very next one below its own cost. */
  lemma AscendingIff(w: Net, maxCost: real, rs: seq<Item>)
    requires Chosen(w, maxCost, rs)
    ensures (forall i :: 0 < i < |rs| ==> rs[i - 1].cost <= rs[i].cost) <==>
            forall i, a :: !Lowers(w, maxCost, rs, i, a)
  {
    if forall i, a :: !Lowers(w, maxCost, rs, i, a) {
      forall i | 0 < i < |rs| ensures rs[i - 1].cost <= rs[i].cost {
        if rs[i].cost < rs[i - 1].cost { var a := FallsByOffer(w, maxCost, rs, i); }
      }
    }
  }

  lemma FirstResult(w: Net, maxCost: real, maxCount: int, s: Meta, rs: seq<Item>)
    requires w.starts == [s] && maxCount > 0 && Greedy(w, maxCost, maxCount, rs)
    ensures |rs| > 0 && rs[0] == Item(1.0, s) && rs[..1] == [Item(1.0, s)]
  {
    assert rs[..0] == [] && Waiting(w, maxCost, [], Item(1.0, s));
    NextResult(w, maxCost, maxCount, rs, 0, Item(1.0, s));
    assert StartItem(w, rs[0]);
  }

  /** What waits after the first result, if this refers to one other zettel only. */
  lemma SecondResult(w: Net, maxCost: real, maxCount: int, s: Meta, a: Arc, rs: seq<Item>)
    requires w.Valid() && w.starts == [s] && maxCount > 1 && Greedy(w, maxCost, maxCount, rs)
    requires forall x :: x in w.arcs(s) && x.target != s.zid ==> x == a
    requires a in w.arcs(s) && a.target in w.port && a.target != s.zid
    ensures |rs| > 1 && rs[0] == Item(1.0, s) && rs[1] == Item(a.Price(1.0), w.port[a.target])
  {
    FirstResult(w, maxCost, maxCount, s, rs);
    OfferWaits(w, maxCost, rs[..1], rs[0], a);
    NextResult(w, maxCost, maxCount, rs, 1, Item(a.Price(1.0), w.port[a.target]));
    var e, x :| Offer(w, maxCost, rs[..1], e, x, rs[1]);
    assert x.target != s.zid;
  }

  /** A reference that lowers the cost far enough makes its target come too late. */
  lemma DescendsBy(w: Net, maxCost: real, maxCount: int, s: Meta, a: Arc, b: Arc, rs: seq<Item>)
    requires w.Valid() && w.starts == [s] && maxCount > 2 && Greedy(w, maxCost, maxCount, rs)
    requires forall x :: x in w.arcs(s) && x.target != s.zid ==> x == a
    requires a in w.arcs(s) && a.target in w.port && a.target != s.zid
    requires b in w.arcs(w.port[a.target]) && b.target in w.port && b.target != s.zid && b.target != a.target
    requires b.Price(a.Price(1.0)) < a.Price(1.0) && b.Price(a.Price(1.0)) <= maxCost
    ensures |rs| > 2 && rs[2].cost < rs[1].cost
  {
    SecondResult(w, maxCost, maxCount, s, a, rs);
    var front := rs[..2];
    assert front == [rs[0], rs[1]] && front[1] == rs[1];
    OfferWaits(w, maxCost, front, rs[1], b);
    NextResult(w, maxCost, maxCount, rs, 2, Item(b.Price(rs[1].cost), w.port[b.target]));
  }
}
