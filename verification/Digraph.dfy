/**
 Directed graphs of zettel identifiers: depth-first closure, cycle test, and the reverse
 topological sort that repeatedly peels off the vertices without outgoing edges.
 A nil `*Set` and an empty one are the same successor set here.
 */
module Digraphs {
  import opened Zids

  type Graph = map<Zid, set<Zid>>

  // ---------- Graph theory the operations are specified with ----------

  function Succ(g: Graph, v: Zid): (r: set<Zid>) {
    if v in g then g[v] else {}
  }

  ghost predicate Walk(g: Graph, p: seq<Zid>) {
    p != [] && forall i :: 0 <= i < |p| - 1 ==> p[i + 1] in Succ(g, p[i])
  }

  /** `b` can be reached from `a` over one or more edges. */
  ghost predicate Reaches(g: Graph, a: Zid, b: Zid) {
    exists p :: Walk(g, p) && |p| >= 2 && p[0] == a && p[|p| - 1] == b
  }

  ghost predicate Cyclic(g: Graph) {
    exists v :: Reaches(g, v, v)
  }

  /** Every edge ends in a vertex. */
  ghost predicate Closed(g: Graph) {
    forall v :: v in g ==> g[v] <= g.Keys
  }

  /** A walk whose last node has no vertex entry, or was visited before. */
  ghost predicate Trapped(g: Graph, p: seq<Zid>) {
    Walk(g, p) && (p[|p| - 1] !in g || exists i :: 0 <= i < |p| - 1 && p[i] == p[|p| - 1])
  }

  /** Some walk from `v` runs into a cycle or leaves the vertex set. */
  ghost predicate Doomed(g: Graph, v: Zid) {
    exists p :: Trapped(g, p) && p[0] == v
  }

  lemma ReachStep(g: Graph, a: Zid, b: Zid)
    requires b in Succ(g, a)
    ensures Reaches(g, a, b)
  {
    assert Walk(g, [a, b]) && [a, b][0] == a && [a, b][|[a, b]| - 1] == b;
  }

  lemma ReachSource(g: Graph, a: Zid, b: Zid)
    requires Reaches(g, a, b)
    ensures a in g
  {
    var p :| Walk(g, p) && |p| >= 2 && p[0] == a && p[|p| - 1] == b;
    assert p[0 + 1] in Succ(g, p[0]);
  }

  lemma ReachExtend(g: Graph, a: Zid, b: Zid, c: Zid)
    requires Reaches(g, a, b) && c in Succ(g, b)
    ensures Reaches(g, a, c)
  {
    var p :| Walk(g, p) && |p| >= 2 && p[0] == a && p[|p| - 1] == b;
    var q := p + [c];
    assert Walk(g, q) && |q| >= 2 && q[0] == a && q[|q| - 1] == c;
  }

  /** A set that takes in all successors of `a` and of its own members holds all that `a` reaches. */
  lemma ReachInvariant(g: Graph, a: Zid, s: set<Zid>, b: Zid)
    requires forall w :: w in Succ(g, a) && w in g ==> w in s
    requires forall u, w :: u in s && w in Succ(g, u) && w in g ==> w in s
    requires Reaches(g, a, b) && b in g
    ensures b in s
  {
    var p :| Walk(g, p) && |p| >= 2 && p[0] == a && p[|p| - 1] == b;
    forall i | 0 <= i < |p| ensures p[i] in g {
      if i < |p| - 1 { assert p[i + 1] in Succ(g, p[i]); }
    }
    assert p[0 + 1] in Succ(g, p[0]);
    for i := 1 to |p| - 1
      invariant p[i] in s
    {
      assert p[i + 1] in Succ(g, p[i]);
    }
  }

  // ---------- The specification of SortReverse ----------

  function Sinks(g: Graph): (r: set<Zid>) {
    set v | v in g && g[v] == {}
  }

  function Without(g: Graph, s: set<Zid>): (r: Graph) {
    map v | v in g && v !in s :: g[v] - s
  }

  lemma WithoutSmaller(g: Graph, s: set<Zid>)
    requires s <= g.Keys && s != {}
    ensures |Without(g, s)| < |g|
  {
    assert Without(g, s).Keys == g.Keys - s;
    var x :| x in s;
    assert |g.Keys - s| + |s| == |g.Keys| by { assert g.Keys == (g.Keys - s) + s; }
  }

  /** Peel off the sinks, in descending order, until none are left. */
  ghost function PeelOrder(g: Graph): (r: seq<Zid>)
    decreases |g|
  {
    var t := Sinks(g);
    if t == {} then [] else
    WithoutSmaller(g, t);
    Layer(g) + PeelOrder(Without(g, t))
  }

  ghost function Layer(g: Graph): (r: seq<Zid>)
    ensures forall x :: x in r <==> x in Sinks(g)
  {
    Reversed(Sorted(Sinks(g)))
  }

  lemma PeelStep(g: Graph)
    requires Sinks(g) != {}
    ensures |Without(g, Sinks(g))| < |g|
    ensures PeelOrder(g) == Layer(g) + PeelOrder(Without(g, Sinks(g)))
  {
    WithoutSmaller(g, Sinks(g));
  }

  lemma {:induction false} PeelVertices(g: Graph)
    ensures forall x :: x in PeelOrder(g) ==> x in g
    decreases |g|
  {
    if Sinks(g) != {} {
      PeelStep(g);
      PeelVertices(Without(g, Sinks(g)));
    }
  }

  lemma {:induction false} PeelNoDup(g: Graph)
    ensures NoDup(PeelOrder(g))
    decreases |g|
  {
    var t := Sinks(g);
    if t != {} {
      PeelStep(g);
      PeelVertices(Without(g, t));
      PeelNoDup(Without(g, t));
      SortedAscending(t);
      ReversedAt(Sorted(t));
      NoDupConcat(Layer(g), PeelOrder(Without(g, t)));
    }
  }

  lemma NoDupConcat(a: seq<Zid>, b: seq<Zid>)
    requires NoDup(a) && NoDup(b) && forall x :: x in a ==> x !in b
    ensures NoDup(a + b)
  {
    var c := a + b;
    forall i, j | 0 <= i < j < |c| ensures c[i] != c[j] {
      if i < |a| <= j { assert c[i] in a && c[j] in b; }
    }
  }

  /** A graph in which every vertex has a successor traps every walk: finitely many vertices. */
  lemma {:induction false} NoSinkTraps(g: Graph, p: seq<Zid>)
    requires Sinks(g) == {} && Walk(g, p) && NoDup(p)
    ensures Doomed(g, p[0])
    decreases |g| - |p|
  {
    var last := p[|p| - 1];
    if last !in g {
      assert Trapped(g, p);
    } else {
      assert last !in Sinks(g);
      var w :| w in g[last];
      var q := p + [w];
      assert Walk(g, q) && q[0] == p[0];
      if w in p {
        var i :| 0 <= i < |p| && p[i] == w;
        assert q[i] == q[|q| - 1];
        assert Trapped(g, q);
      } else {
        forall i | 0 <= i < |p| ensures p[i] in g {
          if i < |p| - 1 { assert p[i + 1] in Succ(g, p[i]); }
        }
        NoDupBound(p, g.Keys);
        assert NoDup(q);
        NoSinkTraps(g, q);
      }
    }
  }

  lemma {:induction false} NoDupBound<T>(p: seq<T>, s: set<T>)
    requires NoDup(p) && forall x :: x in p ==> x in s
    ensures |p| <= |s|
  {
    if p != [] {
      var x := p[0];
      assert x in s;
      assert forall y :: y in p[1..] ==> y in p && y != x;
      NoDupBound(p[1..], s - {x});
    }
  }

  lemma DoomedDown(g: Graph, v: Zid)
    requires Doomed(g, v)
    ensures v !in Sinks(g)
    ensures v in g ==> Doomed(Without(g, Sinks(g)), v)
  {
    var t := Sinks(g);
    var h := Without(g, t);
    var p :| Trapped(g, p) && p[0] == v;
    var n := |p| - 1;
    forall i | 0 <= i <= n ensures p[i] !in t {
      if i < n {
        assert p[i + 1] in Succ(g, p[i]);
      } else if p[n] in g {
        var k :| 0 <= k < n && p[k] == p[n];
        assert p[k + 1] in Succ(g, p[k]);
      }
    }
    if v in g {
      forall i | 0 <= i < n ensures p[i + 1] in Succ(h, p[i]) {
        assert p[i + 1] in Succ(g, p[i]);
      }
      assert Trapped(h, p);
    }
  }

  lemma DoomedUp(g: Graph, v: Zid)
    requires Doomed(Without(g, Sinks(g)), v) && v in Without(g, Sinks(g))
    ensures Doomed(g, v)
  {
    var t := Sinks(g);
    var h := Without(g, t);
    var p :| Trapped(h, p) && p[0] == v;
    var n := |p| - 1;
    forall i | 0 <= i < n ensures p[i + 1] in Succ(g, p[i]) {
      assert p[i + 1] in Succ(h, p[i]);
    }
    if n > 0 { assert p[n - 1 + 1] in Succ(h, p[n - 1]); }
    assert Trapped(g, p);
  }

  /** Exactly the vertices from which no walk reaches a cycle or leaves the graph are sorted. */
  lemma {:induction false} PeelExact(g: Graph, v: Zid)
    ensures v in PeelOrder(g) <==> v in g && !Doomed(g, v)
    decreases |g|
  {
    var t := Sinks(g);
    if t == {} {
      if v in g { NoSinkTraps(g, [v]); }
    } else {
      WithoutSmaller(g, t);
      var h := Without(g, t);
      assert v in PeelOrder(g) <==> v in Layer(g) || v in PeelOrder(h);
      PeelExact(h, v);
      if Doomed(g, v) { DoomedDown(g, v); }
      if v in h && Doomed(h, v) { DoomedUp(g, v); }
    }
  }

  /** First the sinks, then what is sorted without them. */
  lemma PeelAt(g: Graph, i: nat)
    requires i < |PeelOrder(g)|
    ensures var n, h := |Layer(g)|, Without(g, Sinks(g));
            |h| < |g| && if i < n then PeelOrder(g)[i] == Layer(g)[i] && Layer(g)[i] in Sinks(g)
            else i - n < |PeelOrder(h)| && PeelOrder(g)[i] == PeelOrder(h)[i - n] && PeelOrder(g)[i] in h
  {
    PeelStep(g);
    PeelVertices(Without(g, Sinks(g)));
    ConcatAt(Layer(g), PeelOrder(Without(g, Sinks(g))), i);
  }

  lemma ConcatAt(a: seq<Zid>, b: seq<Zid>, i: nat)
    requires i < |a| + |b|
    ensures if i < |a| then (a + b)[i] == a[i] && a[i] in a else (a + b)[i] == b[i - |a|] && b[i - |a|] in b
  {}

  lemma SinkAt(g: Graph, w: Zid) returns (j: nat)
    requires w in Sinks(g)
    ensures j < |Layer(g)| && j < |PeelOrder(g)| && PeelOrder(g)[j] == w
  {
    PeelStep(g);
    j :| 0 <= j < |Layer(g)| && Layer(g)[j] == w;
  }

  /** Each edge's target comes before its source. */
  lemma {:induction false} PeelTopological(g: Graph, i: nat, w: Zid) returns (j: nat)
    requires i < |PeelOrder(g)| && w in Succ(g, PeelOrder(g)[i])
    ensures j < i && PeelOrder(g)[j] == w
    decreases |g|
  {
    var n, h := |Layer(g)|, Without(g, Sinks(g));
    PeelAt(g, i);
    if w in Sinks(g) {
      j := SinkAt(g, w);
    } else {
      assert w in Succ(h, PeelOrder(h)[i - n]);
      var k := PeelTopological(h, i - n, w);
      j := n + k;
      PeelAt(g, j);
    }
  }

  /** On a graph whose edges end in vertices, all vertices are sorted iff there is no cycle. */
  lemma PeelDag(g: Graph)
    requires Closed(g)
    ensures (forall v :: v in g ==> v in PeelOrder(g)) <==> !Cyclic(g)
  {
    PeelVertices(g);
    if Cyclic(g) {
      var v :| Reaches(g, v, v);
      var p :| Walk(g, p) && |p| >= 2 && p[0] == v && p[|p| - 1] == v;
      assert Trapped(g, p);
      assert p[1] in Succ(g, p[0]);
      PeelExact(g, v);
    } else {
      forall v | v in g ensures v in PeelOrder(g) {
        PeelExact(g, v);
        if Doomed(g, v) { DoomedHasCycle(g, v); }
      }
    }
  }

  lemma DoomedHasCycle(g: Graph, v: Zid)
    requires Closed(g) && v in g && Doomed(g, v)
    ensures Cyclic(g)
  {
    var p :| Trapped(g, p) && p[0] == v;
    var n := |p| - 1;
    if n > 0 { assert p[n - 1 + 1] in Succ(g, p[n - 1]); }
    var k :| 0 <= k < n && p[k] == p[n];
    var q := p[k..];
    forall i | 0 <= i < |q| - 1 ensures q[i + 1] in Succ(g, q[i]) {
      assert p[k + i + 1] in Succ(g, p[k + i]);
    }
    assert Walk(g, q);
    assert Reaches(g, p[n], p[n]);
  }

  // ---------- The operations ----------

  function WithVertex(g: Graph, v: Zid): (r: Graph) {
    if v in g then g else g[v := {}]
  }

  /** Edges from `curr` to all of `targets`. */
  function Joined(g: Graph, curr: Zid, targets: set<Zid>): (r: Graph) {
    map v | v in g.Keys + targets :: Succ(g, v) + if v == curr then targets else {}
  }

  /** Edges from all of `sources` to `vertex`. */
  function BackJoined(g: Graph, sources: set<Zid>, vertex: Zid): (r: Graph) {
    map v | v in g.Keys + sources :: Succ(g, v) + if v in sources then {vertex} else {}
  }

  lemma EmptySteps(g: Graph, v: Zid)
    ensures Without(g, {}) == g && Joined(g, v, {}) == g && BackJoined(g, {}, v) == g
  {
    assert forall u :: u in g ==> g[u] - {} == g[u] && g[u] + {} == g[u];
    assert Without(g, {}).Keys == g.Keys;
    assert Joined(g, v, {}).Keys == g.Keys;
    assert BackJoined(g, {}, v).Keys == g.Keys;
    assert Without(g, {}) == g;
    assert Joined(g, v, {}) == g;
    assert BackJoined(g, {}, v) == g;
  }

  lemma WithoutStep(g: Graph, s: set<Zid>, t: Zid)
    ensures Without(Without(g, s), {t}) == Without(g, s + {t})
  {
    var a, b := Without(Without(g, s), {t}), Without(g, s + {t});
    assert a.Keys == b.Keys;
    forall v | v in a ensures a[v] == b[v] {
      assert g[v] - s - {t} == g[v] - (s + {t});
    }
  }

  lemma JoinStep(g: Graph, curr: Zid, done: set<Zid>, n: Zid)
    requires curr in g
    ensures var h := WithVertex(Joined(g, curr, done), n);
            h[curr := h[curr] + {n}] == Joined(g, curr, done + {n})
  {
    var h := WithVertex(Joined(g, curr, done), n);
    var a, b := h[curr := h[curr] + {n}], Joined(g, curr, done + {n});
    assert a.Keys == b.Keys;
    forall v | v in a ensures a[v] == b[v] {}
  }

  lemma BackJoinStep(g: Graph, done: set<Zid>, n: Zid, vertex: Zid)
    ensures var h := WithVertex(BackJoined(g, done, vertex), n);
            h[n := h[n] + {vertex}] == BackJoined(g, done + {n}, vertex)
  {
    var h := WithVertex(BackJoined(g, done, vertex), n);
    var a, b := h[n := h[n] + {vertex}], BackJoined(g, done + {n}, vertex);
    assert a.Keys == b.Keys;
    forall v | v in a ensures a[v] == b[v] {}
  }

  /** The edges out of `done`, turned round. */
  function Transposed(g: Graph, done: set<Zid>): (r: Graph)
    requires done <= g.Keys
  {
    map v | v in done + Targets(g, done) :: set u | u in done && v in g[u]
  }

  function Targets(g: Graph, done: set<Zid>): (r: set<Zid>)
    requires done <= g.Keys
  {
    set u, v | u in done && v in g[u] :: v
  }

  lemma TransposeStep(g: Graph, done: set<Zid>, n: Zid)
    requires done <= g.Keys && n in g && n !in done
    ensures Transposed(g, done + {n}) == BackJoined(WithVertex(Transposed(g, done), n), g[n], n)
  {
    var h := WithVertex(Transposed(g, done), n);
    var a, b := Transposed(g, done + {n}), BackJoined(h, g[n], n);
    assert Targets(g, done + {n}) == Targets(g, done) + g[n];
    assert a.Keys == b.Keys;
    forall v | v in a ensures a[v] == b[v] {}
  }

  /** Reversal turns every walk round, so it keeps cycles. */
  lemma TransposeReaches(g: Graph, a: Zid, b: Zid)
    ensures Reaches(g, a, b) <==> Reaches(Transposed(g, g.Keys), b, a)
  {
    var h := Transposed(g, g.Keys);
    if Reaches(g, a, b) {
      var p :| Walk(g, p) && |p| >= 2 && p[0] == a && p[|p| - 1] == b;
      var q := Reversed(p);
      ReversedAt(p);
      forall i | 0 <= i < |q| - 1 ensures q[i + 1] in Succ(h, q[i]) {
        var k := |p| - 2 - i;
        assert p[k + 1] in Succ(g, p[k]);
      }
      assert Walk(h, q);
    }
    if Reaches(h, b, a) {
      var p :| Walk(h, p) && |p| >= 2 && p[0] == b && p[|p| - 1] == a;
      var q := Reversed(p);
      ReversedAt(p);
      forall i | 0 <= i < |q| - 1 ensures q[i + 1] in Succ(g, q[i]) {
        var k := |p| - 2 - i;
        assert p[k + 1] in Succ(h, p[k]);
      }
      assert Walk(g, q);
    }
  }

  /** Reversing twice gives the graph back, provided its edges end in vertices. */
  lemma TransposeTwice(g: Graph)
    ensures var h := Transposed(g, g.Keys); Transposed(h, h.Keys) == g <==> Closed(g)
  {
    var h := Transposed(g, g.Keys);
    var k := Transposed(h, h.Keys);
    assert h.Keys == g.Keys + Targets(g, g.Keys);
    if Closed(g) {
      assert h.Keys == g.Keys;
      assert Targets(h, h.Keys) <= h.Keys;
      assert k.Keys == g.Keys;
      forall v | v in k ensures k[v] == g[v] {
        assert forall u :: u in k[v] <==> u in h && v in h[u];
        assert forall u :: u in g[v] ==> u in h;
      }
    } else {
      var v :| v in g && !(g[v] <= g.Keys);
      var u :| u in g[v] && u !in g;
      assert u in Targets(g, g.Keys);
      assert u in k;
    }
  }

  /** What the closure walk has built: marked vertices are complete, the others are pending. */
  ghost predicate Partial(g: Graph, tc: Graph, marked: set<Zid>, pending: set<Zid>) {
    && (forall w :: w in marked ==> w in tc && tc[w] == Succ(g, w))
    && (forall w :: w in tc && w !in marked ==> tc[w] == {} && w in pending)
  }

  /** Where the closure walk has been: nothing unreachable, and no successor forgotten. */
  ghost predicate Frontier(g: Graph, zid: Zid, marked: set<Zid>, pending: set<Zid>) {
    && zid in marked + pending
    && (forall w :: w in marked + pending ==> w == zid || (Reaches(g, zid, w) && w in Targets(g, g.Keys)))
    && (forall u :: u in marked ==> Succ(g, u) <= marked + pending)
  }

  ghost predicate ClosureInv(g: Graph, zid: Zid, tc: Graph, marked: set<Zid>, pending: set<Zid>) {
    Partial(g, tc, marked, pending) && Frontier(g, zid, marked, pending)
  }

  lemma FrontierStep(g: Graph, zid: Zid, marked: set<Zid>, rest: set<Zid>, curr: Zid)
    requires Frontier(g, zid, marked, rest + {curr})
    ensures Frontier(g, zid, marked + {curr}, rest + Succ(g, curr))
    ensures curr in {zid} + Targets(g, g.Keys)
  {
    assert curr in marked + (rest + {curr});
    forall w | w in Succ(g, curr) ensures Reaches(g, zid, w) && w in Targets(g, g.Keys) {
      if curr == zid { ReachStep(g, zid, w); } else { ReachExtend(g, zid, curr, w); }
    }
  }

  lemma PartialStep(g: Graph, tc: Graph, marked: set<Zid>, rest: set<Zid>, curr: Zid)
    requires Partial(g, tc, marked, rest + {curr}) && curr !in marked
    ensures Partial(g, Joined(WithVertex(tc, curr), curr, Succ(g, curr)), marked + {curr}, rest + Succ(g, curr))
  {
    JoinMeaning(WithVertex(tc, curr), curr, Succ(g, curr));
  }

  lemma JoinMeaning(g: Graph, curr: Zid, targets: set<Zid>)
    requires curr in g
    ensures Joined(g, curr, targets).Keys == g.Keys + targets
    ensures Joined(g, curr, targets)[curr] == g[curr] + targets
    ensures forall w :: w in g.Keys + targets && w != curr ==> Joined(g, curr, targets)[w] == Succ(g, w)
  {}

  function Members(s: seq<Zid>): (r: set<Zid>) {
    set x | x in s
  }

  lemma ClosureSkip(g: Graph, zid: Zid, tc: Graph, marked: set<Zid>, rest: seq<Zid>, curr: Zid)
    requires ClosureInv(g, zid, tc, marked, Members(rest + [curr])) && curr in marked
    ensures ClosureInv(g, zid, tc, marked, Members(rest))
  {
    assert Members(rest + [curr]) == Members(rest) + {curr};
  }

  lemma ClosureStep(g: Graph, zid: Zid, tc: Graph, marked: set<Zid>, rest: seq<Zid>, curr: Zid)
    requires ClosureInv(g, zid, tc, marked, Members(rest + [curr])) && curr !in marked
    ensures ClosureInv(g, zid, Joined(WithVertex(tc, curr), curr, Succ(g, curr)), marked + {curr},
                       Members(rest + Sorted(Succ(g, curr))))
    ensures curr in {zid} + Targets(g, g.Keys)
  {
    assert Members(rest + [curr]) == Members(rest) + {curr};
    assert Members(rest + Sorted(Succ(g, curr))) == Members(rest) + Succ(g, curr);
    FrontierStep(g, zid, marked, Members(rest), curr);
    PartialStep(g, tc, marked, Members(rest), curr);
  }

  lemma ClosureDone(g: Graph, zid: Zid, tc: Graph, marked: set<Zid>)
    requires ClosureInv(g, zid, tc, marked, {})
    ensures forall w :: w in tc <==> w == zid || Reaches(g, zid, w)
    ensures forall w :: w in tc ==> tc[w] == Succ(g, w)
  {
    forall w | Reaches(g, zid, w) ensures w in tc {
      var p :| Walk(g, p) && |p| >= 2 && p[0] == zid && p[|p| - 1] == w;
      for i := 0 to |p| - 1
        invariant p[i] in marked
      {
        assert p[i + 1] in Succ(g, p[i]);
      }
    }
  }

  class Digraph {
    var adj: Graph

    constructor ()
      ensures adj == map[]
    {
      adj := map[];
    }

    method AddVertex(zid: Zid)
      modifies this
      ensures adj == WithVertex(old(adj), zid)
    {
      if zid !in adj {
        adj := adj[zid := {}];
      }
    }

    method AddEdge(fromZid: Zid, toZid: Zid)
      requires fromZid in adj && toZid in adj
      modifies this
      ensures adj == old(adj)[fromZid := old(adj)[fromZid] + {toZid}]
    {
      adj := adj[fromZid := adj[fromZid] + {toZid}];
    }

    /** Removes a vertex together with every edge to it. */
    method RemoveVertex(zid: Zid)
      modifies this
      ensures adj == Without(old(adj), {zid})
    {
      adj := adj - {zid};
      var todo := adj.Keys;
      while todo != {}
        invariant todo <= adj.Keys == old(adj).Keys - {zid}
        invariant forall v :: v in todo ==> adj[v] == old(adj)[v]
        invariant forall v :: v in adj && v !in todo ==> adj[v] == old(adj)[v] - {zid}
      {
        var vertex :| vertex in todo;
        todo := todo - {vertex};
        adj := adj[vertex := adj[vertex] - {zid}];
      }
    }

    method RemoveVertices(terms: set<Zid>)
      modifies this
      ensures adj == Without(old(adj), terms)
    {
      var todo := terms;
      ghost var done: set<Zid> := {};
      EmptySteps(adj, 0);
      while todo != {}
        invariant todo + done == terms
        invariant adj == Without(old(adj), done)
      {
        var t := Min(todo);
        WithoutStep(old(adj), done, t);
        todo, done := todo - {t}, done + {t};
        RemoveVertex(t);
      }
    }

    /** The body of the closure walk's `ForEach`: edges from `curr` to new or known vertices. */
    method Connect(curr: Zid, targets: set<Zid>)
      requires curr in adj
      modifies this
      ensures adj == Joined(old(adj), curr, targets)
    {
      var todo := targets;
      ghost var done: set<Zid> := {};
      EmptySteps(adj, curr);
      while todo != {}
        invariant todo + done == targets
        invariant adj == Joined(old(adj), curr, done)
      {
        var next := Min(todo);
        JoinStep(old(adj), curr, done, next);
        todo, done := todo - {next}, done + {next};
        AddVertex(next);
        AddEdge(curr, next);
      }
    }

    /** The body of the reversal's `ForEach`: edges from all `sources` to `vertex`. */
    method ConnectBack(sources: set<Zid>, vertex: Zid)
      requires vertex in adj
      modifies this
      ensures adj == BackJoined(old(adj), sources, vertex)
    {
      var todo := sources;
      ghost var done: set<Zid> := {};
      EmptySteps(adj, vertex);
      while todo != {}
        invariant todo + done == sources
        invariant adj == BackJoined(old(adj), done, vertex)
      {
        var next := Min(todo);
        BackJoinStep(old(adj), done, next, vertex);
        todo, done := todo - {next}, done + {next};
        AddVertex(next);
        AddEdge(next, vertex);
      }
    }

    method Clone() returns (r: Digraph)
      ensures fresh(r) && r.adj == adj
    {
      r := new Digraph();
      r.adj := adj;
    }

    /** The vertices no edge leads to. */
    method Originators() returns (origs: set<Zid>)
      ensures forall v :: v in origs <==> v in adj && forall u :: v !in Succ(adj, u)
    {
      origs := adj.Keys;
      var todo := adj.Keys;
      while todo != {}
        invariant todo <= adj.Keys
        invariant forall v :: v in origs <==> v in adj && forall u :: u !in todo ==> v !in Succ(adj, u)
      {
        var vertex :| vertex in todo;
        ghost var before := todo;
        todo := todo - {vertex};
        ghost var prev := origs;
        origs := origs - adj[vertex];
        forall v ensures v in origs <==> v in adj && forall u :: u !in todo ==> v !in Succ(adj, u) {
          assert forall u :: u !in todo <==> u !in before || u == vertex;
        }
      }
    }

    /** The vertices without an outgoing edge. */
    method Terminators() returns (terms: set<Zid>)
      ensures terms == Sinks(adj)
    {
      terms := {};
      var todo := adj.Keys;
      while todo != {}
        invariant todo <= adj.Keys
        invariant terms == Sinks(adj) - todo
      {
        var vertex :| vertex in todo;
        todo := todo - {vertex};
        if adj[vertex] == {} { terms := terms + {vertex}; }
      }
    }

    /** The vertices reachable over one or more edges. */
    method ReachableVertices(zid: Zid) returns (tc: set<Zid>)
      ensures forall w :: w in tc <==> w in adj && Reaches(adj, zid, w)
    {
      tc := {};
      if |adj| == 0 { return; }
      var stack := Sorted(Succ(adj, zid));
      forall w | w in Succ(adj, zid) ensures Reaches(adj, zid, w) { ReachStep(adj, zid, w); }
      while stack != []
        invariant tc <= adj.Keys
        invariant forall w :: w in tc || w in stack ==> Reaches(adj, zid, w)
        invariant forall w :: w in Succ(adj, zid) && w in adj ==> w in tc || w in stack
        invariant forall u, w :: u in tc && w in Succ(adj, u) && w in adj ==> w in tc || w in stack
        decreases adj.Keys - tc, |stack|
      {
        var last := |stack| - 1;
        var curr := stack[last];
        ghost var before := stack;
        assert before == before[..last] + [curr];
        stack := stack[..last];
        assert forall w :: w in before <==> w in stack || w == curr;
        if curr in tc || curr !in adj { continue; }
        assert curr in before;
        tc := tc + {curr};
        var next := Sorted(adj[curr]);
        forall w | w in next ensures Reaches(adj, zid, w) { ReachExtend(adj, zid, curr, w); }
        stack := stack + next;
      }
      forall w | w in adj && Reaches(adj, zid, w) ensures w in tc {
        ReachInvariant(adj, zid, tc, w);
      }
    }

    /** Answers true exactly when there is no cycle; otherwise names a vertex on a cycle. */
    method IsDAG() returns (zid: Zid, ok: bool)
      ensures ok <==> !Cyclic(adj)
      ensures !ok ==> zid in adj && Reaches(adj, zid, zid)
      ensures ok ==> zid == INVALID
    {
      var todo := adj.Keys;
      while todo != {}
        invariant todo <= adj.Keys
        invariant forall v :: v in adj && v !in todo ==> !Reaches(adj, v, v)
      {
        var vertex :| vertex in todo;
        todo := todo - {vertex};
        var r := ReachableVertices(vertex);
        if vertex in r { return vertex, false; }
      }
      forall v ensures !Reaches(adj, v, v) {
        if Reaches(adj, v, v) { ReachSource(adj, v, v); }
      }
      return INVALID, true;
    }

    /** The subgraph of everything reachable from `zid`, and `zid` itself. */
    method TransitiveClosure(zid: Zid) returns (tc: Digraph)
      ensures fresh(tc)
      ensures |adj| == 0 ==> tc.adj == map[]
      ensures |adj| > 0 ==> forall w :: w in tc.adj <==> w == zid || Reaches(adj, zid, w)
      ensures forall w :: w in tc.adj ==> tc.adj[w] == Succ(adj, w)
    {
      tc := new Digraph();
      if |adj| == 0 { return; }
      var marked: set<Zid> := {};
      var stack := [zid];
      while stack != []
        invariant fresh(tc) && unchanged(this)
        invariant ClosureInv(adj, zid, tc.adj, marked, Members(stack))
        decreases {zid} + Targets(adj, adj.Keys) - marked, |stack|
      {
        var pos := |stack| - 1;
        var curr := stack[pos];
        assert stack == stack[..pos] + [curr];
        stack := stack[..pos];
        if curr in marked {
          ClosureSkip(adj, zid, tc.adj, marked, stack, curr);
          continue;
        }
        ClosureStep(adj, zid, tc.adj, marked, stack, curr);
        tc.AddVertex(curr);
        tc.Connect(curr, Succ(adj, curr));
        stack := stack + Sorted(Succ(adj, curr));
        marked := marked + {curr};
      }
      ClosureDone(adj, zid, tc.adj, marked);
    }

    /** All edges turned round; an edge's end point becomes a vertex even if it was none. */
    method Reverse() returns (revDg: Digraph)
      ensures fresh(revDg) && revDg.adj == Transposed(adj, adj.Keys)
    {
      revDg := new Digraph();
      ghost var done: set<Zid> := {};
      var todo := adj.Keys;
      while todo != {}
        invariant fresh(revDg) && unchanged(this)
        invariant todo + done == adj.Keys && todo !! done
        invariant revDg.adj == Transposed(adj, done)
      {
        var vertex :| vertex in todo;
        TransposeStep(adj, done, vertex);
        todo, done := todo - {vertex}, done + {vertex};
        revDg.AddVertex(vertex);
        revDg.ConnectBack(adj[vertex], vertex);
      }
    }

    /**
     The reverse topological order. It always terminates; what a cycle or a dangling edge keeps
     from ever becoming a sink is left out.
     */
    method SortReverse() returns (sl: seq<Zid>)
      ensures sl == PeelOrder(adj)
    {
      sl := [];
      if |adj| == 0 { return; }
      var tempDg := Clone();
      while |tempDg.adj| > 0
        invariant fresh(tempDg) && unchanged(this)
        invariant sl + PeelOrder(tempDg.adj) == PeelOrder(adj)
        decreases |tempDg.adj|
      {
        var terms := tempDg.Terminators();
        if terms == {} { break; }
        PeelStep(tempDg.adj);
        var termSlice := Reversed(Sorted(terms));
        ghost var rest := PeelOrder(Without(tempDg.adj, terms));
        assert sl + (termSlice + rest) == sl + termSlice + rest;
        sl := sl + termSlice;
        tempDg.RemoveVertices(terms);
      }
    }
  }
}
