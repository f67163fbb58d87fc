/**
 The meaning of an evaluation: every reference is replaced with the expansion of what it refers to, unless
 there were too many transclusions; recursion is shown iff there is some.
 */
module Expansions {
  import opened Text
  import opened Zids
  import opened Evaluators

  // ---------- Which zettel are read ----------

  /**
   The attributes of the first reference to each zettel, when every zettel is walked through where it is
   met first.
   */
  function Walk(env: Env, seen: map<Zid, Attributes>, bs: seq<Block>): (r: map<Zid, Attributes>)
    ensures seen.Keys <= r.Keys
    decreases env.store.Keys - seen.Keys, bs
  {
    if bs == [] then seen else Walk(env, WalkBlock(env, seen, bs[0]), bs[1..])
  }

  function WalkBlock(env: Env, seen: map<Zid, Attributes>, b: Block): (r: map<Zid, Attributes>)
    ensures seen.Keys <= r.Keys
    decreases env.store.Keys - seen.Keys, b
  {
    match b
    case Region(children) => Walk(env, seen, children)
    case Picture(descr) => Walk(env, seen, descr)
    case Embedded(content, _) => Walk(env, seen, content)
    case Transclude(ref, part) =>
      (match Target(env, ref, part)
       case Some(r) => if r.0 in seen || !CanRead(env, r.0) then seen else
         WalkShrinks(env, seen, r.0, r.1);
         Walk(env, seen[r.0 := r.1], Body(env, r.0, r.1))
       case None => seen)
    case _ => seen
  }

  lemma WalkShrinks(env: Env, seen: map<Zid, Attributes>, z: Zid, a: Attributes)
    requires z in env.store && z !in seen
    ensures env.store.Keys - seen[z := a].Keys < env.store.Keys - seen.Keys
  {
    assert z in env.store.Keys - seen.Keys && z !in env.store.Keys - seen[z := a].Keys;
  }

  function First(env: Env, bs: seq<Block>): (r: map<Zid, Attributes>) {
    Walk(env, map[], bs)
  }

  /** Whether the walk goes through a zettel for a reference. */
  predicate Walks(env: Env, seen: map<Zid, Attributes>, ref: Reference, part: Part) {
    Target(env, ref, part).Some? && var r := Target(env, ref, part).value; r.0 !in seen && CanRead(env, r.0)
  }

  ghost predicate Extends(seen: map<Zid, Attributes>, w: map<Zid, Attributes>) {
    forall z :: z in seen ==> z in w && w[z] == seen[z]
  }

  lemma {:induction false} WalkExtends(env: Env, seen: map<Zid, Attributes>, bs: seq<Block>)
    ensures Extends(seen, Walk(env, seen, bs))
    decreases env.store.Keys - seen.Keys, bs
  {
    if bs != [] {
      WalkBlockExtends(env, seen, bs[0]);
      WalkExtends(env, WalkBlock(env, seen, bs[0]), bs[1..]);
    }
  }

  lemma {:induction false} WalkBlockExtends(env: Env, seen: map<Zid, Attributes>, b: Block)
    ensures Extends(seen, WalkBlock(env, seen, b))
    decreases env.store.Keys - seen.Keys, b
  {
    match b
    case Region(children) => WalkExtends(env, seen, children);
    case Picture(descr) => WalkExtends(env, seen, descr);
    case Embedded(content, _) => WalkExtends(env, seen, content);
    case Transclude(ref, part) =>
      if Walks(env, seen, ref, part) {
        var r := Target(env, ref, part).value;
        WalkShrinks(env, seen, r.0, r.1);
        WalkExtends(env, seen[r.0 := r.1], Body(env, r.0, r.1));
        assert forall y :: y in seen ==> y in seen[r.0 := r.1];
      }
    case _ =>
  }

  /** Unless the limit is reached, just the zettel that the walk meets are read. */
  lemma {:induction false} EvalReads(env: Env, st: State, seen: map<Zid, Attributes>, bs: seq<Block>)
    requires seen.Keys == st.costs.Keys && FreeOf(EvalBlocks(env, st, bs), TooMany)
    ensures EvalBlocks(env, st, bs).0.costs.Keys == Walk(env, seen, bs).Keys
    decreases Remaining(env, st), bs
  {
    if bs != [] {
      FreeFirst(env, st, bs, TooMany);
      EvalBlockReads(env, st, seen, bs[0]);
      EvalReads(env, EvalBlock(env, st, bs[0]).0, WalkBlock(env, seen, bs[0]), bs[1..]);
    }
  }

  lemma {:induction false} EvalBlockReads(env: Env, st: State, seen: map<Zid, Attributes>, b: Block)
    requires seen.Keys == st.costs.Keys && FreeOf(EvalBlock(env, st, b), TooMany)
    ensures EvalBlock(env, st, b).0.costs.Keys == WalkBlock(env, seen, b).Keys
    decreases Remaining(env, st), b
  {
    FreeInside(env, st, b, TooMany);
    match b
    case Region(children) => EvalReads(env, st, seen, children);
    case Picture(descr) => EvalReads(env, st, seen, descr);
    case Embedded(content, _) => EvalReads(env, Count(st), seen, content);
    case Transclude(ref, part) =>
      LimitShows(env, st, ref, part);
      if Reads(env, st, ref, part) {
        var r := Target(env, ref, part).value;
        MarkShrinks(env, st, r.0);
        FreeRead(env, st, r, TooMany);
        EvalReads(env, Mark(st, r.0), seen[r.0 := r.1], Body(env, r.0, r.1));
        assert r.0 in Walk(env, seen[r.0 := r.1], Body(env, r.0, r.1));
      }
    case _ =>
  }

  // ---------- Evaluation is expansion ----------

  /** How references are read: as each of them asks for, or as the first reference to its zettel asked for. */
  datatype How = AsAsked | AsFirst(first: map<Zid, Attributes>) {
    function Read(r: Ref): (a: Attributes) {
      if AsFirst? && r.0 in first then first[r.0] else r.1
    }
  }

  /** All references to zettel that must be evaluated for a text. */
  function Refs(env: Env, bs: seq<Block>): (r: set<Ref>) {
    if bs == [] then {} else BlockRefs(env, bs[0]) + Refs(env, bs[1..])
  }

  function BlockRefs(env: Env, b: Block): (r: set<Ref>) {
    match b
    case Region(children) => Refs(env, children)
    case Picture(descr) => Refs(env, descr)
    case Embedded(content, _) => Refs(env, content)
    case Transclude(ref, part) => (match Target(env, ref, part) case Some(r) => {r} case None => {})
    case _ => {}
  }

  type Rank = map<Ref, nat>

  predicate Below(rank: Rank, refs: set<Ref>, bound: nat) {
    forall r :: r in refs ==> r in rank && rank[r] < bound
  }

  /** No cycles: all references in what a ranked reference is read as are ranked below it. */
  ghost predicate Acyclic(env: Env, how: How, rank: Rank) {
    forall r :: r in rank && CanRead(env, r.0) ==> Below(rank, Refs(env, Body(env, r.0, how.Read(r))), rank[r])
  }

  /** Every reference is replaced with what it is read as: the meaning of a text, without any state. */
  ghost function Expand(env: Env, how: How, rank: Rank, bound: nat, bs: seq<Block>): (r: seq<Block>)
    requires Acyclic(env, how, rank) && Below(rank, Refs(env, bs), bound)
    decreases bound, bs
  {
    if bs == [] then [] else ExpandBlock(env, how, rank, bound, bs[0]) + Expand(env, how, rank, bound, bs[1..])
  }

  ghost function ExpandBlock(env: Env, how: How, rank: Rank, bound: nat, b: Block): (r: seq<Block>)
    requires Acyclic(env, how, rank) && Below(rank, BlockRefs(env, b), bound)
    decreases bound, b
  {
    match b
    case Region(children) => [Region(Expand(env, how, rank, bound, children))]
    case Picture(descr) => [Region(Expand(env, how, rank, bound, descr))]
    case Embedded(content, inline) => OrNothing(inline, Expand(env, how, rank, bound, content))
    case Transclude(ref, part) =>
      (match Target(env, ref, part)
       case Some(r) => if CanRead(env, r.0) then Chosen(env, part, ExpandRef(env, how, rank, r)) else Missing(env, r.0)
       case None => OtherBlocks(env, ref, part))
    case _ => [b]
  }

  ghost function ExpandRef(env: Env, how: How, rank: Rank, r: Ref): (bs: seq<Block>)
    requires Acyclic(env, how, rank) && r in rank
    decreases rank[r]
  {
    if !CanRead(env, r.0) then Missing(env, r.0)
    else Expand(env, how, rank, rank[r], Body(env, r.0, how.Read(r)))
  }

  /** A rank of zettel, whatever the attributes they are transcluded with. */
  ghost predicate ByZettel(rank: Rank) {
    forall r, q :: r in rank && q in rank && r.0 == q.0 ==> rank[r] == rank[q]
  }

  /** The evaluation never meets a zettel again before it is done with it. */
  ghost predicate NoCycle(env: Env, first: map<Zid, Attributes>, rank: Rank) {
    Acyclic(env, AsFirst(first), rank) && ByZettel(rank)
  }

  /** What is remembered is the expansion; what is marked ranks too high to be met. */
  ghost predicate Faithful(env: Env, first: map<Zid, Attributes>, rank: Rank, bound: nat, st: State)
    requires NoCycle(env, first, rank)
  {
    forall r :: r in rank && r.0 in st.costs ==> FaithfulCost(env, first, rank, bound, r, st.costs[r.0])
  }

  ghost predicate FaithfulCost(env: Env, first: map<Zid, Attributes>, rank: Rank, bound: nat, r: Ref, cost: Cost)
    requires NoCycle(env, first, rank) && r in rank
  {
    CanRead(env, r.0) &&
    if cost.blocks.None? then rank[r] >= bound else cost.blocks.value == ExpandRef(env, AsFirst(first), rank, r)
  }

  /**
   What the evaluation of a text starts from: `seen` is what the walk has met so far, and `first` what
   it will meet.
   */
  ghost predicate Begun(env: Env, first: map<Zid, Attributes>, rank: Rank, bound: nat, st: State,
                        seen: map<Zid, Attributes>, w: map<Zid, Attributes>)
    requires NoCycle(env, first, rank)
  {
    Faithful(env, first, rank, bound, st) && seen.Keys == st.costs.Keys && Extends(w, first)
  }

  /** Without cycles, an evaluation is the expansion, unless the limit was reached. */
  lemma {:induction false} EvalExpands(env: Env, first: map<Zid, Attributes>, rank: Rank, bound: nat, st: State,
                                       seen: map<Zid, Attributes>, bs: seq<Block>)
    requires NoCycle(env, first, rank) && Below(rank, Refs(env, bs), bound)
    requires Begun(env, first, rank, bound, st, seen, Walk(env, seen, bs))
    requires FreeOf(EvalBlocks(env, st, bs), TooMany)
    ensures Faithful(env, first, rank, bound, EvalBlocks(env, st, bs).0)
    ensures EvalBlocks(env, st, bs).1 == Expand(env, AsFirst(first), rank, bound, bs)
    decreases Remaining(env, st), bs
  {
    if bs != [] {
      FreeFirst(env, st, bs, TooMany);
      BegunFirst(env, first, rank, bound, st, seen, bs);
      EvalBlockExpands(env, first, rank, bound, st, seen, bs[0]);
      EvalBlockReads(env, st, seen, bs[0]);
      EvalExpands(env, first, rank, bound, EvalBlock(env, st, bs[0]).0, WalkBlock(env, seen, bs[0]), bs[1..]);
    }
  }

  lemma BegunFirst(env: Env, first: map<Zid, Attributes>, rank: Rank, bound: nat, st: State,
                   seen: map<Zid, Attributes>, bs: seq<Block>)
    requires NoCycle(env, first, rank) && bs != [] && Begun(env, first, rank, bound, st, seen, Walk(env, seen, bs))
    ensures Begun(env, first, rank, bound, st, seen, WalkBlock(env, seen, bs[0]))
  {
    WalkExtends(env, WalkBlock(env, seen, bs[0]), bs[1..]);
  }

  lemma {:induction false} EvalBlockExpands(env: Env, first: map<Zid, Attributes>, rank: Rank, bound: nat, st: State,
                                            seen: map<Zid, Attributes>, b: Block)
    requires NoCycle(env, first, rank) && Below(rank, BlockRefs(env, b), bound)
    requires Begun(env, first, rank, bound, st, seen, WalkBlock(env, seen, b))
    requires FreeOf(EvalBlock(env, st, b), TooMany)
    ensures Faithful(env, first, rank, bound, EvalBlock(env, st, b).0)
    ensures EvalBlock(env, st, b).1 == ExpandBlock(env, AsFirst(first), rank, bound, b)
    decreases Remaining(env, st), b
  {
    FreeInside(env, st, b, TooMany);
    match b
    case Region(children) => EvalExpands(env, first, rank, bound, st, seen, children);
    case Picture(descr) => EvalExpands(env, first, rank, bound, st, seen, descr);
    case Embedded(content, _) => EvalExpands(env, first, rank, bound, Count(st), seen, content);
    case Transclude(ref, part) =>
      LimitShows(env, st, ref, part);
      if Target(env, ref, part).Some? {
        var r := Target(env, ref, part).value;
        assert r in BlockRefs(env, b);
        if r.0 in st.costs {
          assert FaithfulCost(env, first, rank, bound, r, st.costs[r.0]);
        } else if CanRead(env, r.0) {
          ZettelExpands(env, first, rank, bound, st, seen, ref, part, r);
        }
      }
    case _ =>
  }

  /** A zettel that is met for the first time. */
  lemma {:induction false} ZettelExpands(env: Env, first: map<Zid, Attributes>, rank: Rank, bound: nat, st: State,
                                         seen: map<Zid, Attributes>, ref: Reference, part: Part, r: Ref)
    requires NoCycle(env, first, rank) && r in rank && rank[r] < bound && r.0 !in st.costs && CanRead(env, r.0)
    requires Target(env, ref, part) == Some(r)
    requires Begun(env, first, rank, bound, st, seen, Walk(env, seen[r.0 := r.1], Body(env, r.0, r.1)))
    requires var e := ReadRef(env, st, r); FreeState(Remember(e.0, r.0, e.1, st.count), TooMany)
    ensures var e := ReadRef(env, st, r); Faithful(env, first, rank, bound, Remember(e.0, r.0, e.1, st.count))
    ensures ReadRef(env, st, r).1 == ExpandRef(env, AsFirst(first), rank, r)
    decreases Remaining(env, st), ref
  {
    var body, marked := Body(env, r.0, r.1), Mark(st, r.0);
    FreeRead(env, st, r, TooMany);
    MarkShrinks(env, st, r.0);
    MarkBegun(env, first, rank, bound, st, seen, r);
    EvalExpands(env, first, rank, rank[r], marked, seen[r.0 := r.1], body);
    EvalBlocksKept(env, marked, body);
    var e := ReadRef(env, st, r);
    RememberFaithful(env, first, rank, bound, st, r, e.0, e.1);
  }

  lemma MarkBegun(env: Env, first: map<Zid, Attributes>, rank: Rank, bound: nat, st: State,
                  seen: map<Zid, Attributes>, r: Ref)
    requires NoCycle(env, first, rank) && r in rank && rank[r] < bound && r.0 !in st.costs && CanRead(env, r.0)
    requires var w := Walk(env, seen[r.0 := r.1], Body(env, r.0, r.1)); Begun(env, first, rank, bound, st, seen, w)
    ensures r.0 in first && first[r.0] == r.1
    ensures var w := Walk(env, seen[r.0 := r.1], Body(env, r.0, r.1));
            Begun(env, first, rank, rank[r], Mark(st, r.0), seen[r.0 := r.1], w)
  {
    WalkExtends(env, seen[r.0 := r.1], Body(env, r.0, r.1));
    assert r.0 in seen[r.0 := r.1];
    var costs := Mark(st, r.0).costs;
    forall q | q in rank && q.0 in costs ensures FaithfulCost(env, first, rank, rank[r], q, costs[q.0]) {
      if q.0 != r.0 { assert FaithfulCost(env, first, rank, bound, q, st.costs[q.0]); }
    }
  }

  lemma RememberFaithful(env: Env, first: map<Zid, Attributes>, rank: Rank, bound: nat, st: State, r: Ref,
                         after: State, blocks: seq<Block>)
    requires NoCycle(env, first, rank) && r in rank && r.0 in first && CanRead(env, r.0)
    requires Faithful(env, first, rank, bound, st) && r.0 !in st.costs && Grows(Mark(st, r.0), after)
    requires Faithful(env, first, rank, rank[r], after) && blocks == ExpandRef(env, AsFirst(first), rank, r)
    ensures Faithful(env, first, rank, bound, Remember(after, r.0, blocks, st.count))
  {
    var costs := Remember(after, r.0, blocks, st.count).costs;
    forall q | q in rank && q.0 in costs ensures FaithfulCost(env, first, rank, bound, q, costs[q.0]) {
      if q.0 != r.0 {
        assert FaithfulCost(env, first, rank, rank[r], q, after.costs[q.0]);
        if q.0 in st.costs {
          assert q.0 in Mark(st, r.0).costs;
          assert FaithfulCost(env, first, rank, bound, q, st.costs[q.0]);
        }
      }
    }
  }

  /**
   Every text whose references have no cycle is evaluated to its expansion, with each zettel read as the
   first reference to it asked for; or there were too many transclusions.
   */
  lemma TextExpanded(env: Env, rank: Rank, bound: nat, bs: seq<Block>)
    requires NoCycle(env, First(env, bs), rank) && Below(rank, Refs(env, bs), bound)
    requires FreeOf(EvalBlocks(env, START, bs), TooMany)
    ensures EvalBlocks(env, START, bs).1 == Expand(env, AsFirst(First(env, bs)), rank, bound, bs)
  {
    EvalExpands(env, First(env, bs), rank, bound, START, map[], bs);
  }

  // ---------- When the limit is not reached ----------

  /** How many transclusions the expansion replaces, counted as often as they occur in it. */
  ghost function Size(env: Env, how: How, rank: Rank, bound: nat, bs: seq<Block>): (n: nat)
    requires Acyclic(env, how, rank) && Below(rank, Refs(env, bs), bound)
    decreases bound, bs
  {
    if bs == [] then 0 else SizeBlock(env, how, rank, bound, bs[0]) + Size(env, how, rank, bound, bs[1..])
  }

  ghost function SizeBlock(env: Env, how: How, rank: Rank, bound: nat, b: Block): (n: nat)
    requires Acyclic(env, how, rank) && Below(rank, BlockRefs(env, b), bound)
    decreases bound, b
  {
    match b
    case Region(children) => Size(env, how, rank, bound, children)
    case Picture(descr) => Size(env, how, rank, bound, descr)
    case Embedded(content, _) => 1 + Size(env, how, rank, bound, content)
    case Transclude(ref, part) =>
      (match Target(env, ref, part)
       case Some(r) => SizeRef(env, how, rank, r)
       case None => if OtherCounts(env, ref, part) then 1 else 0)
    case _ => 0
  }

  ghost function SizeRef(env: Env, how: How, rank: Rank, r: Ref): (n: nat)
    requires Acyclic(env, how, rank) && r in rank
    decreases rank[r]
  {
    if !CanRead(env, r.0) then |Missing(env, r.0)|
    else 1 + Size(env, how, rank, rank[r], Body(env, r.0, how.Read(r)))
  }

  ghost predicate TextsFree(env: Env, kind: ErrorKind) {
    forall z, a :: CanRead(env, z) ==> Free(Body(env, z, a), kind)
  }

  /** What is remembered was counted as the expansion is, at most. */
  ghost predicate Frugal(env: Env, first: map<Zid, Attributes>, rank: Rank, st: State)
    requires NoCycle(env, first, rank)
  {
    forall r :: r in rank && r.0 in st.costs && st.costs[r.0].blocks.Some? ==>
        st.costs[r.0].ec < SizeRef(env, AsFirst(first), rank, r)
  }

  ghost predicate Fits(env: Env, first: map<Zid, Attributes>, rank: Rank, r: (State, seq<Block>), limit: int)
    requires NoCycle(env, first, rank)
  {
    FreeOf(r, TooMany) && Frugal(env, first, rank, r.0) && 0 <= r.0.count <= limit
  }

  /** Before the evaluation of a text that counts so many transclusions. */
  ghost predicate CanFit(env: Env, first: map<Zid, Attributes>, rank: Rank, st: State, size: nat)
    requires NoCycle(env, first, rank)
  {
    && PickOk(env) && TextsFree(env, TooMany) && FreeState(st, TooMany) && Frugal(env, first, rank, st)
    && 0 <= st.count && st.count + size <= env.max
  }

  /** An evaluation that is allowed all transclusions of the expansion does not reach the limit. */
  lemma {:induction false} EvalFits(env: Env, first: map<Zid, Attributes>, rank: Rank, bound: nat, st: State,
                                    seen: map<Zid, Attributes>, bs: seq<Block>)
    requires NoCycle(env, first, rank) && Below(rank, Refs(env, bs), bound)
    requires Begun(env, first, rank, bound, st, seen, Walk(env, seen, bs))
    requires CanFit(env, first, rank, st, Size(env, AsFirst(first), rank, bound, bs)) && Free(bs, TooMany)
    ensures Fits(env, first, rank, EvalBlocks(env, st, bs), st.count + Size(env, AsFirst(first), rank, bound, bs))
    decreases Remaining(env, st), bs
  {
    if bs != [] {
      var one := EvalBlock(env, st, bs[0]);
      BegunFirst(env, first, rank, bound, st, seen, bs);
      EvalBlockFits(env, first, rank, bound, st, seen, bs[0]);
      EvalBlockExpands(env, first, rank, bound, st, seen, bs[0]);
      EvalBlockReads(env, st, seen, bs[0]);
      EvalFits(env, first, rank, bound, one.0, WalkBlock(env, seen, bs[0]), bs[1..]);
      FreeParts(one.1, EvalBlocks(env, one.0, bs[1..]).1, TooMany);
    }
  }

  lemma {:induction false} EvalBlockFits(env: Env, first: map<Zid, Attributes>, rank: Rank, bound: nat, st: State,
                                         seen: map<Zid, Attributes>, b: Block)
    requires NoCycle(env, first, rank) && Below(rank, BlockRefs(env, b), bound)
    requires Begun(env, first, rank, bound, st, seen, WalkBlock(env, seen, b))
    requires CanFit(env, first, rank, st, SizeBlock(env, AsFirst(first), rank, bound, b)) && FreeBlock(b, TooMany)
    ensures Fits(env, first, rank, EvalBlock(env, st, b), st.count + SizeBlock(env, AsFirst(first), rank, bound, b))
    decreases Remaining(env, st), b
  {
    match b
    case Region(children) =>
      EvalFits(env, first, rank, bound, st, seen, children);
      FreeOne(Region(EvalBlocks(env, st, children).1), TooMany);
    case Picture(descr) =>
      EvalFits(env, first, rank, bound, st, seen, descr);
      FreeOne(Region(EvalBlocks(env, st, descr).1), TooMany);
    case Embedded(content, _) =>
      EvalFits(env, first, rank, bound, Count(st), seen, content);
      FreeOne(NOTHING, TooMany);
    case Transclude(ref, part) =>
      if Target(env, ref, part).Some? {
        var r := Target(env, ref, part).value;
        assert r in BlockRefs(env, b);
        ReferenceFits(env, first, rank, bound, st, seen, ref, part, r);
      } else {
        OtherFree(env, ref, part);
      }
    case _ => FreeOne(b, TooMany);
  }

  lemma OtherFree(env: Env, ref: Reference, part: Part)
    ensures Free(OtherBlocks(env, ref, part), TooMany) && forall z :: Free(Missing(env, z), TooMany)
  {}

  lemma {:induction false} ReferenceFits(env: Env, first: map<Zid, Attributes>, rank: Rank, bound: nat, st: State,
                                         seen: map<Zid, Attributes>, ref: Reference, part: Part, r: Ref)
    requires NoCycle(env, first, rank) && r in rank && rank[r] < bound && Target(env, ref, part) == Some(r)
    requires Begun(env, first, rank, bound, st, seen, WalkBlock(env, seen, Transclude(ref, part)))
    requires CanFit(env, first, rank, st, SizeRef(env, AsFirst(first), rank, r))
    ensures Fits(env, first, rank, EvalTransclusion(env, st, ref, part),
            st.count + SizeRef(env, AsFirst(first), rank, r))
    decreases Remaining(env, st), ref, 1
  {
    if r.0 in st.costs {
      assert FaithfulCost(env, first, rank, bound, r, st.costs[r.0]);
      ChosenFree(env, part, st.costs[r.0].blocks.value, TooMany);
    } else if CanRead(env, r.0) {
      ZettelFits(env, first, rank, bound, st, seen, ref, part, r);
      ChosenFree(env, part, ReadRef(env, st, r).1, TooMany);
    } else {
      OtherFree(env, ref, part);
    }
  }

  lemma ChosenFree(env: Env, part: Part, blocks: seq<Block>, kind: ErrorKind)
    requires PickOk(env) && Free(blocks, kind)
    ensures Free(Chosen(env, part, blocks), kind)
  {
    if part.Inline? { assert PickedOf(blocks, env.pick(blocks, part.fragment)); }
  }

  lemma {:induction false} ZettelFits(env: Env, first: map<Zid, Attributes>, rank: Rank, bound: nat, st: State,
                                      seen: map<Zid, Attributes>, ref: Reference, part: Part, r: Ref)
    requires NoCycle(env, first, rank) && r in rank && rank[r] < bound && r.0 !in st.costs && CanRead(env, r.0)
    requires Target(env, ref, part) == Some(r)
    requires Begun(env, first, rank, bound, st, seen, Walk(env, seen[r.0 := r.1], Body(env, r.0, r.1)))
    requires CanFit(env, first, rank, st, SizeRef(env, AsFirst(first), rank, r))
    ensures var e := ReadRef(env, st, r); Free(e.1, TooMany)
    ensures var e := ReadRef(env, st, r); var after := Remember(e.0, r.0, e.1, st.count);
            FreeState(after, TooMany) && Frugal(env, first, rank, after)
    decreases Remaining(env, st), ref, 0
  {
    MarkShrinks(env, st, r.0);
    MarkBegun(env, first, rank, bound, st, seen, r);
    MarkCanFit(env, first, rank, st, r);
    EvalFits(env, first, rank, rank[r], Mark(st, r.0), seen[r.0 := r.1], Body(env, r.0, r.1));
    EvalBlocksKept(env, Mark(st, r.0), Body(env, r.0, r.1));
    var e := ReadRef(env, st, r);
    RememberFrugal(env, first, rank, st, r, e.0, e.1);
  }

  lemma MarkCanFit(env: Env, first: map<Zid, Attributes>, rank: Rank, st: State, r: Ref)
    requires NoCycle(env, first, rank) && r in rank && r.0 !in st.costs && CanRead(env, r.0)
    requires r.0 in first && first[r.0] == r.1
    requires CanFit(env, first, rank, st, SizeRef(env, AsFirst(first), rank, r))
    ensures Free(Body(env, r.0, r.1), TooMany)
    ensures CanFit(env, first, rank, Mark(st, r.0), Size(env, AsFirst(first), rank, rank[r], Body(env, r.0, r.1)))
  {
    var marked := Mark(st, r.0);
    forall q | q in rank && q.0 in marked.costs && marked.costs[q.0].blocks.Some?
      ensures marked.costs[q.0].ec < SizeRef(env, AsFirst(first), rank, q)
    {
      assert marked.costs[q.0] == st.costs[q.0];
    }
    assert AsFirst(first).Read(r) == r.1;
  }

  lemma RememberFrugal(env: Env, first: map<Zid, Attributes>, rank: Rank, st: State, r: Ref, after: State,
                       blocks: seq<Block>)
    requires NoCycle(env, first, rank) && r in rank && r.0 in first && CanRead(env, r.0)
    requires FreeState(after, TooMany) && Free(blocks, TooMany) && Frugal(env, first, rank, after)
    requires after.count - st.count < SizeRef(env, AsFirst(first), rank, r)
    ensures var last := Remember(after, r.0, blocks, st.count);
            FreeState(last, TooMany) && Frugal(env, first, rank, last)
  {
    var last := Remember(after, r.0, blocks, st.count);
    forall q | q in rank && q.0 in last.costs && last.costs[q.0].blocks.Some?
      ensures last.costs[q.0].ec < SizeRef(env, AsFirst(first), rank, q)
    {
      if q.0 == r.0 { assert rank[q] == rank[r]; } else { assert last.costs[q.0] == after.costs[q.0]; }
    }
  }

  /** A caller can count: with at most as many transclusions as allowed, the result is the expansion. */
  lemma TextFits(env: Env, rank: Rank, bound: nat, bs: seq<Block>)
    requires PickOk(env) && TextsFree(env, TooMany) && Free(bs, TooMany)
    requires NoCycle(env, First(env, bs), rank) && Below(rank, Refs(env, bs), bound)
    requires Size(env, AsFirst(First(env, bs)), rank, bound, bs) <= env.max
    ensures FreeOf(EvalBlocks(env, START, bs), TooMany)
    ensures EvalBlocks(env, START, bs).1 == Expand(env, AsFirst(First(env, bs)), rank, bound, bs)
  {
    EvalFits(env, First(env, bs), rank, bound, START, map[], bs);
    TextExpanded(env, rank, bound, bs);
  }

  // ---------- Whether each transclusion shows what it asks for ----------

  /** The references that are met in a text, and in what is shown for them. */
  ghost function Met(env: Env, how: How, rank: Rank, bound: nat, bs: seq<Block>): (r: set<Ref>)
    requires Acyclic(env, how, rank) && Below(rank, Refs(env, bs), bound)
    decreases bound, bs
  {
    if bs == [] then {} else MetBlock(env, how, rank, bound, bs[0]) + Met(env, how, rank, bound, bs[1..])
  }

  ghost function MetBlock(env: Env, how: How, rank: Rank, bound: nat, b: Block): (r: set<Ref>)
    requires Acyclic(env, how, rank) && Below(rank, BlockRefs(env, b), bound)
    decreases bound, b
  {
    match b
    case Region(children) => Met(env, how, rank, bound, children)
    case Picture(descr) => Met(env, how, rank, bound, descr)
    case Embedded(content, _) => Met(env, how, rank, bound, content)
    case Transclude(ref, part) =>
      (match Target(env, ref, part)
       case Some(r) => {r} + if CanRead(env, r.0) then Met(env, how, rank, rank[r], Body(env, r.0, how.Read(r))) else {}
       case None => {})
    case _ => {}
  }

  /** What a reference is replaced with by the evaluation of the text. */
  ghost function Shown(env: Env, bs: seq<Block>, rank: Rank, r: Ref): (out: seq<Block>)
    requires NoCycle(env, First(env, bs), rank) && r in rank
  {
    ExpandRef(env, AsFirst(First(env, bs)), rank, r)
  }

  /** What a reference would be replaced with if its own attributes counted, and those of all references in it. */
  ghost function Asked(env: Env, rank: Rank, r: Ref): (out: seq<Block>)
    requires Acyclic(env, AsAsked, rank) && r in rank
  {
    ExpandRef(env, AsAsked, rank, r)
  }

  lemma {:induction false} MetWithin(env: Env, how: How, rank: Rank, bound: nat, bs: seq<Block>)
    requires Acyclic(env, how, rank) && Below(rank, Refs(env, bs), bound)
    ensures Below(rank, Met(env, how, rank, bound, bs), bound)
    decreases bound, bs
  {
    if bs != [] {
      MetBlockWithin(env, how, rank, bound, bs[0]);
      MetWithin(env, how, rank, bound, bs[1..]);
    }
  }

  lemma {:induction false} MetBlockWithin(env: Env, how: How, rank: Rank, bound: nat, b: Block)
    requires Acyclic(env, how, rank) && Below(rank, BlockRefs(env, b), bound)
    ensures Below(rank, MetBlock(env, how, rank, bound, b), bound)
    decreases bound, b
  {
    match b
    case Region(children) => MetWithin(env, how, rank, bound, children);
    case Picture(descr) => MetWithin(env, how, rank, bound, descr);
    case Embedded(content, _) => MetWithin(env, how, rank, bound, content);
    case Transclude(ref, part) =>
      if Target(env, ref, part).Some? {
        var r := Target(env, ref, part).value;
        assert r in BlockRefs(env, b);
        if CanRead(env, r.0) { MetWithin(env, how, rank, rank[r], Body(env, r.0, how.Read(r))); }
      }
    case _ =>
  }

  /** The first reference to a zettel is among those that are met. */
  lemma {:induction false} FirstMet(env: Env, first: map<Zid, Attributes>, rank: Rank, bound: nat,
                                    seen: map<Zid, Attributes>, bs: seq<Block>)
    requires Acyclic(env, AsFirst(first), rank) && Below(rank, Refs(env, bs), bound)
             && Extends(Walk(env, seen, bs), first)
    ensures forall z :: z in Walk(env, seen, bs) && z !in seen ==>
            (z, first[z]) in Met(env, AsFirst(first), rank, bound, bs)
    decreases env.store.Keys - seen.Keys, bs
  {
    if bs != [] {
      var next := WalkBlock(env, seen, bs[0]);
      WalkExtends(env, next, bs[1..]);
      FirstMetBlock(env, first, rank, bound, seen, bs[0]);
      FirstMet(env, first, rank, bound, next, bs[1..]);
    }
  }

  lemma {:induction false} FirstMetBlock(env: Env, first: map<Zid, Attributes>, rank: Rank, bound: nat,
                                         seen: map<Zid, Attributes>, b: Block)
    requires Acyclic(env, AsFirst(first), rank) && Below(rank, BlockRefs(env, b), bound)
             && Extends(WalkBlock(env, seen, b), first)
    ensures forall z :: z in WalkBlock(env, seen, b) && z !in seen ==>
            (z, first[z]) in MetBlock(env, AsFirst(first), rank, bound, b)
    decreases env.store.Keys - seen.Keys, b
  {
    match b
    case Region(children) => FirstMet(env, first, rank, bound, seen, children);
    case Picture(descr) => FirstMet(env, first, rank, bound, seen, descr);
    case Embedded(content, _) => FirstMet(env, first, rank, bound, seen, content);
    case Transclude(ref, part) =>
      if Walks(env, seen, ref, part) {
        var r := Target(env, ref, part).value;
        assert r in BlockRefs(env, b);
        WalkShrinks(env, seen, r.0, r.1);
        WalkExtends(env, seen[r.0 := r.1], Body(env, r.0, r.1));
        assert first[r.0] == r.1;
        FirstMet(env, first, rank, rank[r], seen[r.0 := r.1], Body(env, r.0, r.1));
      }
    case _ =>
  }

  /** What is met can be read only if the walk has met it. */
  ghost predicate Known(env: Env, refs: set<Ref>, first: map<Zid, Attributes>) {
    forall r :: r in refs && CanRead(env, r.0) ==> r.0 in first
  }

  /** All references in the zettel walked through are known. */
  ghost predicate Closed(env: Env, seen: map<Zid, Attributes>, w: map<Zid, Attributes>) {
    forall z :: z in w && z !in seen ==> CanRead(env, z) && Known(env, Refs(env, Body(env, z, w[z])), w)
  }

  lemma ClosedTwice(env: Env, seen: map<Zid, Attributes>, v: map<Zid, Attributes>, w: map<Zid, Attributes>)
    requires Closed(env, seen, v) && Closed(env, v, w) && Extends(v, w)
    ensures Closed(env, seen, w)
  {
    forall z | z in w && z !in seen ensures CanRead(env, z) && Known(env, Refs(env, Body(env, z, w[z])), w) {
      if z in v { assert Known(env, Refs(env, Body(env, z, v[z])), v); }
    }
  }

  lemma {:induction false} WalkCloses(env: Env, seen: map<Zid, Attributes>, bs: seq<Block>)
    ensures Known(env, Refs(env, bs), Walk(env, seen, bs)) && Closed(env, seen, Walk(env, seen, bs))
    decreases env.store.Keys - seen.Keys, bs
  {
    if bs != [] {
      var next := WalkBlock(env, seen, bs[0]);
      WalkBlockCloses(env, seen, bs[0]);
      WalkCloses(env, next, bs[1..]);
      WalkExtends(env, next, bs[1..]);
      ClosedTwice(env, seen, next, Walk(env, seen, bs));
    }
  }

  lemma {:induction false} WalkBlockCloses(env: Env, seen: map<Zid, Attributes>, b: Block)
    ensures Known(env, BlockRefs(env, b), WalkBlock(env, seen, b)) && Closed(env, seen, WalkBlock(env, seen, b))
    decreases env.store.Keys - seen.Keys, b
  {
    match b
    case Region(children) => WalkCloses(env, seen, children);
    case Picture(descr) => WalkCloses(env, seen, descr);
    case Embedded(content, _) => WalkCloses(env, seen, content);
    case Transclude(ref, part) =>
      if Walks(env, seen, ref, part) {
        var r := Target(env, ref, part).value;
        WalkShrinks(env, seen, r.0, r.1);
        WalkCloses(env, seen[r.0 := r.1], Body(env, r.0, r.1));
        WalkExtends(env, seen[r.0 := r.1], Body(env, r.0, r.1));
      }
    case _ =>
  }

  lemma {:induction false} MetKnown(env: Env, first: map<Zid, Attributes>, rank: Rank, bound: nat, bs: seq<Block>)
    requires Acyclic(env, AsFirst(first), rank) && Below(rank, Refs(env, bs), bound)
    requires Known(env, Refs(env, bs), first) && Closed(env, map[], first)
    ensures Known(env, Met(env, AsFirst(first), rank, bound, bs), first)
    decreases bound, bs
  {
    if bs != [] {
      MetBlockKnown(env, first, rank, bound, bs[0]);
      MetKnown(env, first, rank, bound, bs[1..]);
    }
  }

  lemma {:induction false} MetBlockKnown(env: Env, first: map<Zid, Attributes>, rank: Rank, bound: nat, b: Block)
    requires Acyclic(env, AsFirst(first), rank) && Below(rank, BlockRefs(env, b), bound)
    requires Known(env, BlockRefs(env, b), first) && Closed(env, map[], first)
    ensures Known(env, MetBlock(env, AsFirst(first), rank, bound, b), first)
    decreases bound, b
  {
    match b
    case Region(children) => MetKnown(env, first, rank, bound, children);
    case Picture(descr) => MetKnown(env, first, rank, bound, descr);
    case Embedded(content, _) => MetKnown(env, first, rank, bound, content);
    case Transclude(ref, part) =>
      if Target(env, ref, part).Some? {
        var r := Target(env, ref, part).value;
        assert r in BlockRefs(env, b);
        if CanRead(env, r.0) { MetKnown(env, first, rank, rank[r], Body(env, r.0, first[r.0])); }
      }
    case _ =>
  }

  /** The evaluation of `bs` and the expansion of what is asked for both come to an end. */
  ghost predicate Comparable(env: Env, bs: seq<Block>, rank: Rank, bound: nat, asked: Rank) {
    && NoCycle(env, First(env, bs), rank) && Below(rank, Refs(env, bs), bound)
    && Acyclic(env, AsAsked, asked)
    && forall r :: r in Met(env, AsFirst(First(env, bs)), rank, bound, bs) ==> r in asked
  }

  ghost function AllMet(env: Env, bs: seq<Block>, rank: Rank, bound: nat): (r: set<Ref>)
    requires NoCycle(env, First(env, bs), rank) && Below(rank, Refs(env, bs), bound)
    ensures forall q :: q in r ==> q in rank
  {
    MetWithin(env, AsFirst(First(env, bs)), rank, bound, bs);
    Met(env, AsFirst(First(env, bs)), rank, bound, bs)
  }

  /** References to the same zettel ask for the same. */
  ghost predicate Agreed(env: Env, refs: set<Ref>, asked: Rank)
    requires Acyclic(env, AsAsked, asked) && forall r :: r in refs ==> r in asked
  {
    forall r, q :: r in refs && q in refs && r.0 == q.0 ==> Asked(env, asked, r) == Asked(env, asked, q)
  }

  /** Where all references agree with the first ones, the expansion is what is asked for. */
  lemma {:induction false} AgreedExpand(env: Env, first: map<Zid, Attributes>, rank: Rank, bound: nat,
                                        asked: Rank, limit: nat, refs: set<Ref>, bs: seq<Block>)
    requires NoCycle(env, first, rank) && Below(rank, Refs(env, bs), bound)
    requires Acyclic(env, AsAsked, asked) && Below(asked, Refs(env, bs), limit)
    requires Met(env, AsFirst(first), rank, bound, bs) <= refs && (forall r :: r in refs ==> r in asked)
             && Agreed(env, refs, asked)
    requires forall r :: r in refs && CanRead(env, r.0) ==> r.0 in first && (r.0, first[r.0]) in refs
    ensures Expand(env, AsFirst(first), rank, bound, bs) == Expand(env, AsAsked, asked, limit, bs)
    decreases bound, bs
  {
    if bs != [] {
      AgreedExpandBlock(env, first, rank, bound, asked, limit, refs, bs[0]);
      AgreedExpand(env, first, rank, bound, asked, limit, refs, bs[1..]);
    }
  }

  lemma {:induction false} AgreedExpandBlock(env: Env, first: map<Zid, Attributes>, rank: Rank, bound: nat,
                                             asked: Rank, limit: nat, refs: set<Ref>, b: Block)
    requires NoCycle(env, first, rank) && Below(rank, BlockRefs(env, b), bound)
    requires Acyclic(env, AsAsked, asked) && Below(asked, BlockRefs(env, b), limit)
    requires MetBlock(env, AsFirst(first), rank, bound, b) <= refs && (forall r :: r in refs ==> r in asked)
             && Agreed(env, refs, asked)
    requires forall r :: r in refs && CanRead(env, r.0) ==> r.0 in first && (r.0, first[r.0]) in refs
    ensures ExpandBlock(env, AsFirst(first), rank, bound, b) == ExpandBlock(env, AsAsked, asked, limit, b)
    decreases bound, b
  {
    match b
    case Region(children) => AgreedExpand(env, first, rank, bound, asked, limit, refs, children);
    case Picture(descr) => AgreedExpand(env, first, rank, bound, asked, limit, refs, descr);
    case Embedded(content, _) => AgreedExpand(env, first, rank, bound, asked, limit, refs, content);
    case Transclude(ref, part) =>
      if Target(env, ref, part).Some? {
        var r := Target(env, ref, part).value;
        assert r in BlockRefs(env, b);
        AgreedRef(env, first, rank, asked, refs, r);
      }
    case _ =>
  }

  lemma {:induction false} AgreedRef(env: Env, first: map<Zid, Attributes>, rank: Rank, asked: Rank, refs: set<Ref>,
                                     r: Ref)
    requires NoCycle(env, first, rank) && Acyclic(env, AsAsked, asked) && r in rank && r in refs
    requires CanRead(env, r.0) ==>
             Met(env, AsFirst(first), rank, rank[r], Body(env, r.0, AsFirst(first).Read(r))) <= refs
    requires (forall q :: q in refs ==> q in asked) && Agreed(env, refs, asked)
    requires forall q :: q in refs && CanRead(env, q.0) ==> q.0 in first && (q.0, first[q.0]) in refs
    ensures ExpandRef(env, AsFirst(first), rank, r) == ExpandRef(env, AsAsked, asked, r)
    decreases rank[r]
  {
    if CanRead(env, r.0) {
      var q := (r.0, first[r.0]);
      AgreedExpand(env, first, rank, rank[r], asked, asked[q], refs, Body(env, r.0, first[r.0]));
      assert Asked(env, asked, r) == Asked(env, asked, q);
    }
  }

  /** What is met in something that is met is met. */
  lemma {:induction false} MetAgain(env: Env, how: How, rank: Rank, bound: nat, bs: seq<Block>, r: Ref)
    requires Acyclic(env, how, rank) && Below(rank, Refs(env, bs), bound) && r in Met(env, how, rank, bound, bs)
             && CanRead(env, r.0)
    ensures r in rank && Met(env, how, rank, rank[r], Body(env, r.0, how.Read(r))) <= Met(env, how, rank, bound, bs)
    decreases bound, bs
  {
    if r in MetBlock(env, how, rank, bound, bs[0]) {
      MetBlockAgain(env, how, rank, bound, bs[0], r);
    } else {
      MetAgain(env, how, rank, bound, bs[1..], r);
    }
  }

  lemma {:induction false} MetBlockAgain(env: Env, how: How, rank: Rank, bound: nat, b: Block, r: Ref)
    requires Acyclic(env, how, rank) && Below(rank, BlockRefs(env, b), bound) && r in MetBlock(env, how, rank, bound, b)
             && CanRead(env, r.0)
    ensures r in rank && Met(env, how, rank, rank[r], Body(env, r.0, how.Read(r))) <= MetBlock(env, how, rank, bound, b)
    decreases bound, b
  {
    match b
    case Region(children) => MetAgain(env, how, rank, bound, children, r);
    case Picture(descr) => MetAgain(env, how, rank, bound, descr, r);
    case Embedded(content, _) => MetAgain(env, how, rank, bound, content, r);
    case Transclude(ref, part) =>
      var q := Target(env, ref, part).value;
      assert q in BlockRefs(env, b);
      if r != q { MetAgain(env, how, rank, rank[q], Body(env, q.0, how.Read(q)), r); }
    case _ =>
  }

  /** All that is met was met first by some reference that is met, too. */
  lemma AllMetFirst(env: Env, bs: seq<Block>, rank: Rank, bound: nat)
    requires NoCycle(env, First(env, bs), rank) && Below(rank, Refs(env, bs), bound)
    ensures var refs, first := AllMet(env, bs, rank, bound), First(env, bs);
            forall r :: r in refs && CanRead(env, r.0) ==> r.0 in first && (r.0, first[r.0]) in refs
  {
    var first := First(env, bs);
    WalkCloses(env, map[], bs);
    MetKnown(env, first, rank, bound, bs);
    FirstMet(env, first, rank, bound, map[], bs);
  }

  /** Every transclusion shows what its attributes ask for iff all those of the same zettel ask for the same. */
  lemma AsAskedIff(env: Env, bs: seq<Block>, rank: Rank, bound: nat, asked: Rank)
    requires Comparable(env, bs, rank, bound, asked)
    ensures var refs := AllMet(env, bs, rank, bound);
            (forall r :: r in refs ==> Shown(env, bs, rank, r) == Asked(env, asked, r)) <==> Agreed(env, refs, asked)
  {
    var refs, first := AllMet(env, bs, rank, bound), First(env, bs);
    AllMetFirst(env, bs, rank, bound);
    if Agreed(env, refs, asked) {
      forall r | r in refs ensures Shown(env, bs, rank, r) == Asked(env, asked, r) {
        if CanRead(env, r.0) { MetAgain(env, AsFirst(first), rank, bound, bs, r); }
        AgreedRef(env, first, rank, asked, refs, r);
      }
    }
    if forall r :: r in refs ==> Shown(env, bs, rank, r) == Asked(env, asked, r) {
      forall r, q | r in refs && q in refs && r.0 == q.0 ensures Asked(env, asked, r) == Asked(env, asked, q) {
        assert Shown(env, bs, rank, r) == Shown(env, bs, rank, q);
      }
    }
  }

  /** When references to the same zettel ask for the same, the result is what the text asks for. */
  lemma TextAsAsked(env: Env, bs: seq<Block>, rank: Rank, bound: nat, asked: Rank, limit: nat)
    requires Comparable(env, bs, rank, bound, asked) && Below(asked, Refs(env, bs), limit)
    requires Agreed(env, AllMet(env, bs, rank, bound), asked)
    requires FreeOf(EvalBlocks(env, START, bs), TooMany)
    ensures EvalBlocks(env, START, bs).1 == Expand(env, AsAsked, asked, limit, bs)
  {
    TextExpanded(env, rank, bound, bs);
    AllMetFirst(env, bs, rank, bound);
    AgreedExpand(env, First(env, bs), rank, bound, asked, limit, AllMet(env, bs, rank, bound), bs);
  }

  /** When attributes do matter, those of the first transclusion decide for all others. */
  lemma FirstAttributesDecide(z: Zid, max: nat, pick: (seq<Block>, Fragment) -> seq<Block>)
    requires max >= 1
    ensures var env := Env(map[z := Readable(Markup, (a: Attributes) => [Leaf(a)])], max, pick);
            EvalBlocks(env, START, [Transclude(ZettelRef(z, 1), Whole), Transclude(ZettelRef(z, 2), Whole)]).1
                == [Leaf(1), Leaf(1)]
  {
    var env := Env(map[z := Readable(Markup, (a: Attributes) => [Leaf(a)])], max, pick);
    var bs := [Transclude(ZettelRef(z, 1), Whole), Transclude(ZettelRef(z, 2), Whole)];
    var marked := Mark(START, z);
    assert [Leaf(1)][1..] == [] && EvalBlocks(env, marked, [Leaf(1)]) == (marked, [Leaf(1)] + []);
    assert [Leaf(1)] + [] == [Leaf(1)];
    var first := EvalBlock(env, START, bs[0]);
    assert Body(env, z, 1) == [Leaf(1)];
    assert EvalBlocks(env, marked, Body(env, z, 1)) == (marked, [Leaf(1)]);
    assert first == EvalTransclusion(env, START, ZettelRef(z, 1), Whole);
    assert z !in START.costs && z in env.store;
    assert first == (Remember(marked, z, [Leaf(1)], 0), [Leaf(1)]);
    assert bs[1..] == [Transclude(ZettelRef(z, 2), Whole)];
    assert EvalBlock(env, first.0, bs[1]).1 == [Leaf(1)];
    assert EvalBlocks(env, first.0, bs[1..]).1 == [Leaf(1)] + [];
  }

  // ---------- When recursion is shown ----------

  /** The zettel in the order in which their evaluation ended: each after all those it refers to. */
  ghost predicate InOrder(env: Env, first: map<Zid, Attributes>, done: seq<Zid>) {
    forall i :: 0 <= i < |done| ==>
      CanRead(env, done[i]) && done[i] in first && Done(env, Refs(env, Body(env, done[i], first[done[i]])), done[..i])
  }

  ghost predicate Done(env: Env, refs: set<Ref>, done: seq<Zid>) {
    forall r :: r in refs && CanRead(env, r.0) ==> r.0 in done
  }

  ghost predicate Remembered(st: State, done: seq<Zid>) {
    forall z :: z in done <==> z in st.costs && st.costs[z].blocks.Some?
  }

  lemma DoneLonger(env: Env, refs: set<Ref>, done: seq<Zid>, more: seq<Zid>)
    requires Done(env, refs, done) && done <= more
    ensures Done(env, refs, more)
  {
    assert forall z :: z in done ==> z in more;
  }

  lemma InOrderSnoc(env: Env, first: map<Zid, Attributes>, done: seq<Zid>, z: Zid)
    requires InOrder(env, first, done) && CanRead(env, z) && z in first
             && Done(env, Refs(env, Body(env, z, first[z])), done)
    ensures InOrder(env, first, done + [z])
  {
    var more := done + [z];
    forall i | 0 <= i < |more|
      ensures CanRead(env, more[i]) && more[i] in first
              && Done(env, Refs(env, Body(env, more[i], first[more[i]])), more[..i])
    {
      assert more[..i] == done[..i];
      assert done[..|done|] == done;
    }
  }

  /** If neither recursion nor the limit shows, zettel end after all they refer to. */
  lemma {:induction false} EvalOrders(env: Env, first: map<Zid, Attributes>, st: State, seen: map<Zid, Attributes>,
                                      bs: seq<Block>, done: seq<Zid>) returns (more: seq<Zid>)
    requires seen.Keys == st.costs.Keys && Extends(Walk(env, seen, bs), first)
    requires InOrder(env, first, done) && Remembered(st, done)
    requires FreeOf(EvalBlocks(env, st, bs), TooMany) && FreeOf(EvalBlocks(env, st, bs), Recursive)
    ensures done <= more && InOrder(env, first, more) && Remembered(EvalBlocks(env, st, bs).0, more)
    ensures Done(env, Refs(env, bs), more)
    decreases Remaining(env, st), bs
  {
    more := done;
    if bs != [] {
      var one, next := EvalBlock(env, st, bs[0]), WalkBlock(env, seen, bs[0]);
      FreeFirst(env, st, bs, TooMany);
      FreeFirst(env, st, bs, Recursive);
      WalkExtends(env, next, bs[1..]);
      EvalBlockReads(env, st, seen, bs[0]);
      var mid := EvalBlockOrders(env, first, st, seen, bs[0], done);
      more := EvalOrders(env, first, one.0, next, bs[1..], mid);
      DoneLonger(env, BlockRefs(env, bs[0]), mid, more);
    }
  }

  lemma {:induction false} EvalBlockOrders(env: Env, first: map<Zid, Attributes>, st: State, seen: map<Zid, Attributes>,
                                           b: Block, done: seq<Zid>) returns (more: seq<Zid>)
    requires seen.Keys == st.costs.Keys && Extends(WalkBlock(env, seen, b), first)
    requires InOrder(env, first, done) && Remembered(st, done)
    requires FreeOf(EvalBlock(env, st, b), TooMany) && FreeOf(EvalBlock(env, st, b), Recursive)
    ensures done <= more && InOrder(env, first, more) && Remembered(EvalBlock(env, st, b).0, more)
    ensures Done(env, BlockRefs(env, b), more)
    decreases Remaining(env, st), b
  {
    FreeInside(env, st, b, TooMany);
    FreeInside(env, st, b, Recursive);
    more := done;
    match b
    case Region(children) => more := EvalOrders(env, first, st, seen, children, done);
    case Picture(descr) => more := EvalOrders(env, first, st, seen, descr, done);
    case Embedded(content, _) => more := EvalOrders(env, first, Count(st), seen, content, done);
    case Transclude(ref, part) =>
      LimitShows(env, st, ref, part);
      FreeOne(Error(Recursive), Recursive);
      if Reads(env, st, ref, part) {
        more := ZettelOrders(env, first, st, seen, ref, part, Target(env, ref, part).value, done);
      }
    case _ =>
  }

  lemma {:induction false} ZettelOrders(env: Env, first: map<Zid, Attributes>, st: State, seen: map<Zid, Attributes>,
                                        ref: Reference, part: Part, r: Ref, done: seq<Zid>) returns (more: seq<Zid>)
    requires seen.Keys == st.costs.Keys && r.0 !in st.costs && CanRead(env, r.0) && Target(env, ref, part) == Some(r)
    requires Extends(Walk(env, seen[r.0 := r.1], Body(env, r.0, r.1)), first)
    requires InOrder(env, first, done) && Remembered(st, done)
    requires var e := ReadRef(env, st, r); var after := Remember(e.0, r.0, e.1, st.count);
             FreeState(after, TooMany) && FreeState(after, Recursive)
    ensures done <= more && InOrder(env, first, more) && r.0 in more
    ensures var e := ReadRef(env, st, r); Remembered(Remember(e.0, r.0, e.1, st.count), more)
    decreases Remaining(env, st), ref
  {
    var body, marked := Body(env, r.0, r.1), Mark(st, r.0);
    FreeRead(env, st, r, TooMany);
    FreeRead(env, st, r, Recursive);
    MarkShrinks(env, st, r.0);
    WalkExtends(env, seen[r.0 := r.1], body);
    assert r.0 in seen[r.0 := r.1];
    var inner := EvalOrders(env, first, marked, seen[r.0 := r.1], body, done);
    EvalBlocksKept(env, marked, body);
    assert r.0 in marked.costs;
    InOrderSnoc(env, first, inner, r.0);
    more := inner + [r.0];
  }

  /** One more than the position of a zettel, or zero. */
  function Place(done: seq<Zid>, z: Zid): (n: nat)
    ensures n <= |done| && if z in done then n > 0 && done[n - 1] == z else n == 0
    ensures forall i :: 0 <= i < n - 1 ==> done[i] != z
  {
    if z !in done then 0
    else if done[0] == z then 1
    else 1 + Place(done[1..], z)
  }

  /** All references in a text and in the zettel of an order, ranked by the place of what they refer to. */
  ghost function OrderRefs(env: Env, first: map<Zid, Attributes>, done: seq<Zid>): (r: set<Ref>)
    requires InOrder(env, first, done)
  {
    set i, q | 0 <= i < |done| && q in Refs(env, Body(env, done[i], first[done[i]])) :: q
  }

  ghost function OrderRank(env: Env, first: map<Zid, Attributes>, done: seq<Zid>, refs: set<Ref>): (rank: Rank)
    requires InOrder(env, first, done)
  {
    map r: Ref | r in refs + OrderRefs(env, first, done) :: Place(done, r.0)
  }

  lemma OrderRanks(env: Env, first: map<Zid, Attributes>, done: seq<Zid>, refs: set<Ref>)
    requires InOrder(env, first, done) && Done(env, refs, done)
    ensures NoCycle(env, first, OrderRank(env, first, done, refs))
    ensures Below(OrderRank(env, first, done, refs), refs, |done| + 1)
  {
    var rank := OrderRank(env, first, done, refs);
    forall r | r in rank && CanRead(env, r.0)
      ensures Below(rank, Refs(env, Body(env, r.0, AsFirst(first).Read(r))), rank[r])
    {
      RankedInside(env, first, done, refs, rank, r);
    }
  }

  lemma RankedInside(env: Env, first: map<Zid, Attributes>, done: seq<Zid>, refs: set<Ref>, rank: Rank, r: Ref)
    requires InOrder(env, first, done) && Done(env, refs, done) && r in rank && CanRead(env, r.0)
    requires rank == OrderRank(env, first, done, refs)
    ensures Below(rank, Refs(env, Body(env, r.0, AsFirst(first).Read(r))), rank[r])
  {
    if r !in refs {
      var i :| 0 <= i < |done| && r in Refs(env, Body(env, done[i], first[done[i]]));
      assert r.0 in done[..i];
    }
    assert r.0 in done;
    var n := Place(done, r.0);
    assert done[n - 1] == r.0;
    forall q | q in Refs(env, Body(env, r.0, first[r.0])) ensures q in rank && rank[q] < rank[r] {
      assert q in OrderRefs(env, first, done);
      if CanRead(env, q.0) {
        assert q.0 in done[..n - 1];
        PlaceBefore(done, n - 1, q.0);
      }
    }
  }

  lemma PlaceBefore(done: seq<Zid>, n: nat, z: Zid)
    requires n <= |done| && z in done[..n]
    ensures z in done && Place(done, z) <= n
  {
    var i :| 0 <= i < n && done[..n][i] == z;
    assert done[i] == z;
  }

  lemma {:induction false} ExpandFree(env: Env, how: How, rank: Rank, bound: nat, bs: seq<Block>)
    requires Acyclic(env, how, rank) && Below(rank, Refs(env, bs), bound)
    requires PickOk(env) && TextsFree(env, Recursive) && Free(bs, Recursive)
    ensures Free(Expand(env, how, rank, bound, bs), Recursive)
    decreases bound, bs
  {
    if bs != [] {
      ExpandBlockFree(env, how, rank, bound, bs[0]);
      ExpandFree(env, how, rank, bound, bs[1..]);
    }
  }

  lemma {:induction false} ExpandBlockFree(env: Env, how: How, rank: Rank, bound: nat, b: Block)
    requires Acyclic(env, how, rank) && Below(rank, BlockRefs(env, b), bound)
    requires PickOk(env) && TextsFree(env, Recursive) && FreeBlock(b, Recursive)
    ensures Free(ExpandBlock(env, how, rank, bound, b), Recursive)
    decreases bound, b
  {
    match b
    case Region(children) => ExpandFree(env, how, rank, bound, children);
    case Picture(descr) => ExpandFree(env, how, rank, bound, descr);
    case Embedded(content, _) => ExpandFree(env, how, rank, bound, content);
    case Transclude(ref, part) =>
      if Target(env, ref, part).Some? {
        var r := Target(env, ref, part).value;
        assert r in BlockRefs(env, b);
        ExpandRefFree(env, how, rank, r);
        ChosenFree(env, part, ExpandRef(env, how, rank, r), Recursive);
      }
    case _ =>
  }

  lemma {:induction false} ExpandRefFree(env: Env, how: How, rank: Rank, r: Ref)
    requires Acyclic(env, how, rank) && r in rank && PickOk(env) && TextsFree(env, Recursive)
    ensures Free(ExpandRef(env, how, rank, r), Recursive)
    decreases rank[r]
  {
    if CanRead(env, r.0) { ExpandFree(env, how, rank, rank[r], Body(env, r.0, how.Read(r))); }
  }

  /** The references that are met have no cycle. */
  ghost predicate Ends(env: Env, bs: seq<Block>) {
    exists rank, bound :: NoCycle(env, First(env, bs), rank) && Below(rank, Refs(env, bs), bound)
  }

  lemma EndsFree(env: Env, rank: Rank, bound: nat, bs: seq<Block>)
    requires NoCycle(env, First(env, bs), rank) && Below(rank, Refs(env, bs), bound)
    requires PickOk(env) && TextsFree(env, Recursive) && Free(bs, Recursive)
    requires FreeOf(EvalBlocks(env, START, bs), TooMany)
    ensures FreeOf(EvalBlocks(env, START, bs), Recursive)
  {
    var first, r := First(env, bs), EvalBlocks(env, START, bs);
    EvalExpands(env, first, rank, bound, START, map[], bs);
    ExpandFree(env, AsFirst(first), rank, bound, bs);
    EvalReads(env, START, map[], bs);
    FirstMet(env, first, rank, bound, map[], bs);
    MetWithin(env, AsFirst(first), rank, bound, bs);
    forall z | z in r.0.costs && r.0.costs[z].blocks.Some? ensures Free(r.0.costs[z].blocks.value, Recursive) {
      var q := (z, first[z]);
      assert q in rank && FaithfulCost(env, first, rank, bound, q, r.0.costs[z]);
      ExpandRefFree(env, AsFirst(first), rank, q);
    }
  }

  /** Unless the limit is reached, recursion is shown iff the references that are met have a cycle. */
  lemma RecursionShownIff(env: Env, bs: seq<Block>)
    requires PickOk(env) && TextsFree(env, Recursive) && Free(bs, Recursive)
    requires FreeOf(EvalBlocks(env, START, bs), TooMany)
    ensures FreeOf(EvalBlocks(env, START, bs), Recursive) <==> Ends(env, bs)
  {
    if FreeOf(EvalBlocks(env, START, bs), Recursive) {
      var done := EvalOrders(env, First(env, bs), START, map[], bs, []);
      OrderRanks(env, First(env, bs), done, Refs(env, bs));
    }
    if Ends(env, bs) {
      var rank, bound :| NoCycle(env, First(env, bs), rank) && Below(rank, Refs(env, bs), bound);
      EndsFree(env, rank, bound, bs);
    }
  }
}
