/**
 The evaluation of transclusions: every block that refers to another zettel is replaced by the
 evaluated blocks of that zettel, and every reference embedded in a paragraph by a part of them. A zettel
 is evaluated once and then remembered; a marker in its place breaks recursion.
 */
module Evaluators {
  import opened Text
  import opened Zids

  type Attributes = nat

  /** No attributes at all. */
  const PLAIN: Attributes := 0

  type Fragment = string

  datatype ErrorKind = TooMany | BrokenRef | SelfRef | IllegalRef | Recursive | NoZettel | NotEmbeddable

  /** What a transclusion refers to. Of a query only its result is modelled: one block, or none. */
  datatype Reference =
    | ZettelRef(zid: Zid, attrs: Attributes)
    | InvalidRef
    | ToSelf
    | KeptRef
    | LocalRef(image: Option<nat>)
    | QueryRef(result: Option<nat>)
    | OtherRef

  /** A transclusion shows the whole zettel, a reference embedded in a paragraph a part of it. */
  datatype Part = Whole | Inline(fragment: Fragment)

  /**
   Blocks, and the inline elements of paragraphs. The text of a zettel inside another one is represented by
   what it is parsed to, and so is the description of an image that is embedded.
   */
  datatype Block =
    | Leaf(id: nat)
    | Region(children: seq<Block>)
    | Embedded(content: seq<Block>, inline: bool)
    | Picture(descr: seq<Block>)
    | Transclude(ref: Reference, part: Part)
    | Error(kind: ErrorKind)

  /** What stands where an embedded reference selects nothing. */
  const NOTHING: Block := Leaf(0)

  /** Only the text of markup can be embedded, and images; those with more than a plain title are pictures. */
  datatype Syntax = Markup | Image(id: nat) | OtherSyntax

  /** How a zettel is read: attributes of a transclusion may change its syntax, and so its blocks. */
  datatype Source = NotAllowed | Unreadable | Readable(syntax: Syntax, parse: Attributes -> seq<Block>)

  /** `pick` searches blocks for the part that is to be embedded. */
  datatype Env = Env(store: map<Zid, Source>, max: int, pick: (seq<Block>, Fragment) -> seq<Block>)

  /** The marker of a zettel that is being evaluated is None. */
  datatype Cost = Cost(blocks: Option<seq<Block>>, ec: int)

  datatype State = State(count: int, costs: map<Zid, Cost>, parsed: seq<Zid>)

  // ---------- What is referred to ----------

  /** A zettel together with the attributes it is transcluded with. */
  type Ref = (Zid, Attributes)

  predicate CanRead(env: Env, z: Zid) {
    z in env.store && env.store[z].Readable?
  }

  function Body(env: Env, z: Zid, a: Attributes): (bs: seq<Block>)
    requires CanRead(env, z)
  {
    env.store[z].parse(a)
  }

  /** What must be evaluated for a reference, if anything. */
  function Target(env: Env, ref: Reference, part: Part): (r: Option<Ref>) {
    match ref
    case ZettelRef(z, a) =>
      if part.Whole? then Some((z, a))
      else if CanRead(env, z) && env.store[z].syntax.Markup? then Some((z, PLAIN))
      else None
    case _ => None
  }

  function Missing(env: Env, z: Zid): (bs: seq<Block>) {
    if z in env.store && env.store[z].NotAllowed? then [] else [Error(NoZettel)]
  }

  /** What stands for a reference if nothing must be evaluated for it. */
  function OtherBlocks(env: Env, ref: Reference, part: Part): (bs: seq<Block>) {
    match ref
    case InvalidRef => [Error(BrokenRef)]
    case ToSelf => [Error(SelfRef)]
    case KeptRef => [Transclude(ref, part)]
    case LocalRef(image) => [if image.Some? then Leaf(image.value) else Transclude(ref, part)]
    case QueryRef(result) =>
      if part.Inline? then [Error(IllegalRef)] else if result.Some? then [Leaf(result.value)] else []
    case OtherRef => [Error(IllegalRef)]
    case ZettelRef(z, _) =>
      if !CanRead(env, z) then Missing(env, z)
      else if env.store[z].syntax.Image? then [Leaf(env.store[z].syntax.id)]
      else [Error(NotEmbeddable)]
  }

  /** Whether such a reference counts as a transclusion. */
  predicate OtherCounts(env: Env, ref: Reference, part: Part) {
    match ref
    case InvalidRef => true
    case ToSelf => true
    case QueryRef(_) => part.Whole?
    case ZettelRef(z, _) => if CanRead(env, z) then !env.store[z].syntax.Image? else Missing(env, z) != []
    case _ => false
  }

  function OrNothing(inline: bool, bs: seq<Block>): (r: seq<Block>) {
    if inline && bs == [] then [NOTHING] else bs
  }

  /** The part of a zettel that is shown. */
  function Chosen(env: Env, part: Part, blocks: seq<Block>): (r: seq<Block>) {
    if part.Whole? then blocks else OrNothing(true, env.pick(blocks, part.fragment))
  }

  // ---------- The evaluation as a function ----------

  function Remaining(env: Env, st: State): (s: set<Zid>) {
    env.store.Keys - st.costs.Keys
  }

  lemma MarkShrinks(env: Env, st: State, zid: Zid)
    requires zid in env.store && zid !in st.costs
    ensures Remaining(env, Mark(st, zid)) < Remaining(env, st)
  {
    assert zid in Remaining(env, st) && zid !in Remaining(env, Mark(st, zid));
  }

  function EvalBlocks(env: Env, st: State, bs: seq<Block>): (r: (State, seq<Block>))
    ensures st.costs.Keys <= r.0.costs.Keys
    decreases Remaining(env, st), bs
  {
    if bs == [] then (st, []) else
    var first := EvalBlock(env, st, bs[0]);
    var rest := EvalBlocks(env, first.0, bs[1..]);
    (rest.0, first.1 + rest.1)
  }

  /** What one block is replaced with. */
  function EvalBlock(env: Env, st: State, b: Block): (r: (State, seq<Block>))
    ensures st.costs.Keys <= r.0.costs.Keys
    decreases Remaining(env, st), b
  {
    match b
    case Region(children) =>
      var r := EvalBlocks(env, st, children);
      (r.0, [Region(r.1)])
    case Embedded(content, inline) =>
      var r := EvalBlocks(env, Count(st), content);
      (r.0, OrNothing(inline, r.1))
    case Picture(descr) =>
      if st.count > env.max then (st.(count := env.max + 1), [Error(TooMany)]) else
      var r := EvalBlocks(env, st, descr);
      (r.0, [Region(r.1)])
    case Transclude(ref, part) => EvalTransclusion(env, st, ref, part)
    case _ => (st, [b])
  }

  function Count(st: State): (r: State) {
    st.(count := st.count + 1)
  }

  function EvalTransclusion(env: Env, st: State, ref: Reference, part: Part): (r: (State, seq<Block>))
    ensures st.costs.Keys <= r.0.costs.Keys
    decreases Remaining(env, st), ref
  {
    if st.count > env.max then (st.(count := env.max + 1), [Error(TooMany)]) else
    match Target(env, ref, part)
    case None => (if OtherCounts(env, ref, part) then Count(st) else st, OtherBlocks(env, ref, part))
    case Some(r) =>
      if r.0 in st.costs then
        if st.costs[r.0].blocks.None? then (Count(st), [Error(Recursive)])
        else Show(env, part, Count(st), st.costs[r.0].blocks.value, st.costs[r.0].ec)
      else if !CanRead(env, r.0) then (if Missing(env, r.0) == [] then st else Count(st), Missing(env, r.0))
      else
        MarkShrinks(env, st, r.0);
        var e := EvalBlocks(env, Mark(st, r.0), Body(env, r.0, r.1));
        Show(env, part, Remember(e.0, r.0, e.1, st.count), e.1, 0)
  }

  /** Shows evaluated blocks, and counts what was counted for them before, unless nothing of them is shown. */
  function Show(env: Env, part: Part, st: State, blocks: seq<Block>, ec: int): (r: (State, seq<Block>))
    ensures r.0.costs == st.costs && r.0.parsed == st.parsed
  {
    (if part.Inline? && env.pick(blocks, part.fragment) == [] then st else AddCost(st, ec), Chosen(env, part, blocks))
  }

  function AddCost(st: State, ec: int): (r: State) {
    if ec > 0 then st.(count := st.count + ec) else st
  }

  function Mark(st: State, zid: Zid): (r: State) {
    State(st.count, st.costs[zid := Cost(None, st.count)], st.parsed + [zid])
  }

  function Remember(st: State, zid: Zid, blocks: seq<Block>, ec: int): (r: State) {
    State(1, st.costs[zid := Cost(Some(blocks), st.count - ec)], st.parsed)
  }

  /** Whether a zettel is evaluated for a reference. */
  predicate Reads(env: Env, st: State, ref: Reference, part: Part) {
    st.count <= env.max && Target(env, ref, part).Some? &&
    var r := Target(env, ref, part).value; r.0 !in st.costs && CanRead(env, r.0)
  }

  /** The evaluation of a zettel that is met for the first time. */
  function ReadRef(env: Env, st: State, r: Ref): (e: (State, seq<Block>))
    requires CanRead(env, r.0)
  {
    EvalBlocks(env, Mark(st, r.0), Body(env, r.0, r.1))
  }

  // ---------- What is left after the evaluation ----------

  /** No zettel is referred to any more, and neither is any text left that has to be parsed. */
  predicate Evaluated(bs: seq<Block>) {
    forall i :: 0 <= i < |bs| ==> EvaluatedBlock(bs[i])
  }

  predicate EvaluatedBlock(b: Block) {
    match b
    case Leaf(_) => true
    case Region(children) => Evaluated(children)
    case Embedded(_, _) => false
    case Picture(_) => false
    case Transclude(ref, _) => ref.KeptRef? || ref == LocalRef(None)
    case Error(_) => true
  }

  /** No error of a kind is shown, nor is there one in a text that still has to be evaluated. */
  predicate Free(bs: seq<Block>, kind: ErrorKind) {
    forall i :: 0 <= i < |bs| ==> FreeBlock(bs[i], kind)
  }

  predicate FreeBlock(b: Block, kind: ErrorKind) {
    match b
    case Region(children) => Free(children, kind)
    case Embedded(content, _) => Free(content, kind)
    case Picture(descr) => Free(descr, kind)
    case Error(k) => k != kind
    case _ => true
  }

  /** What is picked consists of parts of the blocks. */
  ghost predicate PickOk(env: Env) {
    forall bs, f :: PickedOf(bs, env.pick(bs, f))
  }

  ghost predicate PickedOf(bs: seq<Block>, part: seq<Block>) {
    (Evaluated(bs) ==> Evaluated(part)) && forall k :: Free(bs, k) ==> Free(part, k)
  }

  /** The remembered blocks are evaluated, and just these zettel and those being evaluated were parsed, once each. */
  ghost predicate StateOk(st: State) {
    && (forall z :: z in st.costs && st.costs[z].blocks.Some? ==> Evaluated(st.costs[z].blocks.value))
    && NoDup(st.parsed) && (forall z :: z in st.parsed <==> z in st.costs)
  }

  /** Later states only know more: what has been remembered stays, and marks are removed by those who set them. */
  ghost predicate Grows(st: State, st': State) {
    && (forall z :: z in st.costs ==> z in st'.costs && st'.costs[z] == st.costs[z])
    && (forall z :: z in st'.costs && z !in st.costs ==> st'.costs[z].blocks.Some?)
  }

  lemma {:induction false} EvalBlocksKept(env: Env, st: State, bs: seq<Block>)
    ensures Grows(st, EvalBlocks(env, st, bs).0)
    decreases Remaining(env, st), bs
  {
    if bs != [] {
      var first := EvalBlock(env, st, bs[0]);
      EvalBlockKept(env, st, bs[0]);
      EvalBlocksKept(env, first.0, bs[1..]);
    }
  }

  lemma {:induction false} EvalBlockKept(env: Env, st: State, b: Block)
    ensures Grows(st, EvalBlock(env, st, b).0)
    decreases Remaining(env, st), b
  {
    match b
    case Region(children) => EvalBlocksKept(env, st, children);
    case Picture(descr) => EvalBlocksKept(env, st, descr);
    case Embedded(content, _) => EvalBlocksKept(env, Count(st), content);
    case Transclude(ref, part) => EvalTransclusionKept(env, st, ref, part);
    case _ =>
  }

  lemma {:induction false} EvalTransclusionKept(env: Env, st: State, ref: Reference, part: Part)
    ensures Grows(st, EvalTransclusion(env, st, ref, part).0)
    decreases Remaining(env, st), ref
  {
    if Reads(env, st, ref, part) {
      var r := Target(env, ref, part).value;
      MarkShrinks(env, st, r.0);
      EvalBlocksKept(env, Mark(st, r.0), Body(env, r.0, r.1));
      GrowsMarked(st, r.0, ReadRef(env, st, r).0, ReadRef(env, st, r).1);
    }
  }

  lemma GrowsMarked(st: State, zid: Zid, after: State, blocks: seq<Block>)
    requires zid !in st.costs && Grows(Mark(st, zid), after)
    ensures Grows(st, Remember(after, zid, blocks, st.count))
  {
    forall z | z in st.costs ensures z != zid && z in after.costs && after.costs[z] == st.costs[z] {
      assert z in Mark(st, zid).costs;
    }
  }

  lemma {:induction false} EvalBlocksEvaluated(env: Env, st: State, bs: seq<Block>)
    requires StateOk(st) && PickOk(env)
    ensures var r := EvalBlocks(env, st, bs); StateOk(r.0) && Evaluated(r.1)
    decreases Remaining(env, st), bs
  {
    if bs != [] {
      var first := EvalBlock(env, st, bs[0]);
      EvalBlockEvaluated(env, st, bs[0]);
      EvalBlocksEvaluated(env, first.0, bs[1..]);
    }
  }

  lemma {:induction false} EvalBlockEvaluated(env: Env, st: State, b: Block)
    requires StateOk(st) && PickOk(env)
    ensures var r := EvalBlock(env, st, b); StateOk(r.0) && Evaluated(r.1)
    decreases Remaining(env, st), b
  {
    match b
    case Region(children) => EvalBlocksEvaluated(env, st, children);
    case Picture(descr) => EvalBlocksEvaluated(env, st, descr);
    case Embedded(content, _) => EvalBlocksEvaluated(env, Count(st), content);
    case Transclude(ref, part) => EvalTransclusionEvaluated(env, st, ref, part);
    case _ =>
  }

  lemma MarkOk(st: State, zid: Zid)
    requires StateOk(st) && zid !in st.costs
    ensures StateOk(Mark(st, zid))
  {
    var parsed := Mark(st, zid).parsed;
    forall z ensures z in parsed <==> z in Mark(st, zid).costs {
      assert z in parsed <==> z in st.parsed || z == zid;
    }
  }

  lemma RememberOk(st: State, zid: Zid, after: State, blocks: seq<Block>)
    requires StateOk(after) && zid !in st.costs && Grows(Mark(st, zid), after) && Evaluated(blocks)
    ensures StateOk(Remember(after, zid, blocks, st.count))
  {
    assert zid in Mark(st, zid).costs;
  }

  lemma ChosenEvaluated(env: Env, part: Part, blocks: seq<Block>)
    requires PickOk(env) && Evaluated(blocks)
    ensures Evaluated(Chosen(env, part, blocks))
  {
    if part.Inline? { assert PickedOf(blocks, env.pick(blocks, part.fragment)); }
  }

  lemma {:induction false} EvalTransclusionEvaluated(env: Env, st: State, ref: Reference, part: Part)
    requires StateOk(st) && PickOk(env)
    ensures var r := EvalTransclusion(env, st, ref, part); StateOk(r.0) && Evaluated(r.1)
    decreases Remaining(env, st), ref
  {
    if Reads(env, st, ref, part) {
      var r := Target(env, ref, part).value;
      MarkShrinks(env, st, r.0);
      MarkOk(st, r.0);
      EvalBlocksEvaluated(env, Mark(st, r.0), Body(env, r.0, r.1));
      EvalBlocksKept(env, Mark(st, r.0), Body(env, r.0, r.1));
      var e := ReadRef(env, st, r);
      RememberOk(st, r.0, e.0, e.1);
      ChosenEvaluated(env, part, e.1);
    } else if Target(env, ref, part).Some? {
      var z := Target(env, ref, part).value.0;
      if z in st.costs && st.costs[z].blocks.Some? { ChosenEvaluated(env, part, st.costs[z].blocks.value); }
    }
  }

  const START := State(0, map[], [])

  /** However the zettel refer to each other, nothing is left to transclude and no zettel is parsed twice. */
  lemma Transcluded(env: Env, bs: seq<Block>)
    requires PickOk(env)
    ensures var r := EvalBlocks(env, START, bs);
            Evaluated(r.1) && NoDup(r.0.parsed) && forall z :: z in r.0.costs ==> r.0.costs[z].blocks.Some?
  {
    EvalBlocksEvaluated(env, START, bs);
    EvalBlocksKept(env, START, bs);
  }

  // ---------- What a result shows ----------

  /** No error of a kind is remembered. */
  ghost predicate FreeState(st: State, kind: ErrorKind) {
    forall z :: z in st.costs && st.costs[z].blocks.Some? ==> Free(st.costs[z].blocks.value, kind)
  }

  /** An error that occurred is shown, or is remembered with a zettel of which only a part is shown. */
  ghost predicate FreeOf(r: (State, seq<Block>), kind: ErrorKind) {
    FreeState(r.0, kind) && Free(r.1, kind)
  }

  lemma FreeParts(a: seq<Block>, b: seq<Block>, kind: ErrorKind)
    ensures Free(a + b, kind) <==> Free(a, kind) && Free(b, kind)
  {
    if Free(a + b, kind) {
      forall i | 0 <= i < |a| ensures FreeBlock(a[i], kind) { assert (a + b)[i] == a[i]; }
      forall i | 0 <= i < |b| ensures FreeBlock(b[i], kind) { assert (a + b)[|a| + i] == b[i]; }
    }
  }

  lemma FreeOne(b: Block, kind: ErrorKind)
    ensures Free([b], kind) <==> FreeBlock(b, kind)
  {
    assert [b][0] == b;
  }

  lemma FreeFirst(env: Env, st: State, bs: seq<Block>, kind: ErrorKind)
    requires bs != [] && FreeOf(EvalBlocks(env, st, bs), kind)
    ensures var one := EvalBlock(env, st, bs[0]); FreeOf(one, kind) && FreeOf(EvalBlocks(env, one.0, bs[1..]), kind)
  {
    var one := EvalBlock(env, st, bs[0]);
    var rest := EvalBlocks(env, one.0, bs[1..]);
    EvalBlocksKept(env, one.0, bs[1..]);
    FreeParts(one.1, rest.1, kind);
    forall z | z in one.0.costs && one.0.costs[z].blocks.Some? ensures Free(one.0.costs[z].blocks.value, kind) {
      assert rest.0.costs[z] == one.0.costs[z];
    }
  }

  /** What is shown of a block is shown of its content, too. */
  lemma FreeInside(env: Env, st: State, b: Block, kind: ErrorKind)
    requires FreeOf(EvalBlock(env, st, b), kind)
    ensures b.Region? ==> FreeOf(EvalBlocks(env, st, b.children), kind)
    ensures b.Embedded? ==> FreeOf(EvalBlocks(env, Count(st), b.content), kind)
    ensures b.Picture? && st.count <= env.max ==> FreeOf(EvalBlocks(env, st, b.descr), kind)
    ensures b.Picture? && kind == TooMany ==> st.count <= env.max
  {
    FreeOne(Error(TooMany), kind);
    if b.Picture? { FreeOne(Region(EvalBlocks(env, st, b.descr).1), kind); }
    if b.Region? { FreeOne(Region(EvalBlocks(env, st, b.children).1), kind); }
  }

  lemma FreeRead(env: Env, st: State, r: Ref, kind: ErrorKind)
    requires r.0 !in st.costs && CanRead(env, r.0)
    requires var e := ReadRef(env, st, r); FreeState(Remember(e.0, r.0, e.1, st.count), kind)
    ensures FreeOf(ReadRef(env, st, r), kind)
  {
    var e := ReadRef(env, st, r);
    var after := Remember(e.0, r.0, e.1, st.count);
    EvalBlocksKept(env, Mark(st, r.0), Body(env, r.0, r.1));
    assert r.0 in Mark(st, r.0).costs;
    assert after.costs[r.0].blocks.value == e.1;
    forall z | z in e.0.costs && e.0.costs[z].blocks.Some? ensures Free(e.0.costs[z].blocks.value, kind) {
      assert after.costs[z] == e.0.costs[z];
    }
  }

  lemma LimitShows(env: Env, st: State, ref: Reference, part: Part)
    requires FreeOf(EvalTransclusion(env, st, ref, part), TooMany)
    ensures st.count <= env.max
  {
    FreeOne(Error(TooMany), TooMany);
  }

  // ---------- The evaluation in place ----------

  datatype Replacement = Removed | One(block: Block) | Many(blocks: seq<Block>)

  function Blocks(r: Replacement): (bs: seq<Block>) {
    match r
    case Removed => []
    case One(b) => [b]
    case Many(blocks) => blocks
  }

  /** Puts the blocks in the place of the `i`-th; the other result is by how much the index moves. */
  method TranscludeNode(bs: seq<Block>, i: nat, r: Replacement) returns (bs': seq<Block>, delta: int)
    requires i < |bs|
    ensures bs' == bs[..i] + Blocks(r) + bs[i + 1..] && delta == |Blocks(r)| - 1
  {
    match r
    case Many(blocks) =>
      bs' := ReplaceWithBlockNodes(bs, i, blocks);
      delta := |blocks| - 1;
    case Removed =>
      bs', delta := bs[..i] + bs[i + 1..], -1;
    case One(b) =>
      bs', delta := bs[i := b], 0;
  }

  method ReplaceWithBlockNodes(bs: seq<Block>, i: nat, blocks: seq<Block>) returns (r: seq<Block>)
    requires i < |bs|
    ensures r == bs[..i] + blocks + bs[i + 1..]
  {
    if |blocks| == 1 { return bs[i := blocks[0]]; }
    r := [];
    if i > 0 { r := r + bs[..i]; }
    if |blocks| > 0 { r := r + blocks; }
    if i + 1 < |bs| { r := r + bs[i + 1..]; }
  }

  /** What is shown for a reference if no zettel has to be evaluated for it, and how much that counts. */
  ghost predicate Stands(env: Env, ref: Reference, part: Part, shown: seq<Block>, counted: int) {
    match ref
    case InvalidRef => shown == [Error(BrokenRef)] && counted == 1
    case ToSelf => shown == [Error(SelfRef)] && counted == 1
    case KeptRef => shown == [Transclude(KeptRef, part)] && counted == 0
    case LocalRef(None) => shown == [Transclude(LocalRef(None), part)] && counted == 0
    case LocalRef(Some(image)) => shown == [Leaf(image)] && counted == 0
    case QueryRef(result) =>
      if part.Inline? then shown == [Error(IllegalRef)] && counted == 0
      else counted == 1 && shown == if result.Some? then [Leaf(result.value)] else []
    case OtherRef => shown == [Error(IllegalRef)] && counted == 0
    case ZettelRef(z, _) =>
      if z in env.store then
        match env.store[z]
        case NotAllowed => shown == [] && counted == 0
        case Unreadable => shown == [Error(NoZettel)] && counted == 1
        case Readable(Image(id), _) => part.Inline? ==> shown == [Leaf(id)] && counted == 0
        case Readable(OtherSyntax, _) => part.Inline? ==> shown == [Error(NotEmbeddable)] && counted == 1
        case _ => true
      else shown == [Error(NoZettel)] && counted == 1
  }

  type Parts = map<(Zid, Fragment), seq<Block>>

  /** A part that was picked before is the one that would be picked now. */
  ghost predicate PartsOk(env: Env, costs: map<Zid, Cost>, parts: Parts) {
    forall k :: k in parts ==> PartOk(env, costs, k, parts[k])
  }

  ghost predicate PartOk(env: Env, costs: map<Zid, Cost>, k: (Zid, Fragment), part: seq<Block>) {
    k.0 in costs && costs[k.0].blocks.Some? && part == env.pick(costs[k.0].blocks.value, k.1)
  }

  lemma PartsKept(env: Env, costs: map<Zid, Cost>, parts: Parts, zid: Zid, cost: Cost)
    requires PartsOk(env, costs, parts) && (zid in costs ==> costs[zid].blocks.None?)
    ensures PartsOk(env, costs[zid := cost], parts)
  {
    forall k | k in parts ensures PartOk(env, costs[zid := cost], k, parts[k]) {
      assert PartOk(env, costs, k, parts[k]);
    }
  }

  class Evaluator {
    const env: Env
    var transcludeCount: int
    var costMap: map<Zid, Cost>
    /** The parts that were picked before. */
    var embedMap: Parts
    /** The zettel that were parsed, in order. */
    var parsed: seq<Zid>

    constructor (env: Env)
      ensures this.env == env && Current() == START && EmbedsOk()
    {
      this.env, transcludeCount, costMap, embedMap, parsed := env, 0, map[], map[], [];
    }

    ghost function Current(): (st: State)
      reads this
    {
      State(transcludeCount, costMap, parsed)
    }

    ghost predicate EmbedsOk()
      reads this
    {
      PartsOk(env, costMap, embedMap)
    }

    /** The slices of blocks and those of the inline elements in a paragraph. */
    method VisitBlockSlice(blocks: seq<Block>) returns (bs: seq<Block>)
      requires EmbedsOk()
      modifies this
      ensures EmbedsOk() && (Current(), bs) == EvalBlocks(env, old(Current()), blocks)
      decreases Remaining(env, Current()), blocks
    {
      bs := blocks;
      var i := 0;
      ghost var k := 0;
      assert blocks[0..] == blocks && [] + EvalBlocks(env, Current(), blocks).1 == EvalBlocks(env, Current(), blocks).1;
      while i < |bs|
        invariant k <= |blocks| && 0 <= i <= |bs| && bs[i..] == blocks[k..] && EmbedsOk()
        invariant old(Current()).costs.Keys <= costMap.Keys
        invariant var r := EvalBlocks(env, Current(), blocks[k..]);
                  (r.0, bs[..i] + r.1) == EvalBlocks(env, old(Current()), blocks)
        decreases |blocks| - k
      {
        assert bs[i] == bs[i..][0] == blocks[k];
        ghost var st := Current();
        var r := VisitBlock(bs[i]);
        EvalStep(env, st, blocks, k, bs[..i]);
        var delta;
        bs, delta := TranscludeNode(bs, i, r);
        i := i + delta + 1;
        k := k + 1;
      }
      assert bs[..i] + [] == bs;
    }

    /** Walks through the children of a block and says what replaces it. */
    method VisitBlock(b: Block) returns (r: Replacement)
      requires EmbedsOk()
      modifies this
      ensures EmbedsOk() && (Current(), Blocks(r)) == EvalBlock(env, old(Current()), b)
      decreases Remaining(env, Current()), b
    {
      match b
      case Region(children) =>
        var children' := VisitBlockSlice(children);
        r := One(Region(children'));
      case Embedded(content, inline) =>
        transcludeCount := transcludeCount + 1;
        var blocks := VisitBlockSlice(content);
        r := if inline && |blocks| == 0 then One(NOTHING) else Many(blocks);
      case Picture(descr) =>
        if transcludeCount > env.max {
          transcludeCount := env.max + 1;
          return One(Error(TooMany));
        }
        var descr' := VisitBlockSlice(descr);
        r := One(Region(descr'));
      case Transclude(ref, part) =>
        if part.Whole? {
          r := EvalTransclusionNode(ref);
        } else {
          r := EvalEmbedRefNode(ref, part.fragment);
        }
      case _ => r := One(b);
    }

    method EvalTransclusionNode(ref: Reference) returns (r: Replacement)
      requires EmbedsOk()
      modifies this
      ensures EmbedsOk() && (Current(), Blocks(r)) == EvalTransclusion(env, old(Current()), ref, Whole)
      ensures old(transcludeCount) > env.max ==> Blocks(r) == [Error(TooMany)] && transcludeCount > env.max
      ensures old(transcludeCount) <= env.max && !(ref.ZettelRef? && ref.zid in old(costMap)) ==>
                Stands(env, ref, Whole, Blocks(r), transcludeCount - old(transcludeCount))
      decreases Remaining(env, Current()), ref
    {
      if transcludeCount > env.max {
        transcludeCount := env.max + 1;
        return One(Error(TooMany));
      }
      match ref
      case InvalidRef =>
        transcludeCount := transcludeCount + 1;
        r := One(Error(BrokenRef));
      case ToSelf =>
        transcludeCount := transcludeCount + 1;
        r := One(Error(SelfRef));
      case KeptRef => r := One(Transclude(ref, Whole));
      case LocalRef(image) => r := One(if image.Some? then Leaf(image.value) else Transclude(ref, Whole));
      case QueryRef(result) =>
        transcludeCount := transcludeCount + 1;
        r := if result.Some? then One(Leaf(result.value)) else Removed;
      case OtherRef => r := One(Error(IllegalRef));
      case ZettelRef(_, _) => r := TranscludeZettel(ref);
    }

    method TranscludeZettel(ref: Reference) returns (r: Replacement)
      requires ref.ZettelRef? && transcludeCount <= env.max && EmbedsOk()
      modifies this
      ensures EmbedsOk() && (Current(), Blocks(r)) == EvalTransclusion(env, old(Current()), ref, Whole)
      decreases Remaining(env, Current()), ref, 1
    {
      var zid := ref.zid;
      var found := zid in costMap;
      if found && costMap[zid].blocks.None? {
        transcludeCount := transcludeCount + 1;
        return One(Error(Recursive));
      }
      var blocks, cost;
      if found {
        blocks, cost := costMap[zid].blocks.value, costMap[zid].ec;
      } else {
        cost := 0;
        if zid in env.store && env.store[zid].NotAllowed? { return Removed; }
        if zid !in env.store || env.store[zid].Unreadable? {
          transcludeCount := transcludeCount + 1;
          return One(Error(NoZettel));
        }
        blocks := EvaluateZettel(ref, ref.attrs);
      }
      transcludeCount := transcludeCount + 1;
      if cost > 0 { transcludeCount := transcludeCount + cost; }
      r := Many(blocks);
    }

    /** Evaluates a zettel that was not met before, and remembers it. */
    method EvaluateZettel(ref: Reference, attrs: Attributes) returns (blocks: seq<Block>)
      requires ref.ZettelRef? && ref.zid !in costMap && CanRead(env, ref.zid) && EmbedsOk()
      modifies this
      ensures EmbedsOk() && ref.zid in costMap && costMap[ref.zid].blocks == Some(blocks)
      ensures var e := ReadRef(env, old(Current()), (ref.zid, attrs));
              blocks == e.1 && Current() == Remember(e.0, ref.zid, e.1, old(Current()).count).(count := 0)
      decreases Remaining(env, Current()), ref, 0
    {
      var zid, ec := ref.zid, transcludeCount;
      MarkShrinks(env, Current(), zid);
      PartsKept(env, costMap, embedMap, zid, Cost(None, ec));
      costMap := costMap[zid := Cost(None, ec)];
      parsed := parsed + [zid];
      ghost var marked := Current();
      blocks := VisitBlockSlice(env.store[zid].parse(attrs));
      EvalBlocksKept(env, marked, Body(env, zid, attrs));
      assert zid in marked.costs;
      PartsKept(env, costMap, embedMap, zid, Cost(Some(blocks), transcludeCount - ec));
      costMap := costMap[zid := Cost(Some(blocks), transcludeCount - ec)];
      transcludeCount := 0;
    }

    method EvalEmbedRefNode(ref: Reference, fragment: Fragment) returns (r: Replacement)
      requires EmbedsOk()
      modifies this
      ensures EmbedsOk() && (Current(), Blocks(r)) == EvalTransclusion(env, old(Current()), ref, Inline(fragment))
      ensures old(transcludeCount) > env.max ==> Blocks(r) == [Error(TooMany)] && transcludeCount > env.max
      ensures old(transcludeCount) <= env.max ==>
                Stands(env, ref, Inline(fragment), Blocks(r), transcludeCount - old(transcludeCount))
      decreases Remaining(env, Current()), ref
    {
      if transcludeCount > env.max {
        transcludeCount := env.max + 1;
        return One(Error(TooMany));
      }
      match ref
      case InvalidRef =>
        transcludeCount := transcludeCount + 1;
        r := One(Error(BrokenRef));
      case ToSelf =>
        transcludeCount := transcludeCount + 1;
        r := One(Error(SelfRef));
      case KeptRef => r := One(Transclude(ref, Inline(fragment)));
      case LocalRef(image) => r := One(if image.Some? then Leaf(image.value) else Transclude(ref, Inline(fragment)));
      case QueryRef(_) => r := One(Error(IllegalRef));
      case OtherRef => r := One(Error(IllegalRef));
      case ZettelRef(_, _) => r := EmbedZettel(ref, fragment);
    }

    method EmbedZettel(ref: Reference, fragment: Fragment) returns (r: Replacement)
      requires ref.ZettelRef? && transcludeCount <= env.max && EmbedsOk()
      modifies this
      ensures EmbedsOk() && (Current(), Blocks(r)) == EvalTransclusion(env, old(Current()), ref, Inline(fragment))
      decreases Remaining(env, Current()), ref, 2
    {
      var zid := ref.zid;
      if zid in env.store && env.store[zid].NotAllowed? { return Removed; }
      if zid !in env.store || env.store[zid].Unreadable? {
        transcludeCount := transcludeCount + 1;
        return One(Error(NoZettel));
      }
      match env.store[zid].syntax
      case Image(id) => r := One(Leaf(id));
      case OtherSyntax =>
        transcludeCount := transcludeCount + 1;
        r := One(Error(NotEmbeddable));
      case Markup => r := EmbedMarkup(ref, fragment);
    }

    method EmbedMarkup(ref: Reference, fragment: Fragment) returns (r: Replacement)
      requires ref.ZettelRef? && Target(env, ref, Inline(fragment)) == Some((ref.zid, PLAIN))
      requires transcludeCount <= env.max && EmbedsOk()
      modifies this
      ensures EmbedsOk() && (Current(), Blocks(r)) == EvalTransclusion(env, old(Current()), ref, Inline(fragment))
      decreases Remaining(env, Current()), ref, 1
    {
      var zid := ref.zid;
      var found := zid in costMap;
      if found && costMap[zid].blocks.None? {
        transcludeCount := transcludeCount + 1;
        return One(Error(Recursive));
      }
      var blocks, cost;
      if found {
        blocks, cost := costMap[zid].blocks.value, costMap[zid].ec;
      } else {
        cost := 0;
        blocks := EvaluateZettel(ref, PLAIN);
      }
      transcludeCount := transcludeCount + 1;
      var result := PickPart(zid, fragment, blocks);
      if |result| == 0 { return One(NOTHING); }
      if cost > 0 { transcludeCount := transcludeCount + cost; }
      r := Many(result);
    }

    /** The part of an evaluated zettel that is embedded; it is searched for only once. */
    method PickPart(zid: Zid, fragment: Fragment, blocks: seq<Block>) returns (result: seq<Block>)
      requires EmbedsOk() && zid in costMap && costMap[zid].blocks == Some(blocks)
      modifies this`embedMap
      ensures EmbedsOk() && result == env.pick(blocks, fragment)
    {
      if (zid, fragment) in embedMap {
        assert PartOk(env, costMap, (zid, fragment), embedMap[(zid, fragment)]);
        return embedMap[(zid, fragment)];
      }
      result := env.pick(blocks, fragment);
      embedMap := embedMap[(zid, fragment) := result];
    }
  }

  lemma EvalStep(env: Env, st: State, blocks: seq<Block>, k: nat, done: seq<Block>)
    requires k < |blocks|
    ensures var first := EvalBlock(env, st, blocks[k]);
            var rest := EvalBlocks(env, first.0, blocks[k + 1..]);
            var all := EvalBlocks(env, st, blocks[k..]);
            (rest.0, done + first.1 + rest.1) == (all.0, done + all.1)
  {
    assert blocks[k..][1..] == blocks[k + 1..];
    var first := EvalBlock(env, st, blocks[k]);
    var rest := EvalBlocks(env, first.0, blocks[k + 1..]);
    assert done + (first.1 + rest.1) == done + first.1 + rest.1;
  }
}
