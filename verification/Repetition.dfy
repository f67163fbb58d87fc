/**
 What a repeated transclusion costs: a zettel is read once, but each time it is shown again all that was
 counted for it counts again, until the limit is passed.
 */
module Repetitions {
  import opened Text
  import opened Zids
  import opened Evaluators

  /** How many transclusions were counted when the zettel was read for the first time. */
  function Counted(env: Env, st: State, r: Ref): (k: int)
    requires CanRead(env, r.0)
  {
    ReadRef(env, st, r).0.count - st.count
  }

  /** Something of the blocks is shown. */
  predicate Seen(env: Env, part: Part, blocks: seq<Block>) {
    part.Whole? || env.pick(blocks, part.fragment) != []
  }

  /** By how much showing a zettel once more raises the counter. */
  function Price(env: Env, part: Part, blocks: seq<Block>, k: int): (n: nat) {
    1 + if k > 0 && Seen(env, part, blocks) then k else 0
  }

  /** The whole zettel, or the part picked; something stands in its place if that is empty. */
  ghost predicate Shows(env: Env, part: Part, blocks: seq<Block>, shown: seq<Block>) {
    match part
    case Whole => shown == blocks
    case Inline(f) => shown == if env.pick(blocks, f) == [] then [Leaf(0)] else env.pick(blocks, f)
  }

  /** The first transclusion of a zettel shows what was read, and sets the counter to 1. */
  lemma FirstReading(env: Env, st: State, ref: Reference, part: Part)
    requires Reads(env, st, ref, part)
    ensures var r := Target(env, ref, part).value;
            var blocks, after := ReadRef(env, st, r).1, EvalTransclusion(env, st, ref, part);
            && Shows(env, part, blocks, after.1) && after.0.count == 1
            && r.0 in after.0.costs && after.0.costs[r.0] == Cost(Some(blocks), Counted(env, st, r))
  {}

  /**
   A later one, in whatever state, shows the same blocks and raises the counter by all that was counted for them;
   or the limit was passed before.
   */
  lemma RepeatCost(env: Env, st: State, ref: Reference, part: Part, later: State, ref': Reference, part': Part)
    requires Reads(env, st, ref, part) && Grows(EvalTransclusion(env, st, ref, part).0, later)
    requires Target(env, ref', part').Some? && Target(env, ref', part').value.0 == Target(env, ref, part).value.0
    ensures var r := Target(env, ref, part).value;
            var blocks, again := ReadRef(env, st, r).1, EvalTransclusion(env, later, ref', part');
            if later.count > env.max then again.1 == [Error(TooMany)] && again.0.count > env.max else
            && Shows(env, part', blocks, again.1)
            && again.0.count == later.count + Price(env, part', blocks, Counted(env, st, r))
    ensures Grows(later, EvalTransclusion(env, later, ref', part').0)
  {
    FirstReading(env, st, ref, part);
    EvalTransclusionKept(env, later, ref', part');
  }

  // ---------- A text that repeats a transclusion ----------

  function Copies(b: Block, n: nat): (bs: seq<Block>) {
    if n == 0 then [] else [b] + Copies(b, n - 1)
  }

  /** The copies of `shown` from number `i` on; the limit takes the place of those that cost too much. */
  function Repeated(shown: seq<Block>, max: int, price: nat, i: nat, n: nat): (bs: seq<Block>)
    decreases n
  {
    if n == 0 then [] else
    (if i == 0 || 1 + (i - 1) * price <= max then shown else [Error(TooMany)])
    + Repeated(shown, max, price, i + 1, n - 1)
  }

  /** The counter before copy number `i`; nobody can tell how far it went beyond the limit. */
  predicate Counter(c: int, max: int, price: nat, i: nat)
    requires i > 0
  {
    c == 1 + (i - 1) * price || (c > max && 1 + (i - 1) * price > max)
  }

  lemma CounterNext(c: int, max: int, price: nat, i: nat, c': int)
    requires i > 0 && Counter(c, max, price, i)
    requires if c > max then c' > max else c' == c + price
    ensures Counter(c', max, price, i + 1)
  {
    assert i * price == (i - 1) * price + price;
  }

  lemma {:induction false} LaterCopies(env: Env, ref: Reference, part: Part, st: State, price: nat, i: nat, n: nat)
    requires Reads(env, START, ref, part) && Grows(EvalTransclusion(env, START, ref, part).0, st)
    requires var r := Target(env, ref, part).value;
             price == Price(env, part, ReadRef(env, START, r).1, Counted(env, START, r))
    requires i > 0 && Counter(st.count, env.max, price, i)
    ensures EvalBlocks(env, st, Copies(Transclude(ref, part), n)).1
            == Repeated(EvalTransclusion(env, START, ref, part).1, env.max, price, i, n)
    decreases n
  {
    if n > 0 {
      var again := EvalTransclusion(env, st, ref, part);
      NextCopy(env, ref, part, st, price, i);
      LaterCopies(env, ref, part, again.0, price, i + 1, n - 1);
      CopiesFirst(env, st, Transclude(ref, part), n);
    }
  }

  lemma NextCopy(env: Env, ref: Reference, part: Part, st: State, price: nat, i: nat)
    requires Reads(env, START, ref, part) && Grows(EvalTransclusion(env, START, ref, part).0, st)
    requires var r := Target(env, ref, part).value;
             price == Price(env, part, ReadRef(env, START, r).1, Counted(env, START, r))
    requires i > 0 && Counter(st.count, env.max, price, i)
    ensures var again := EvalTransclusion(env, st, ref, part);
            && Grows(EvalTransclusion(env, START, ref, part).0, again.0)
            && Counter(again.0.count, env.max, price, i + 1)
            && again.1 == if 1 + (i - 1) * price <= env.max then EvalTransclusion(env, START, ref, part).1
                          else [Error(TooMany)]
  {
    var again := EvalTransclusion(env, st, ref, part);
    FirstReading(env, START, ref, part);
    RepeatCost(env, START, ref, part, st, ref, part);
    CounterNext(st.count, env.max, price, i, again.0.count);
    GrowsTwice(EvalTransclusion(env, START, ref, part).0, st, again.0);
  }

  lemma GrowsTwice(a: State, b: State, c: State)
    requires Grows(a, b) && Grows(b, c)
    ensures Grows(a, c)
  {}

  lemma CopiesFirst(env: Env, st: State, b: Block, n: nat)
    requires n > 0
    ensures var one := EvalBlock(env, st, b);
            EvalBlocks(env, st, Copies(b, n)).1 == one.1 + EvalBlocks(env, one.0, Copies(b, n - 1)).1
  {
    assert Copies(b, n)[1..] == Copies(b, n - 1);
  }

  /**
   In a text of equal transclusions, copy number `i` is shown iff what is counted for the ones before stays within
   the limit: 1 for the first, and then each time 1 and all that the zettel counted.
   */
  lemma RepeatedText(env: Env, ref: Reference, part: Part, n: nat)
    requires Reads(env, START, ref, part)
    ensures var r := Target(env, ref, part).value;
            var blocks, shown := ReadRef(env, START, r).1, EvalTransclusion(env, START, ref, part).1;
            && Shows(env, part, blocks, shown)
            && EvalBlocks(env, START, Copies(Transclude(ref, part), n)).1
               == Repeated(shown, env.max, Price(env, part, blocks, Counted(env, START, r)), 0, n)
  {
    FirstReading(env, START, ref, part);
    if n > 0 {
      var r := Target(env, ref, part).value;
      var price := Price(env, part, ReadRef(env, START, r).1, Counted(env, START, r));
      CopiesFirst(env, START, Transclude(ref, part), n);
      LaterCopies(env, ref, part, EvalTransclusion(env, START, ref, part).0, price, 1, n - 1);
    }
  }

  lemma {:induction false} RepeatedEnds(shown: seq<Block>, max: int, price: nat, i: nat, n: nat)
    requires i > 0 && 1 + (i - 1) * price > max
    ensures Repeated(shown, max, price, i, n) == Copies(Error(TooMany), n)
    decreases n
  {
    if n > 0 {
      assert i * price == (i - 1) * price + price;
      RepeatedEnds(shown, max, price, i + 1, n - 1);
    }
  }

  lemma {:induction false} RepeatedSplit(shown: seq<Block>, max: int, price: nat, i: nat, m: nat, n: nat)
    ensures Repeated(shown, max, price, i, m + n)
            == Repeated(shown, max, price, i, m) + Repeated(shown, max, price, i + m, n)
    decreases m
  {
    if m > 0 { RepeatedSplit(shown, max, price, i + 1, m - 1, n); }
  }

  /** The limit is enforced: no copy is shown once those before count more than is allowed. */
  lemma RepetitionEnds(env: Env, ref: Reference, part: Part, m: nat, n: nat)
    requires Reads(env, START, ref, part) && m > 0
    requires var r := Target(env, ref, part).value;
             1 + (m - 1) * Price(env, part, ReadRef(env, START, r).1, Counted(env, START, r)) > env.max
    ensures EvalBlocks(env, START, Copies(Transclude(ref, part), m + n)).1
            == EvalBlocks(env, START, Copies(Transclude(ref, part), m)).1 + Copies(Error(TooMany), n)
  {
    var r := Target(env, ref, part).value;
    var price := Price(env, part, ReadRef(env, START, r).1, Counted(env, START, r));
    var shown := EvalTransclusion(env, START, ref, part).1;
    RepeatedText(env, ref, part, m);
    RepeatedText(env, ref, part, m + n);
    RepeatedSplit(shown, env.max, price, 0, m, n);
    RepeatedEnds(shown, env.max, price, m, n);
  }

  // ---------- What the first reading is, and what counts ----------

  /** The first transclusion decides how a zettel is read: with its attributes; but with none if it is embedded. */
  lemma FirstReads(env: Env, st: State, z: Zid, a: Attributes, part: Part)
    requires st.count <= env.max && z !in st.costs && CanRead(env, z)
    requires part.Inline? ==> env.store[z].syntax.Markup?
    ensures var blocks := ReadRef(env, st, (z, if part.Whole? then a else 0)).1;
            Shows(env, part, blocks, EvalTransclusion(env, st, ZettelRef(z, a), part).1)
  {
    FirstReading(env, st, ZettelRef(z, a), part);
  }

  /** No zettel has to be read for these blocks. */
  predicate Alone(env: Env, bs: seq<Block>) {
    forall i :: 0 <= i < |bs| ==> AloneBlock(env, bs[i])
  }

  predicate AloneBlock(env: Env, b: Block) {
    match b
    case Region(children) => Alone(env, children)
    case Embedded(content, _) => Alone(env, content)
    case Picture(descr) => Alone(env, descr)
    case Transclude(ref, part) => Target(env, ref, part).None?
    case _ => true
  }

  /** How many of them count: all texts inside, and those references that are wrong or queries. */
  function Units(env: Env, bs: seq<Block>): (n: nat) {
    if bs == [] then 0 else UnitsBlock(env, bs[0]) + Units(env, bs[1..])
  }

  function UnitsBlock(env: Env, b: Block): (n: nat) {
    match b
    case Region(children) => Units(env, children)
    case Picture(descr) => Units(env, descr)
    case Embedded(content, _) => 1 + Units(env, content)
    case Transclude(InvalidRef, _) => 1
    case Transclude(ToSelf, _) => 1
    case Transclude(QueryRef(_), Whole) => 1
    case Transclude(ZettelRef(z, _), Inline(_)) =>
      if z !in env.store || env.store[z].Unreadable? then 1
      else if env.store[z].Readable? && env.store[z].syntax.OtherSyntax? then 1 else 0
    case _ => 0
  }

  /** Without zettel to be read, as much is counted as there is to count, and nothing is remembered. */
  lemma {:induction false} CountsUnits(env: Env, st: State, bs: seq<Block>)
    requires Alone(env, bs) && st.count + Units(env, bs) <= env.max
    ensures EvalBlocks(env, st, bs).0 == st.(count := st.count + Units(env, bs))
    decreases bs
  {
    if bs != [] {
      CountsUnitsBlock(env, st, bs[0]);
      CountsUnits(env, EvalBlock(env, st, bs[0]).0, bs[1..]);
    }
  }

  lemma {:induction false} CountsUnitsBlock(env: Env, st: State, b: Block)
    requires AloneBlock(env, b) && st.count + UnitsBlock(env, b) <= env.max
    ensures EvalBlock(env, st, b).0 == st.(count := st.count + UnitsBlock(env, b))
    decreases b
  {
    match b
    case Region(children) => CountsUnits(env, st, children);
    case Picture(descr) => CountsUnits(env, st, descr);
    case Embedded(content, _) => CountsUnits(env, Count(st), content);
    case _ =>
  }
}
