/** The search for lines and polygons in a drawing made of characters. */
module Draws {

  datatype Point = Point(x: int, y: int)

  // ---------- Characters ----------

  predicate IsCorner(c: char) { c == '.' || c == '\'' || c == '+' }

  predicate IsTick(c: char) { c == 'x' }

  predicate IsDot(c: char) { c == '*' }

  predicate IsHorizontalChar(c: char) { c == '=' || IsTick(c) || IsDot(c) || c == '-' }

  predicate IsVerticalChar(c: char) { c == ':' || IsTick(c) || IsDot(c) || c == '|' }

  predicate IsDiagonal(c: char) { c == '/' || c == '\\' }

  predicate IsArrowHorizontal(c: char) { c == '<' || c == '>' }

  predicate IsArrowVertical(c: char) { c == '^' || c == 'v' }

  predicate IsPathStart(c: char) {
    (IsCorner(c) || IsHorizontalChar(c) || IsVerticalChar(c) || c == '<' || c == '^' || IsDiagonal(c))
    && !IsTick(c) && !IsDot(c)
  }

  predicate CanHorizontal(c: char) { IsHorizontalChar(c) || IsCorner(c) || IsArrowHorizontal(c) }

  predicate CanVertical(c: char) { IsVerticalChar(c) || IsCorner(c) || IsArrowVertical(c) }

  predicate CanDiagonalFrom(to: char, from: char) {
    if IsArrowVertical(from) || IsCorner(from) then IsDiagonal(to)
    else if IsDiagonal(from) then
      IsDiagonal(to) || IsCorner(to) || IsArrowVertical(to) || IsHorizontalChar(to) || IsVerticalChar(to)
    else if IsHorizontalChar(from) || IsVerticalChar(from) then IsDiagonal(to)
    else false
  }

  // ---------- The grid ----------

  /** The cells row by row. */
  datatype Grid = Grid(width: nat, height: nat, cells: seq<char>)

  predicate GridOk(g: Grid) {
    |g.cells| == g.height * g.width
  }

  predicate InGrid(g: Grid, p: Point) {
    0 <= p.x < g.width && 0 <= p.y < g.height
  }

  function Index(g: Grid, p: Point): (i: nat)
    requires InGrid(g, p)
    ensures i < g.height * g.width
  {
    IndexBound(p.x, p.y, g.width, g.height);
    p.y * g.width + p.x
  }

  lemma IndexBound(x: nat, y: nat, width: nat, height: nat)
    requires x < width && y < height
    ensures 0 <= y * width + x < height * width
  {
    assert y * width + width == (y + 1) * width;
    assert (y + 1) * width <= height * width by { MulMono(y + 1, height, width); }
  }

  lemma {:induction false} MulMono(a: nat, b: nat, c: nat)
    requires a <= b
    ensures a * c <= b * c
    decreases b - a
  {
    if a < b { MulMono(a + 1, b, c); }
  }

  /** Different points are different cells. */
  lemma IndexInjective(g: Grid, p: Point, q: Point)
    requires InGrid(g, p) && InGrid(g, q) && Index(g, p) == Index(g, q)
    ensures p == q
  {
    if p.y < q.y {
      NextRow(p.y, q.y, g.width);
    } else if q.y < p.y {
      NextRow(q.y, p.y, g.width);
    }
  }

  lemma NextRow(y: int, below: int, width: nat)
    requires 0 <= y < below
    ensures y * width + width <= below * width
  {
    assert (y + 1) * width == y * width + width;
    MulMono(y + 1, below, width);
  }

  function At(g: Grid, p: Point): (c: char)
    requires GridOk(g) && InGrid(g, p)
  {
    g.cells[Index(g, p)]
  }

  function Cells(g: Grid): (s: set<Point>)
    ensures forall p :: p in s <==> InGrid(g, p)
  {
    set x, y | 0 <= x < g.width && 0 <= y < g.height :: Point(x, y)
  }

  // ---------- Steps ----------

  predicate Adjacent(p: Point, q: Point) {
    -1 <= q.x - p.x <= 1 && -1 <= q.y - p.y <= 1 && p != q
  }

  /** A path may go on from `p` to `q`. */
  predicate Link(g: Grid, p: Point, q: Point)
    requires GridOk(g)
  {
    && InGrid(g, p) && InGrid(g, q) && Adjacent(p, q)
    && (if p.y == q.y then CanHorizontal(At(g, p)) && CanHorizontal(At(g, q))
        else if p.x == q.x then CanVertical(At(g, p)) && CanVertical(At(g, q))
        else CanDiagonalFrom(At(g, q), At(g, p)))
  }

  /** The points not yet visited that make progress: left, right, up, down, then the diagonals. */
  function Next(g: Grid, seen: set<Point>, p: Point): (r: seq<Point>)
    requires GridOk(g)
  {
    Straight(g, seen, p) + Diagonal(g, seen, p)
  }

  function Straight(g: Grid, seen: set<Point>, p: Point): (r: seq<Point>)
    requires GridOk(g)
  {
    Progress(g, seen, p, -1, 0) + Progress(g, seen, p, 1, 0) + Progress(g, seen, p, 0, -1) + Progress(g, seen, p, 0, 1)
  }

  function Diagonal(g: Grid, seen: set<Point>, p: Point): (r: seq<Point>)
    requires GridOk(g)
  {
    Progress(g, seen, p, -1, -1) + Progress(g, seen, p, 1, -1) +
    Progress(g, seen, p, -1, 1) + Progress(g, seen, p, 1, 1)
  }

  function Progress(g: Grid, seen: set<Point>, p: Point, dx: int, dy: int): (r: seq<Point>)
    requires GridOk(g)
  {
    var q := Point(p.x + dx, p.y + dy);
    if q !in seen && Link(g, p, q) then [q] else []
  }

  lemma StraightExact(g: Grid, seen: set<Point>, p: Point, q: Point)
    requires GridOk(g)
    ensures q in Straight(g, seen, p) <==> q !in seen && Link(g, p, q) && (p.x == q.x || p.y == q.y)
  {
    if Link(g, p, q) && q !in seen && (p.x == q.x || p.y == q.y) {
      assert q in Progress(g, seen, p, q.x - p.x, q.y - p.y);
    }
  }

  lemma DiagonalExact(g: Grid, seen: set<Point>, p: Point, q: Point)
    requires GridOk(g)
    ensures q in Diagonal(g, seen, p) <==> q !in seen && Link(g, p, q) && p.x != q.x && p.y != q.y
  {
    if Link(g, p, q) && q !in seen && p.x != q.x && p.y != q.y {
      assert q in Progress(g, seen, p, q.x - p.x, q.y - p.y);
    }
  }

  lemma NextExact(g: Grid, seen: set<Point>, p: Point, q: Point)
    requires GridOk(g)
    ensures q in Next(g, seen, p) <==> q !in seen && Link(g, p, q)
  {
    StraightExact(g, seen, p, q);
    DiagonalExact(g, seen, p, q);
  }

  // ---------- Paths ----------

  /** Pairwise different points of the grid, each one the character of the one before leads to. */
  ghost predicate Path(g: Grid, points: seq<Point>)
    requires GridOk(g)
  {
    forall i :: 0 <= i < |points| ==>
                  InGrid(g, points[i]) && points[i] !in points[..i] && (i > 0 ==> Link(g, points[i - 1], points[i]))
  }

  lemma PathExtend(g: Grid, points: seq<Point>, n: Point)
    requires GridOk(g) && Path(g, points) && points != [] && n !in points && Link(g, points[|points| - 1], n)
    ensures Path(g, points + [n])
  {
    var longer := points + [n];
    forall i | 0 <= i < |longer|
      ensures InGrid(g, longer[i]) && longer[i] !in longer[..i] && (i > 0 ==> Link(g, longer[i - 1], longer[i]))
    {
      assert longer[..i] == points[..i];
    }
  }

  type Paths = seq<seq<Point>>

  function Points(path: seq<Point>): (s: set<Point>) {
    set p | p in path
  }

  function Cover(objs: Paths): (s: set<Point>) {
    if objs == [] then {} else Cover(objs[..|objs| - 1]) + Points(objs[|objs| - 1])
  }

  lemma {:induction false} CoverAppend(a: Paths, b: Paths)
    ensures Cover(a + b) == Cover(a) + Cover(b)
  {
    if b == [] {
      assert a + b == a;
    } else {
      assert (a + b)[..|a + b| - 1] == a + b[..|b| - 1];
      CoverAppend(a, b[..|b| - 1]);
    }
  }

  lemma {:induction false} CoverHas(objs: Paths, i: nat, p: Point)
    requires i < |objs| && p in objs[i]
    ensures p in Cover(objs)
  {
    if i < |objs| - 1 { CoverHas(objs[..|objs| - 1], i, p); }
  }

  /** Every object has at least two points and is a path. */
  ghost predicate PathsOk(g: Grid, objs: Paths)
    requires GridOk(g)
  {
    forall i :: 0 <= i < |objs| ==> |objs[i]| >= 2 && Path(g, objs[i])
  }

  /** What continues a cell of `some` is in `all`. */
  ghost predicate Followed(g: Grid, some: set<Point>, all: set<Point>)
    requires GridOk(g)
  {
    forall p, q :: p in some && Link(g, p, q) ==> q in all
  }

  class Canvas {
    const g: Grid
    const visited: array<bool>
    var objs: Paths
    /** The points marked in `visited`. */
    ghost var seen: set<Point>

    ghost predicate Valid()
      reads this, visited
    {
      && GridOk(g) && visited.Length == g.height * g.width
      && (forall p :: p in seen ==> InGrid(g, p))
      && (forall p :: InGrid(g, p) ==> (visited[Index(g, p)] <==> p in seen))
    }

    constructor (g: Grid)
      requires GridOk(g)
      ensures Valid() && this.g == g && fresh(visited) && seen == {} && objs == []
    {
      this.g := g;
      visited := new bool[g.height * g.width](_ => false);
      seen, objs := {}, [];
    }

    method Visit(p: Point)
      requires Valid() && InGrid(g, p)
      modifies visited, this`seen
      ensures Valid() && seen == old(seen) + {p}
    {
      visited[Index(g, p)] := true;
      seen := seen + {p};
      forall q | InGrid(g, q) && Index(g, q) == Index(g, p) ensures q == p {
        IndexInjective(g, p, q);
      }
    }

    method Unvisit(p: Point)
      requires Valid() && InGrid(g, p) && p in seen
      modifies visited, this`seen
      ensures Valid() && seen == old(seen) - {p}
    {
      var o := Index(g, p);
      assert visited[o];
      visited[o] := false;
      seen := seen - {p};
      forall q | InGrid(g, q) && Index(g, q) == Index(g, p) ensures q == p {
        IndexInjective(g, p, q);
      }
    }

    predicate IsVisited(p: Point)
      requires Valid() && InGrid(g, p)
      reads this, visited
      ensures IsVisited(p) <==> p in seen
    {
      visited[Index(g, p)]
    }

    method NextPoints(pos: Point) returns (out: seq<Point>)
      requires Valid() && InGrid(g, pos) && pos in seen
      ensures out == Next(g, seen, pos)
    {
      assert IsVisited(pos);
      var level := NextLevel(pos);
      var upright := NextUpright(pos);
      var diagonal := NextDiagonals(pos);
      out := level + upright + diagonal;
    }

    method NextLevel(pos: Point) returns (out: seq<Point>)
      requires Valid() && InGrid(g, pos)
      ensures out == Progress(g, seen, pos, -1, 0) + Progress(g, seen, pos, 1, 0)
    {
      out := [];
      if CanHorizontal(At(g, pos)) {
        if pos.x > 0 { out := NextHorizontal(out, Point(pos.x - 1, pos.y)); }
        if pos.x < g.width - 1 { out := NextHorizontal(out, Point(pos.x + 1, pos.y)); }
      }
    }

    method NextUpright(pos: Point) returns (out: seq<Point>)
      requires Valid() && InGrid(g, pos)
      ensures out == Progress(g, seen, pos, 0, -1) + Progress(g, seen, pos, 0, 1)
    {
      out := [];
      if CanVertical(At(g, pos)) {
        if pos.y > 0 { out := NextVertical(out, Point(pos.x, pos.y - 1)); }
        if pos.y < g.height - 1 { out := NextVertical(out, Point(pos.x, pos.y + 1)); }
      }
    }

    method NextHorizontal(out: seq<Point>, p: Point) returns (out': seq<Point>)
      requires Valid() && InGrid(g, p)
      ensures out' == out + if p !in seen && CanHorizontal(At(g, p)) then [p] else []
    {
      out' := out;
      if !IsVisited(p) && CanHorizontal(At(g, p)) { out' := out + [p]; }
    }

    method NextVertical(out: seq<Point>, p: Point) returns (out': seq<Point>)
      requires Valid() && InGrid(g, p)
      ensures out' == out + if p !in seen && CanVertical(At(g, p)) then [p] else []
    {
      out' := out;
      if !IsVisited(p) && CanVertical(At(g, p)) { out' := out + [p]; }
    }

    method NextDiagonal(out: seq<Point>, from: Point, to: Point) returns (out': seq<Point>)
      requires Valid() && InGrid(g, from) && InGrid(g, to)
      ensures out' == out + if to !in seen && CanDiagonalFrom(At(g, to), At(g, from)) then [to] else []
    {
      out' := out;
      if !IsVisited(to) && CanDiagonalFrom(At(g, to), At(g, from)) { out' := out + [to]; }
    }

    method NextDiagonals(pos: Point) returns (out: seq<Point>)
      requires Valid() && InGrid(g, pos)
      ensures out == Diagonal(g, seen, pos)
    {
      out := [];
      if (pos.x > 0 || pos.x < g.width - 1) && (pos.y > 0 || pos.y < g.height - 1) {
        if pos.y > 0 { out := NextSlanted(out, pos, -1); }
        if pos.y < g.height - 1 { out := NextSlanted(out, pos, 1); }
      }
    }

    method NextSlanted(out: seq<Point>, pos: Point, dy: int) returns (out': seq<Point>)
      requires Valid() && InGrid(g, pos) && 0 <= pos.y + dy < g.height && dy in {-1, 1}
      ensures out' == out + (Progress(g, seen, pos, -1, dy) + Progress(g, seen, pos, 1, dy))
    {
      out' := out;
      if pos.x > 0 { out' := NextDiagonal(out', pos, Point(pos.x - 1, pos.y + dy)); }
      if pos.x < g.width - 1 { out' := NextDiagonal(out', pos, Point(pos.x + 1, pos.y + dy)); }
    }

    /** Nothing makes progress from a path of one point: it is no path, and its point is given up. */
    ghost predicate Alone(points: seq<Point>)
      reads this
      requires GridOk(g)
    {
      |points| == 1 && Next(g, seen, points[0]) == []
    }

    method ScanPath(points: seq<Point>) returns (objs: Paths)
      requires Valid() && points != [] && Path(g, points) && Points(points) <= seen
      modifies visited, this`seen
      ensures Valid()
      ensures old(Alone(points)) ==> objs == [] && seen == old(seen) - {points[0]}
      ensures !old(Alone(points)) ==> Scanned(g, points, old(seen), objs, seen)
      decreases Cells(g) - seen, |points| > 1, 1
    {
      var cur := points[|points| - 1];
      assert InGrid(g, cur) && cur in Points(points);
      var next := NextPoints(cur);
      if |next| == 0 {
        if |points| == 1 {
          Unvisit(cur);
          return [];
        }
        LeafScanned(g, points, seen);
        return [points];
      }
      if cur.x == points[0].x && cur.y == points[0].y + 1 {
        OnePoint(g, cur);
        var rest := ScanPath([cur]);
        ClosedScanned(g, points, old(seen), rest, seen);
        return [points] + rest;
      }
      objs := ScanBranches(points, next);
      BranchesScanned(g, points, old(seen), objs, seen);
    }

    /** The loop over the ways a path may go on. */
    method ScanBranches(points: seq<Point>, next: seq<Point>) returns (objs: Paths)
      requires Valid() && points != [] && Path(g, points) && Points(points) <= seen
      requires next == Next(g, seen, points[|points| - 1])
      modifies visited, this`seen
      ensures Valid() && Branched(g, points, old(seen), objs, seen, next)
      decreases Cells(g) - seen, |points| > 1, 0
    {
      objs := [];
      NoBranch(g, points, seen);
      for i := 0 to |next|
        invariant Valid()
        invariant Branched(g, points, old(seen), objs, seen, next[..i])
      {
        NextExact(g, old(seen), points[|points| - 1], next[i]);
        PrefixStep(next, i);
        objs := ScanBranch(points, old(seen), next[..i], next[i], objs);
      }
      PrefixStep(next, |next|);
    }

    method ScanBranch(points: seq<Point>, ghost was: set<Point>, ghost branches: seq<Point>, n: Point, objs: Paths)
      returns (objs': Paths)
      requires Valid() && points != [] && Path(g, points) && Points(points) <= was && was <= Cells(g)
      requires Link(g, points[|points| - 1], n) && n !in was && Branched(g, points, was, objs, seen, branches)
      modifies visited, this`seen
      ensures Valid() && Branched(g, points, was, objs', seen, branches + [n])
      decreases Cells(g) - was, |points| > 1, 0, 0
    {
      objs' := objs;
      if IsVisited(n) {
        SkipBranch(g, points, was, objs, seen, branches, n);
      } else {
        ghost var before := seen;
        PathExtend(g, points, n);
        Visit(n);
        var more := ScanPath(points + [n]);
        objs' := objs + more;
        AddBranch(g, points, was, objs, before, branches, n, more, seen);
      }
    }

    /** The scan of all paths that start at `p`. */
    method ScanFrom(p: Point)
      requires Valid() && InGrid(g, p) && p !in seen && Explored(g, objs, seen)
      modifies visited, this`seen, this`objs
      ensures Valid() && Explored(g, objs, seen) && old(seen) <= seen && old(objs) <= objs
      ensures p !in seen ==> forall q :: Link(g, p, q) ==> q in seen
    {
      Visit(p);
      OnePoint(g, p);
      ghost var before := seen;
      var more := ScanPath([p]);
      if more == [] {
        LoneStart(g, old(seen), p);
        assert objs + more == objs;
      } else {
        StartScanned(g, objs, old(seen), p, more, seen);
      }
      VisitAll(more);
      objs := objs + more;
    }

    method VisitAll(paths: Paths)
      requires Valid() && Cover(paths) <= seen && PathsOk(g, paths)
      modifies visited, this`seen
      ensures Valid() && seen == old(seen)
    {
      for i := 0 to |paths|
        invariant Valid() && seen == old(seen)
      {
        for j := 0 to |paths[i]|
          invariant Valid() && seen == old(seen)
        {
          CoverHas(paths, i, paths[i][j]);
          Visit(paths[i][j]);
        }
      }
    }

    method FindPaths()
      requires Valid() && seen == {} && objs == []
      modifies visited, this`seen, this`objs
      ensures Valid() && Explored(g, objs, seen) && AllTried(g, seen, g.height, 0)
    {
      for y := 0 to g.height
        invariant Valid() && Explored(g, objs, seen) && AllTried(g, seen, y, 0)
      {
        for x := 0 to g.width
          invariant Valid() && Explored(g, objs, seen) && AllTried(g, seen, y, x)
        {
          var p := Point(x, y);
          ghost var was := seen;
          if !IsVisited(p) && IsPathStart(At(g, p)) { ScanFrom(p); }
          TriedOne(g, was, seen, p);
        }
        TriedRow(g, seen, y);
      }
    }
  }

  /** The visited points are those of the paths found, and everything that continues one of them. */
  ghost predicate Explored(g: Grid, objs: Paths, seen: set<Point>)
    requires GridOk(g)
  {
    PathsOk(g, objs) && seen == Cover(objs) && Followed(g, seen, seen)
  }

  /** Of the cells tried so far, one that may start a path is on one, or has no way to go but into one. */
  ghost predicate AllTried(g: Grid, seen: set<Point>, y: int, x: int)
    requires GridOk(g)
  {
    forall p, q ::
      InGrid(g, p) && (p.y < y || (p.y == y && p.x < x)) && IsPathStart(At(g, p)) && p !in seen && Link(g, p, q)
      ==> q in seen
  }

  lemma TriedOne(g: Grid, was: set<Point>, seen: set<Point>, p: Point)
    requires GridOk(g) && was <= seen && InGrid(g, p) && AllTried(g, was, p.y, p.x)
    requires IsPathStart(At(g, p)) && p !in seen ==> forall q :: Link(g, p, q) ==> q in seen
    ensures AllTried(g, seen, p.y, p.x + 1)
  {}

  lemma TriedRow(g: Grid, seen: set<Point>, y: int)
    requires GridOk(g) && AllTried(g, seen, y, g.width)
    ensures AllTried(g, seen, y + 1, 0)
  {}

  lemma LoneStart(g: Grid, was: set<Point>, p: Point)
    requires GridOk(g) && p !in was && Next(g, was + {p}, p) == []
    ensures forall q :: Link(g, p, q) ==> q in was
    ensures was + {p} - {p} == was
  {
    forall q | Link(g, p, q) ensures q in was {
      NextExact(g, was + {p}, p, q);
    }
  }

  lemma StartScanned(g: Grid, objs: Paths, was: set<Point>, p: Point, more: Paths, seen: set<Point>)
    requires GridOk(g) && Explored(g, objs, was) && Scanned(g, [p], was + {p}, more, seen)
    ensures Explored(g, objs + more, seen) && p in seen && was <= seen && Cover(more) <= seen
  {
    CoverAppend(objs, more);
    assert more[0][0] == p;
    CoverHas(more, 0, p);
    forall a, b | a in seen && Link(g, a, b) ensures b in seen {
      assert a in was || a in seen - (was + {p}) + {p};
    }
  }

  lemma PrefixStep(next: seq<Point>, i: nat)
    requires i <= |next|
    ensures if i == |next| then next[..i] == next else next[..i + 1] == next[..i] + [next[i]]
  {}

  lemma OnePoint(g: Grid, p: Point)
    requires GridOk(g) && InGrid(g, p)
    ensures Path(g, [p]) && Points([p]) == {p}
  {}

  lemma LeafScanned(g: Grid, points: seq<Point>, seen: set<Point>)
    requires GridOk(g) && |points| >= 2 && Path(g, points) && Points(points) <= seen
    requires Next(g, seen, points[|points| - 1]) == []
    ensures Scanned(g, points, seen, [points], seen)
  {
    var cur := points[|points| - 1];
    forall q | Link(g, cur, q) ensures q in seen {
      NextExact(g, seen, cur, q);
    }
    assert Cover([points]) == Cover([]) + Points(points);
    assert seen - seen + {cur} == {cur};
  }

  lemma ClosedScanned(g: Grid, points: seq<Point>, was: set<Point>, rest: Paths, seen: set<Point>)
    requires GridOk(g) && |points| >= 2 && Path(g, points) && Points(points) <= was
    requires Scanned(g, [points[|points| - 1]], was, rest, seen)
    ensures Scanned(g, points, was, [points] + rest, seen)
  {
    CoverAppend([points], rest);
    assert Cover([points]) == Cover([]) + Points(points);
  }

  lemma NoBranch(g: Grid, points: seq<Point>, was: set<Point>)
    requires GridOk(g) && points != []
    ensures Branched(g, points, was, [], was, [])
  {}

  lemma SkipBranch(g: Grid, points: seq<Point>, was: set<Point>, objs: Paths, seen: set<Point>, branches: seq<Point>,
                   n: Point)
    requires GridOk(g) && points != [] && Branched(g, points, was, objs, seen, branches) && n in seen && n !in was
    ensures Branched(g, points, was, objs, seen, branches + [n])
  {
    assert objs != [];
    assert Points(branches + [n]) == Points(branches) + {n};
  }

  lemma AddBranch(g: Grid, points: seq<Point>, was: set<Point>, objs: Paths, seen: set<Point>, branches: seq<Point>,
                  n: Point, more: Paths, after: set<Point>)
    requires GridOk(g) && points != [] && Branched(g, points, was, objs, seen, branches)
    requires n !in seen && Scanned(g, points + [n], seen + {n}, more, after)
    ensures Branched(g, points, was, objs + more, after, branches + [n])
  {
    CoverAppend(objs, more);
    PathsOkAppend(g, objs, more);
    assert more[0][|points|] == n;
    CoverHas(more, 0, n);
    assert points <= more[0];
    assert Points(branches + [n]) == Points(branches) + {n};
    FollowedMore(g, was, seen, n, after);
  }

  lemma PathsOkAppend(g: Grid, a: Paths, b: Paths)
    requires GridOk(g) && PathsOk(g, a) && PathsOk(g, b)
    ensures PathsOk(g, a + b)
  {}

  lemma FollowedMore(g: Grid, was: set<Point>, seen: set<Point>, n: Point, after: set<Point>)
    requires GridOk(g) && Followed(g, seen - was, seen) && seen <= after
    requires Followed(g, after - (seen + {n}) + {n}, after)
    ensures Followed(g, after - was, after)
  {
    forall p, q | p in after - was && Link(g, p, q) ensures q in after {
      assert p in seen - was || p in after - (seen + {n}) + {n};
    }
  }

  lemma BranchesScanned(g: Grid, points: seq<Point>, was: set<Point>, objs: Paths, seen: set<Point>)
    requires GridOk(g) && points != [] && Next(g, was, points[|points| - 1]) != []
    requires Branched(g, points, was, objs, seen, Next(g, was, points[|points| - 1]))
    ensures Scanned(g, points, was, objs, seen)
  {
    var cur := points[|points| - 1];
    forall q | Link(g, cur, q) ensures q in seen {
      NextExact(g, was, cur, q);
    }
  }

  /** What a scan has found that starts with the path `points`. */
  ghost predicate Scanned(g: Grid, points: seq<Point>, was: set<Point>, objs: Paths, seen: set<Point>)
    requires GridOk(g) && points != []
  {
    && objs != [] && points <= objs[0] && PathsOk(g, objs)
    && seen == was + Cover(objs)
    && Followed(g, seen - was + {points[|points| - 1]}, seen)
  }

  /** What the branches at the end of a path have found so far. */
  ghost predicate Branched(g: Grid, points: seq<Point>, was: set<Point>, objs: Paths, seen: set<Point>,
                           branches: seq<Point>)
    requires GridOk(g)
  {
    && (objs != [] ==> points <= objs[0]) && (branches != [] ==> objs != []) && PathsOk(g, objs)
    && seen == was + Cover(objs)
    && Points(branches) <= seen && Followed(g, seen - was, seen)
  }

  // ---------- Corners ----------

  datatype Direction = H | V | SE | SW | NW | NE

  predicate IsHorizontal(p: Point, q: Point) {
    -1 <= p.x - q.x <= 1 && p.y == q.y
  }

  predicate IsVertical(p: Point, q: Point) {
    -1 <= p.y - q.y <= 1 && p.x == q.x
  }

  function Dir(p: Point, q: Point): (d: Direction)
    requires Adjacent(p, q)
  {
    if p.y == q.y then H
    else if p.x == q.x then V
    else if q.x > p.x then (if q.y > p.y then SE else NE)
    else if q.y > p.y then SW else NW
  }

  /** Consecutive points are next to each other; the path neither turns back at once nor ends where it started. */
  ghost predicate Walkable(points: seq<Point>) {
    && |points| >= 2
    && (forall i :: 0 < i < |points| ==> Adjacent(points[i - 1], points[i]))
    && (forall i :: 1 < i < |points| ==> points[i - 2] != points[i])
    && (|points| >= 3 ==> points[0] != points[|points| - 2] && points[0] != points[|points| - 1])
  }

  lemma PathWalkable(g: Grid, points: seq<Point>)
    requires GridOk(g) && Path(g, points) && |points| >= 2
    ensures Walkable(points)
  {
    forall i | 1 < i < |points| ensures points[i - 2] != points[i] {
      assert points[i - 2] in points[..i];
    }
    if |points| >= 3 {
      assert points[0] in points[..|points| - 2] && points[0] in points[..|points| - 1];
    }
  }

  predicate TurnsAt(points: seq<Point>, n: nat)
    requires Walkable(points) && 0 < n < |points| - 1
  {
    Dir(points[n - 1], points[n]) != Dir(points[n], points[n + 1])
  }

  /** The start and the points up to the `n`-th, exclusively, at which the direction changes. */
  function Turns(points: seq<Point>, n: nat): (r: seq<Point>)
    requires Walkable(points) && 0 < n < |points|
  {
    if n == 1 then [points[0]]
    else if TurnsAt(points, n - 1) then Turns(points, n - 1) + [points[n - 1]]
    else Turns(points, n - 1)
  }

  /** The last point leads to the first one, in the direction of the last stretch of the path. */
  predicate Closed(points: seq<Point>)
    requires Walkable(points)
  {
    var last := points[|points| - 1];
    && |points| >= 3 && Adjacent(last, points[0])
    && Dir(last, points[0]) in {H, V, NE} && Dir(last, points[0]) == Dir(points[|points| - 2], last)
  }

  function Corners(points: seq<Point>): (r: seq<Point>)
    requires Walkable(points)
  {
    if |points| < 3 then points
    else Turns(points, |points| - 1) + if Closed(points) then [] else [points[|points| - 1]]
  }

  method PointsToCorners(points: seq<Point>) returns (out: seq<Point>, closed: bool)
    requires Walkable(points)
    ensures out == Corners(points) && closed == Closed(points)
  {
    var l := |points|;
    if l < 3 { return points, false; }
    out := [points[0]];
    var dir := Dir(points[0], points[1]);
    for i := 2 to l
      invariant out == Turns(points, i - 1) && dir == Dir(points[i - 2], points[i - 1])
    {
      var newDir := Dir(points[i - 1], points[i]);
      if dir != newDir {
        out := out + [points[i - 1]];
        dir := newDir;
      }
    }
    var last := points[l - 1];
    if IsHorizontal(points[0], last) {
      closed := dir == H;
    } else if IsVertical(points[0], last) {
      closed := dir == V;
    } else if last.x - points[0].x == -1 && last.y - points[0].y == 1 {
      closed := dir == NE;
    } else {
      closed := false;
    }
    if !closed { out := out + [last]; }
  }

  // ---------- A path is determined by its corners ----------

  function Sgn(d: int): (s: int) {
    if d < 0 then -1 else if d == 0 then 0 else 1
  }

  function Abs(d: int): (n: nat) {
    if d < 0 then -d else d
  }

  /** The neighbour of `b` in the direction of `a`. */
  function Back(a: Point, b: Point): (p: Point) {
    Point(b.x - Sgn(b.x - a.x), b.y - Sgn(b.y - a.y))
  }

  /** The points from `a`, inclusively, straight on to `b`, exclusively. */
  function Segment(a: Point, b: Point): (r: seq<Point>)
    decreases Abs(b.x - a.x) + Abs(b.y - a.y)
  {
    if a == b then [] else Segment(a, Back(a, b)) + [Back(a, b)]
  }

  /** The points on the way from corner to corner, without the last corner. */
  function Walk(corners: seq<Point>): (r: seq<Point>) {
    if |corners| < 2 then []
    else Walk(corners[..|corners| - 1]) + Segment(corners[|corners| - 2], corners[|corners| - 1])
  }

  /** The step to the point `q` after the `n`-th keeps to the direction from the last turn. */
  ghost predicate Onward(c: Point, p: Point, q: Point) {
    Sgn(q.x - c.x) == q.x - p.x && Sgn(q.y - c.y) == q.y - p.y
  }

  /** Up to the next turn a path is a straight line. */
  lemma {:induction false} NoBend(points: seq<Point>, n: nat)
    requires Walkable(points) && 0 < n < |points|
    ensures Turns(points, n) != []
    ensures var t := Turns(points, n); Onward(t[|t| - 1], points[n - 1], points[n])
  {
    if n > 1 && !TurnsAt(points, n - 1) {
      NoBend(points, n - 1);
      assert points[n - 2] != points[n];
    }
  }

  lemma WalkSnoc(corners: seq<Point>, q: Point)
    requires corners != []
    ensures Walk(corners + [q]) == Walk(corners) + Segment(corners[|corners| - 1], q)
  {
    assert (corners + [q])[..|corners|] == corners;
  }

  lemma SegmentOn(c: Point, p: Point, q: Point)
    requires Onward(c, p, q) && c != q
    ensures Segment(c, q) == Segment(c, p) + [p]
  {
    assert Back(c, q) == p;
  }

  lemma WalkOn(corners: seq<Point>, p: Point, q: Point)
    requires corners != [] && Onward(corners[|corners| - 1], p, q) && corners[|corners| - 1] != q
    ensures Walk(corners + [q]) == Walk(corners + [p]) + [p]
  {
    var c := corners[|corners| - 1];
    WalkSnoc(corners, q);
    WalkSnoc(corners, p);
    SegmentOn(c, p, q);
    ConcatAssociative(Walk(corners), Segment(c, p), [p]);
  }

  lemma ConcatAssociative(a: seq<Point>, b: seq<Point>, c: seq<Point>)
    ensures a + (b + c) == a + b + c
  {}

  /** The way to the `n`-th point along the corners so far is the path up to it. */
  lemma {:induction false} WalkTurns(points: seq<Point>, n: nat)
    requires Walkable(points) && 0 < n < |points|
    ensures Turns(points, n) != [] && Walk(Turns(points, n) + [points[n]]) == points[..n]
  {
    NoBend(points, n);
    var t := Turns(points, n);
    WalkOn(t, points[n - 1], points[n]);
    if n == 1 {
      assert [points[0]] + [points[0]] == [points[0], points[0]];
      assert Walk([points[0], points[0]]) == Walk([points[0]]) + Segment(points[0], points[0]);
    } else {
      WalkTurns(points, n - 1);
      if TurnsAt(points, n - 1) {
        assert (t + [points[n - 1]])[..|t|] == t;
        assert Segment(points[n - 1], points[n - 1]) == [];
      }
    }
  }

  /** The step that closes a path goes straight on. */
  lemma ClosedOnward(points: seq<Point>)
    requires Walkable(points) && Closed(points)
    ensures var t := Turns(points, |points| - 1);
            t != [] && Onward(t[|t| - 1], points[|points| - 1], points[0]) && t[|t| - 1] != points[0]
  {
    NoBend(points, |points| - 1);
    assert points[0] != points[|points| - 2];
  }

  lemma FrontLast(points: seq<Point>)
    requires points != []
    ensures points == points[..|points| - 1] + [points[|points| - 1]]
  {}

  lemma ClosedRoundTrip(points: seq<Point>)
    requires Walkable(points) && Closed(points)
    ensures Corners(points) != [] && points == Walk(Corners(points) + [Corners(points)[0]])
  {
    var t := Turns(points, |points| - 1);
    WalkTurns(points, |points| - 1);
    ClosedOnward(points);
    TurnsStart(points, |points| - 1);
    WalkOn(t, points[|points| - 1], points[0]);
    FrontLast(points);
    assert t + [] == t;
  }

  lemma OpenRoundTrip(points: seq<Point>)
    requires Walkable(points) && !Closed(points)
    ensures Corners(points) != [] && points == Walk(Corners(points)) + [points[|points| - 1]]
  {
    var last := points[|points| - 1];
    WalkTurns(points, |points| - 1);
    FrontLast(points);
    assert |points| == 2 ==> Turns(points, 1) + [last] == points;
    assert Corners(points) == Turns(points, |points| - 1) + [last];
  }

  /** Walking from corner to corner, and for a closed path back to the first, gives back the path. */
  lemma CornersRoundTrip(points: seq<Point>)
    requires Walkable(points)
    ensures Corners(points) != []
    ensures points == if Closed(points) then Walk(Corners(points) + [Corners(points)[0]])
                      else Walk(Corners(points)) + [points[|points| - 1]]
  {
    if Closed(points) { ClosedRoundTrip(points); } else { OpenRoundTrip(points); }
  }

  lemma {:induction false} TurnsStart(points: seq<Point>, n: nat)
    requires Walkable(points) && 0 < n < |points|
    ensures Turns(points, n) != [] && Turns(points, n)[0] == points[0]
  {
    if n > 1 { TurnsStart(points, n - 1); }
  }

  /** Two paths with the same corners, both closed or both open, are the same path. */
  lemma CornersDetermine(a: seq<Point>, b: seq<Point>)
    requires Walkable(a) && Walkable(b) && Corners(a) == Corners(b) && Closed(a) == Closed(b)
    ensures a == b
  {
    CornersRoundTrip(a);
    CornersRoundTrip(b);
    LastCorner(a);
    LastCorner(b);
  }

  lemma LastCorner(points: seq<Point>)
    requires Walkable(points)
    ensures Corners(points) != []
    ensures !Closed(points) ==> Corners(points)[|Corners(points)| - 1] == points[|points| - 1]
  {
    CornersRoundTrip(points);
  }

  // ---------- No point on a straight stretch is a corner ----------

  /** The step after a point is another one than the step to it. */
  predicate Bends(points: seq<Point>, n: nat)
    requires 0 < n < |points| - 1
  {
    || points[n + 1].x - points[n].x != points[n].x - points[n - 1].x
    || points[n + 1].y - points[n].y != points[n].y - points[n - 1].y
  }

  function BendsBefore(points: seq<Point>, n: nat): (r: set<nat>) {
    set k: nat | 0 < k < n && k < |points| - 1 && Bends(points, k)
  }

  lemma TurnIsBend(points: seq<Point>, n: nat)
    requires Walkable(points) && 0 < n < |points| - 1
    ensures TurnsAt(points, n) <==> Bends(points, n)
  {
    assert Adjacent(points[n - 1], points[n]) && Adjacent(points[n], points[n + 1]);
    assert points[n - 1] == points[n + 1 - 2] != points[n + 1];
  }

  lemma BendsNext(points: seq<Point>, n: nat)
    requires 1 < n < |points|
    ensures var before := BendsBefore(points, n - 1);
            BendsBefore(points, n) == if Bends(points, n - 1) then before + {n - 1} else before
  {}

  lemma {:induction false} TurnsBend(points: seq<Point>, n: nat)
    requires Walkable(points) && 0 < n < |points|
    ensures |Turns(points, n)| == 1 + |BendsBefore(points, n)|
    ensures forall c :: c in Turns(points, n) <==>
            c == points[0] || exists k :: k in BendsBefore(points, n) && c == points[k]
  {
    if n == 1 {
      assert BendsBefore(points, 1) == {};
    } else {
      TurnsBend(points, n - 1);
      TurnIsBend(points, n - 1);
      BendsNext(points, n);
      if Bends(points, n - 1) { assert n - 1 !in BendsBefore(points, n - 1); }
    }
  }

  /** The corners of a path are its start, just the points at which it bends, and its end unless it is closed. */
  lemma CornersBend(points: seq<Point>)
    requires Walkable(points) && |points| >= 3
    ensures var last := |points| - 1;
      && |Corners(points)| == 1 + |BendsBefore(points, last)| + (if Closed(points) then 0 else 1)
      && forall c :: c in Corners(points) <==>
           || c == points[0] || (!Closed(points) && c == points[last])
           || exists k :: k in BendsBefore(points, last) && c == points[k]
  {
    TurnsBend(points, |points| - 1);
  }
}
