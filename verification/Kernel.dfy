/**
 The services of the kernel: they start after what they depend on and stop before it. Starting a
 service may fail; stopping may not.
 */
module Kernels {
  import Zids

  type Service = nat
  type Dependency = map<Service, seq<Service>>

  function Deps(deps: Dependency, s: Service): (r: seq<Service>) {
    if s in deps then deps[s] else []
  }

  /** A numbering in which every service is above all it depends on: the graph has no cycle. */
  ghost predicate Ranked(deps: Dependency, rank: map<Service, nat>) {
    forall s, d :: d in Deps(deps, s) ==> d in rank && s in rank && rank[d] < rank[s]
  }

  /** `x` is `s` or something `s` depends on, in however many steps. */
  ghost predicate DependsOn(deps: Dependency, rank: map<Service, nat>, s: Service, x: Service)
    requires Ranked(deps, rank)
    decreases if s in rank then rank[s] + 1 else 0
  {
    x == s || exists d :: d in Deps(deps, s) && DependsOn(deps, rank, d, x)
  }

  /** The same, but without passing anything that is not in `active`. */
  ghost predicate Needs(deps: Dependency, rank: map<Service, nat>, active: set<Service>, s: Service, x: Service)
    requires Ranked(deps, rank)
    decreases if s in rank then rank[s] + 1 else 0
  {
    s in active && (x == s || exists d :: d in Deps(deps, s) && Needs(deps, rank, active, d, x))
  }

  /** Everything a started service depends on is started. */
  ghost predicate DepClosed(deps: Dependency, started: set<Service>) {
    forall s, d :: s in started && d in Deps(deps, s) ==> d in started
  }

  function Listed(list: seq<Service>): (r: set<Service>) {
    set x | x in list
  }

  /** Active services a listed service depends on are listed before it. */
  ghost predicate Ordered(deps: Dependency, active: set<Service>, list: seq<Service>) {
    forall i, d :: 0 <= i < |list| && d in Deps(deps, list[i]) && d in active ==> d in list[..i]
  }

  lemma {:induction false} NeedsActive(deps: Dependency, rank: map<Service, nat>, active: set<Service>, s: Service,
                                       x: Service)
    requires Ranked(deps, rank) && Needs(deps, rank, active, s, x)
    ensures x in active
    ensures x == s || (x in rank && s in rank && rank[x] < rank[s])
    decreases if s in rank then rank[s] + 1 else 0
  {
    if x != s {
      var d :| d in Deps(deps, s) && Needs(deps, rank, active, d, x);
      NeedsActive(deps, rank, active, d, x);
    }
  }

  /** In a state that is closed, pruning at started services skips nothing that is to be started. */
  lemma {:induction false} PruneStarted(deps: Dependency, rank: map<Service, nat>, srvs: set<Service>,
                                        started: set<Service>, s: Service, x: Service)
    requires Ranked(deps, rank) && DepClosed(deps, started) && DepsWithin(deps, srvs) && s in srvs
    ensures Needs(deps, rank, srvs - started, s, x) <==> DependsOn(deps, rank, s, x) && x !in started
    decreases if s in rank then rank[s] + 1 else 0
  {
    forall d | d in Deps(deps, s)
      ensures Needs(deps, rank, srvs - started, d, x) <==> DependsOn(deps, rank, d, x) && x !in started
    {
      PruneStarted(deps, rank, srvs, started, d, x);
    }
    if s in started && DependsOn(deps, rank, s, x) {
      ClosedDependsOn(deps, rank, started, s, x);
    }
  }

  lemma {:induction false} ClosedDependsOn(deps: Dependency, rank: map<Service, nat>, started: set<Service>, s: Service,
                                           x: Service)
    requires Ranked(deps, rank) && DepClosed(deps, started) && s in started && DependsOn(deps, rank, s, x)
    ensures x in started
    decreases if s in rank then rank[s] + 1 else 0
  {
    if x != s {
      var d :| d in Deps(deps, s) && DependsOn(deps, rank, d, x);
      ClosedDependsOn(deps, rank, started, d, x);
    }
  }

  ghost predicate DepsWithin(deps: Dependency, srvs: set<Service>) {
    forall s, d :: d in Deps(deps, s) ==> s in srvs && d in srvs
  }

  /** `rev` has the edges of `deps`, turned round. */
  ghost predicate Reversed(deps: Dependency, rev: Dependency) {
    forall s, d :: s in Deps(rev, d) <==> d in Deps(deps, s)
  }

  /** Depending on something, read from the other end. */
  lemma {:induction false} ReversedDependsOn(deps: Dependency, rank: map<Service, nat>, rev: Dependency,
                                             rrank: map<Service, nat>, s: Service, x: Service)
    requires Ranked(deps, rank) && Ranked(rev, rrank) && Reversed(deps, rev) && DependsOn(deps, rank, s, x)
    ensures DependsOn(rev, rrank, x, s)
    decreases if s in rank then rank[s] + 1 else 0
  {
    if x != s {
      var d :| d in Deps(deps, s) && DependsOn(deps, rank, d, x);
      ReversedDependsOn(deps, rank, rev, rrank, d, x);
      DependsOnStep(rev, rrank, x, d, s);
    }
  }

  lemma {:induction false} DependsOnStep(deps: Dependency, rank: map<Service, nat>, s: Service, d: Service, x: Service)
    requires Ranked(deps, rank) && DependsOn(deps, rank, s, d) && x in Deps(deps, d)
    ensures DependsOn(deps, rank, s, x)
    decreases if s in rank then rank[s] + 1 else 0
  {
    assert DependsOn(deps, rank, x, x);
    if s != d {
      var e :| e in Deps(deps, s) && DependsOn(deps, rank, e, d);
      DependsOnStep(deps, rank, e, d, x);
    }
  }

  /** The dual of a closed state: with everything that is not started, all that depends on it is not. */
  lemma DualClosed(deps: Dependency, rev: Dependency, srvs: set<Service>, started: set<Service>)
    requires Reversed(deps, rev) && DepClosed(deps, started) && DepsWithin(deps, srvs)
    ensures DepClosed(rev, srvs - started)
  {
    var stopped := srvs - started;
    forall s, d | s in stopped && d in Deps(rev, s) ensures d in stopped {
      assert s in Deps(deps, d);
    }
    assert DepClosed(rev, stopped);
  }

  lemma DualWithin(deps: Dependency, rev: Dependency, srvs: set<Service>)
    requires Reversed(deps, rev) && DepsWithin(deps, srvs)
    ensures DepsWithin(rev, srvs)
  {
    forall s | s in rev ensures forall d :: d in rev[s] ==> s in srvs && d in srvs {
      forall d | d in rev[s] ensures s in srvs && d in srvs {
        assert d in Deps(rev, s);
        assert s in Deps(deps, d);
      }
    }
  }

  const KERNEL: Service := 1
  const CORE: Service := 2
  const CONFIG: Service := 3
  const AUTH: Service := 4
  const BOX: Service := 5
  const WEB: Service := 6

  function DepTable(): (r: Dependency) {
    map[KERNEL := [], CORE := [KERNEL], CONFIG := [CORE], AUTH := [CORE],
        BOX := [CORE, CONFIG, AUTH], WEB := [CONFIG, AUTH, BOX]]
  }

  function RankTable(): (r: map<Service, nat>) {
    map[KERNEL := 0, CORE := 1, CONFIG := 2, AUTH := 2, BOX := 3, WEB := 4]
  }

  /** One line of the table. */
  lemma TableEdge(s: Service, d: Service)
    requires d in Deps(DepTable(), s)
    ensures d in RankTable() && s in RankTable() && RankTable()[d] < RankTable()[s] <= 4
    ensures s != KERNEL
  {
    assert s in DepTable();
    if s == BOX || s == WEB {
      assert d == CORE || d == CONFIG || d == AUTH || (s == WEB && d == BOX);
    } else {
      assert d == KERNEL || (s != CORE && d == CORE);
    }
  }

  /** The dependencies of the program's services have no cycle. */
  lemma TableRanked()
    ensures Ranked(DepTable(), RankTable())
  {
    forall s, d | d in Deps(DepTable(), s)
      ensures d in RankTable() && s in RankTable() && RankTable()[d] < RankTable()[s]
    {
      TableEdge(s, d);
    }
  }

  lemma TableWithin()
    ensures DepsWithin(DepTable(), RankTable().Keys) && DepClosed(DepTable(), {KERNEL})
  {
    forall s, d | d in Deps(DepTable(), s) ensures s in RankTable() && d in RankTable() && s != KERNEL {
      TableEdge(s, d);
    }
  }

  const SERVICES: set<Service> := {KERNEL, CORE, CONFIG, AUTH, BOX, WEB}

  lemma TablesFit(rev: Dependency)
    requires Reversed(DepTable(), rev)
    ensures Ranked(DepTable(), RankTable()) && Ranked(rev, ReversedRank(RankTable(), 4))
    ensures DepsWithin(DepTable(), SERVICES) && DepClosed(DepTable(), {KERNEL}) && KERNEL in SERVICES
  {
    TableRanked();
    TableWithin();
    ReverseRanked(DepTable(), RankTable(), rev, 4);
    assert SERVICES == RankTable().Keys;
  }

  /** Lists for each service the ones that depend on it. */
  method ReverseDependency(deps: Dependency) returns (rev: Dependency)
    ensures Reversed(deps, rev)
  {
    rev := map[];
    var todo := deps.Keys;
    while todo != {}
      invariant todo <= deps.Keys
      invariant forall s, d :: s in Deps(rev, d) <==> s !in todo && d in Deps(deps, s)
    {
      var srv :| srv in todo;
      todo := todo - {srv};
      ghost var r0 := rev;
      for i := 0 to |deps[srv]|
        invariant forall s, d :: s in Deps(rev, d) <==> s in Deps(r0, d) || (s == srv && d in deps[srv][..i])
      {
        var dep := deps[srv][i];
        assert deps[srv][..i + 1] == deps[srv][..i] + [dep];
        ghost var r1 := rev;
        rev := rev[dep := Deps(rev, dep) + [srv]];
        assert forall d :: Deps(rev, d) == if d == dep then Deps(r1, d) + [srv] else Deps(r1, d);
      }
      assert deps[srv][..|deps[srv]|] == deps[srv];
    }
  }

  ghost function ReversedRank(rank: map<Service, nat>, top: nat): (r: map<Service, nat>) {
    map s | s in rank && rank[s] <= top :: top - rank[s]
  }

  lemma ReverseRanked(deps: Dependency, rank: map<Service, nat>, rev: Dependency, top: nat)
    requires Ranked(deps, rank) && Reversed(deps, rev) && forall s :: s in rank ==> rank[s] <= top
    ensures Ranked(rev, ReversedRank(rank, top))
  {
    var r := ReversedRank(rank, top);
    forall s, d | d in Deps(rev, s) ensures d in r && s in r && r[d] < r[s] {
      assert s in Deps(deps, d);
      assert d in rank && s in rank && rank[s] < rank[d];
    }
  }

  class Kernel {
    const srvs: set<Service>
    const depStart: Dependency
    const depStop: Dependency
    /** Services that are started whenever asked, and ignore being stopped: the kernel itself. */
    const always: set<Service>
    ghost const rank: map<Service, nat>
    ghost const rankStop: map<Service, nat>
    var started: set<Service>

    /** The kernel as the program creates it: only the kernel service counts as started. */
    constructor CreateKernel()
      ensures Valid() && started == {KERNEL}
    {
      var rev := ReverseDependency(DepTable());
      srvs, depStart, depStop, always := SERVICES, DepTable(), rev, {KERNEL};
      rank, rankStop := RankTable(), ReversedRank(RankTable(), 4);
      started := {KERNEL};
      new;
      TablesFit(rev);
    }

    ghost predicate WellFormed() {
      && Ranked(depStart, rank) && Ranked(depStop, rankStop) && Reversed(depStart, depStop)
      && DepsWithin(depStart, srvs) && DepClosed(depStart, always)
    }

    /** The invariant of every run: a started service has all its dependencies started. */
    ghost predicate Valid()
      reads this
    {
      WellFormed() && always <= started <= srvs && DepClosed(depStart, started)
    }

    predicate IsStarted(s: Service)
      reads this
    {
      s in started
    }

    /** Starting may fail, and then leaves the service as it was. */
    method Start(s: Service) returns (ok: bool)
      requires s in srvs
      modifies this
      ensures started == if ok then old(started) + {s} else old(started)
    {
      ok := *;
      if ok { started := started + {s}; }
    }

    method Stop(s: Service)
      modifies this
      ensures started == if s in always then old(started) else old(started) - {s}
    {
      if s !in always { started := started - {s}; }
    }

    /** The services in the state other than `isStarted` that `srvnum` needs, each after its own needs. */
    method SortDependency(srvnum: Service, srvdeps: Dependency, isStarted: bool, ghost ranks: map<Service, nat>)
      returns (result: seq<Service>)
      requires Ranked(srvdeps, ranks) && started <= srvs
      ensures forall x :: x in result <==> Needs(srvdeps, ranks, Active(isStarted), srvnum, x)
      ensures Zids.NoDup(result) && Ordered(srvdeps, Active(isStarted), result)
      decreases if srvnum in ranks then ranks[srvnum] + 1 else 0
    {
      if srvnum !in srvs { return []; }
      if IsStarted(srvnum) == isStarted { return []; }
      var deps := Deps(srvdeps, srvnum);
      result := [];
      ghost var active := Active(isStarted);
      for i := 0 to |deps|
        invariant forall x :: x in result <==> NeededBy(srvdeps, ranks, active, deps[..i], x)
        invariant Zids.NoDup(result) && Ordered(srvdeps, active, result)
      {
        var srvDeps := SortDependency(deps[i], srvdeps, isStarted, ranks);
        ghost var r := result;
        result := Merge(result, srvDeps);
        MergeOrdered(srvdeps, active, r, srvDeps, result);
        NeededBySnoc(srvdeps, ranks, active, deps, i);
      }
      assert deps[..|deps|] == deps;
      LastOrdered(srvdeps, ranks, active, result, srvnum);
      result := result + [srvnum];
    }

    ghost function Active(isStarted: bool): (r: set<Service>)
      reads this
    {
      if isStarted then srvs - started else started
    }

    /** Everything that depends on `s`, itself included. */
    ghost predicate Dependent(s: Service, x: Service)
      requires WellFormed()
    {
      DependsOn(depStart, rank, x, s)
    }

    lemma StopList(s: Service, x: Service)
      requires Valid() && s in srvs
      ensures Needs(depStop, rankStop, Active(false), s, x) <==> x in started && Dependent(s, x)
    {
      DualClosed(depStart, depStop, srvs, started);
      DualWithin(depStart, depStop, srvs);
      assert srvs - (srvs - started) == started;
      PruneStarted(depStop, rankStop, srvs, srvs - started, s, x);
      if DependsOn(depStop, rankStop, s, x) { ReversedDependsOn(depStop, rankStop, depStart, rank, s, x); }
      if DependsOn(depStart, rank, x, s) { ReversedDependsOn(depStart, rank, depStop, rankStop, x, s); }
      if Needs(depStop, rankStop, started, s, x) { NeedsActive(depStop, rankStop, started, s, x); }
    }

    /** The services of a stop list: what is started and depends on `s`, dependents first. */
    ghost predicate IsStopList(s: Service, list: seq<Service>)
      requires WellFormed()
      reads this
    {
      && Zids.NoDup(list) && Ordered(depStop, started, list)
      && forall x :: x in list <==> s in srvs && x in started && Dependent(s, x)
    }

    /** The services of a start list: what is not started and `s` depends on, dependents last. */
    ghost predicate IsStartList(s: Service, list: seq<Service>)
      requires WellFormed()
      reads this
    {
      && Zids.NoDup(list) && Ordered(depStart, srvs - started, list)
      && forall x :: x in list <==> s in srvs && x !in started && DependsOn(depStart, rank, s, x)
    }

    /**
     Starts a service after everything it depends on, and nothing else; the first failure ends this, with
     those before it in the list started.
     */
    method DoStartService(srvnum: Service) returns (ok: bool, ghost list: seq<Service>, ghost k: nat)
      requires Valid()
      modifies this
      ensures Valid() && old(IsStartList(srvnum, list))
      ensures k <= |list| && (ok <==> k == |list|) && started == old(started) + Listed(list[..k])
      ensures ok && srvnum in srvs ==> forall x :: x in started <==>
              x in old(started) || DependsOn(depStart, rank, srvnum, x)
      ensures srvnum !in srvs ==> ok && started == old(started)
    {
      ghost var before := started;
      var sorted := SortDependency(srvnum, depStart, true, rank);
      list := sorted;
      if srvnum in srvs {
        forall x { PruneStarted(depStart, rank, srvs, before, srvnum, x); }
      }
      forall x | x in list ensures x in srvs { NeedsActive(depStart, rank, srvs - before, srvnum, x); }
      assert list != [] ==> list[0] in list;
      ok, k := StartAll(sorted);
      assert ok ==> list[..k] == list;
    }

    /** Starts the listed services one by one, until one fails: each after its needs, so that each state is closed. */
    method StartAll(list: seq<Service>) returns (ok: bool, ghost k: nat)
      requires Valid() && Ordered(depStart, srvs - started, list) && forall x :: x in list ==> x in srvs
      modifies this
      ensures Valid() && k <= |list| && (ok <==> k == |list|) && started == old(started) + Listed(list[..k])
    {
      ghost var before := started;
      for i := 0 to |list|
        invariant Valid() && started == before + Listed(list[..i])
      {
        assert list[i] in list && list[..i + 1] == list[..i] + [list[i]];
        StartKeepsClosed(depStart, srvs, before, list, i);
        ok := Start(list[i]);
        if !ok { return false, i; }
      }
      return true, |list|;
    }

    /** Stops a service before it everything that depends on it, and nothing else. */
    method DoStopService(srvnum: Service)
      requires Valid()
      modifies this
      ensures Valid()
      ensures forall x :: x in started <==>
              x in old(started) && (x in always || srvnum !in srvs || !Dependent(srvnum, x))
    {
      ghost var before := started;
      var list := SortDependency(srvnum, depStop, false, rankStop);
      if srvnum in srvs {
        forall x { StopList(srvnum, x); }
      }
      StopAll(list);
    }

    /** Stops the listed services one by one: dependents first, so that each state is closed. */
    method StopAll(list: seq<Service>)
      requires Valid() && Ordered(depStop, started, list) && forall x :: x in list ==> x in started
      modifies this
      ensures Valid() && started == old(started) - (Listed(list) - always)
    {
      ghost var before := started;
      for i := 0 to |list|
        invariant Valid() && started == before - (Listed(list[..i]) - always)
      {
        StopKeepsClosed(depStart, depStop, always, before, list, i);
        Stop(list[i]);
        assert list[..i + 1] == list[..i] + [list[i]];
      }
      assert list[..|list|] == list;
    }

    /**
     Stops the services and starts them again in the opposite order; the first failure ends this, with those
     after it in the stop list started again. Without a failure the state is the one it began with.
     */
    method DoRestartService(srvnum: Service) returns (ok: bool, ghost list: seq<Service>, ghost k: nat)
      requires Valid()
      modifies this
      ensures Valid() && old(IsStopList(srvnum, list))
      ensures k <= |list| && (ok <==> k == 0) && started == old(started) - (Listed(list) - always) + Listed(list[k..])
      ensures ok ==> started == old(started)
    {
      ghost var before := started;
      var deps := SortDependency(srvnum, depStop, false, rankStop);
      list := deps;
      if srvnum in srvs {
        forall x { StopList(srvnum, x); }
      }
      StopAll(deps);
      ghost var stopped := started;
      var i := |deps|;
      while i > 0
        invariant 0 <= i <= |deps| && Valid()
        invariant started == stopped + Listed(deps[i..])
      {
        i := i - 1;
        var srv := deps[i];
        assert deps[i..] == [srv] + deps[i + 1..];
        assert srv in deps;
        RestartKeepsClosed(depStart, depStop, always, before, deps, i);
        ok := Start(srv);
        if !ok { return false, list, i + 1; }
      }
      assert deps[0..] == deps;
      return true, list, 0;
    }
  }

  lemma StartKeepsClosed(deps: Dependency, srvs: set<Service>, before: set<Service>, list: seq<Service>, i: nat)
    requires i < |list| && Ordered(deps, srvs - before, list) && DepsWithin(deps, srvs)
    requires DepClosed(deps, before + Listed(list[..i]))
    ensures DepClosed(deps, before + Listed(list[..i]) + {list[i]})
  {
    var now := before + Listed(list[..i]);
    forall d | d in Deps(deps, list[i]) ensures d in now {
      assert d in srvs;
      if d !in before { assert d in srvs - before; assert d in list[..i]; }
    }
  }

  lemma StopKeepsClosed(deps: Dependency, rev: Dependency, always: set<Service>, before: set<Service>,
                        list: seq<Service>, i: nat)
    requires i < |list| && Ordered(rev, before, list) && Reversed(deps, rev) && DepClosed(deps, always)
    requires DepClosed(deps, before - (Listed(list[..i]) - always))
    ensures list[i] !in always ==> DepClosed(deps, before - (Listed(list[..i]) - always) - {list[i]})
  {
    var now := before - (Listed(list[..i]) - always);
    forall s | s in now && list[i] in Deps(deps, s) ensures list[i] in always {
      assert s in Deps(rev, list[i]);
      assert s in list[..i];
    }
  }

  lemma RestartKeepsClosed(deps: Dependency, rev: Dependency, always: set<Service>, before: set<Service>,
                           list: seq<Service>, i: nat)
    requires i < |list| && Ordered(rev, before, list) && Reversed(deps, rev) && Zids.NoDup(list)
             && DepClosed(deps, before)
    requires forall x :: x in list ==> x in before
    requires DepClosed(deps, before - (Listed(list) - always) + Listed(list[i + 1..]))
    ensures DepClosed(deps, before - (Listed(list) - always) + Listed(list[i + 1..]) + {list[i]})
  {
    var now := before - (Listed(list) - always) + Listed(list[i + 1..]);
    forall d | d in Deps(deps, list[i]) ensures d in now + {list[i]} {
      assert list[i] in list;
      assert d in before;
      if d in list {
        var j :| 0 <= j < |list| && list[j] == d;
        assert list[i] in Deps(rev, list[j]);
        assert list[i] in list[..j];
        assert j > i;
        assert d == list[i + 1..][j - i - 1];
      }
    }
  }

  ghost predicate NeededBy(deps: Dependency, rank: map<Service, nat>, active: set<Service>, ds: seq<Service>,
                           x: Service)
    requires Ranked(deps, rank)
  {
    exists d :: d in ds && Needs(deps, rank, active, d, x)
  }

  lemma NeededBySnoc(deps: Dependency, rank: map<Service, nat>, active: set<Service>, ds: seq<Service>, i: nat)
    requires Ranked(deps, rank) && i < |ds|
    ensures forall x :: NeededBy(deps, rank, active, ds[..i + 1], x) <==>
      NeededBy(deps, rank, active, ds[..i], x) || Needs(deps, rank, active, ds[i], x)
  {
    assert forall d :: d in ds[..i + 1] <==> d in ds[..i] || d == ds[i];
  }

  /** `r[j]` is `more[i]`, and all that precedes it in `more` precedes it in `r`. */
  ghost predicate Preceded(more: seq<Service>, i: int, r: seq<Service>, j: int) {
    0 <= i < |more| && 0 <= j < |r| && more[i] == r[j] && forall x :: x in more[..i] ==> x in r[..j]
  }

  ghost predicate Appended(list: seq<Service>, more: seq<Service>, k: nat, r: seq<Service>) {
    forall j :: |list| <= j < |r| ==> PrecededBelow(more, k, r, j)
  }

  ghost predicate PrecededBelow(more: seq<Service>, k: nat, r: seq<Service>, j: int) {
    exists i :: Preceded(more, i, r, j) && i < k
  }

  lemma AppendedSnoc(list: seq<Service>, more: seq<Service>, k: nat, r0: seq<Service>, r: seq<Service>, next: nat)
    requires list <= r0 && Appended(list, more, k, r0) && k < |more| && next == k + 1
    requires if more[k] in r0 then r == r0 else r == r0 + [more[k]]
    requires forall x :: x in more[..k] ==> x in r0
    ensures Appended(list, more, next, r)
  {
    forall j | |list| <= j < |r| ensures PrecededBelow(more, next, r, j) {
      if j < |r0| {
        assert PrecededBelow(more, k, r0, j);
        var i :| Preceded(more, i, r0, j) && i < k;
        assert r[..j] == r0[..j];
        assert Preceded(more, i, r, j);
      } else {
        assert r[..j] == r0;
        assert Preceded(more, k, r, j);
      }
    }
  }

  /** Appends what is not there yet. */
  method Merge(list: seq<Service>, more: seq<Service>) returns (r: seq<Service>)
    requires Zids.NoDup(list)
    ensures list <= r && Zids.NoDup(r) && forall x :: x in r <==> x in list || x in more
    ensures Appended(list, more, |more|, r)
  {
    r := list;
    for k := 0 to |more|
      invariant list <= r && Zids.NoDup(r) && forall x :: x in r <==> x in list || x in more[..k]
      invariant Appended(list, more, k, r)
    {
      assert more[..k + 1] == more[..k] + [more[k]];
      ghost var r0 := r;
      if more[k] !in r { r := r + [more[k]]; }
      AppendedSnoc(list, more, k, r0, r, k + 1);
    }
    assert more[..|more|] == more;
  }

  lemma MergeOrdered(deps: Dependency, active: set<Service>, list: seq<Service>, more: seq<Service>, r: seq<Service>)
    requires Ordered(deps, active, list) && Ordered(deps, active, more) && list <= r
    requires Appended(list, more, |more|, r)
    ensures Ordered(deps, active, r)
  {
    forall j, d | 0 <= j < |r| && d in Deps(deps, r[j]) && d in active ensures d in r[..j] {
      if j < |list| {
        assert r[j] == list[j] && d in list[..j] && list[..j] == r[..j];
      } else {
        assert PrecededBelow(more, |more|, r, j);
        var i :| Preceded(more, i, r, j);
        assert d in more[..i];
      }
    }
  }

  lemma LastOrdered(deps: Dependency, rank: map<Service, nat>, active: set<Service>, list: seq<Service>, s: Service)
    requires Ranked(deps, rank) && s in active && Zids.NoDup(list) && Ordered(deps, active, list)
    requires forall x :: x in list <==> NeededBy(deps, rank, active, Deps(deps, s), x)
    ensures Zids.NoDup(list + [s]) && Ordered(deps, active, list + [s])
    ensures forall x :: x in list + [s] <==> Needs(deps, rank, active, s, x)
  {
    forall x | x in list ensures x != s && Needs(deps, rank, active, s, x) {
      var d :| d in Deps(deps, s) && Needs(deps, rank, active, d, x);
      NeedsActive(deps, rank, active, d, x);
    }
    var r := list + [s];
    forall j, d | 0 <= j < |r| && d in Deps(deps, r[j]) && d in active ensures d in r[..j] {
      if j < |list| {
        assert r[j] == list[j] && r[..j] == list[..j];
      } else {
        assert Needs(deps, rank, active, d, d);
        assert r[..j] == list;
      }
    }
    forall i, j | 0 <= i < j < |r| ensures r[i] != r[j] {
      if j == |list| { assert r[i] in list; }
    }
  }
}
