/**
 The queue of zettel waiting to be indexed: a linked list of rooms, each with the set of zettel
 waiting in it. A room takes at most `maxLoad` zettel over its whole life, which keeps a zettel
 from being overtaken for ever.
 */
module Anterooms {
  import opened Text
  import opened Zids
  import opened Ids

  const MAPPING_ZID: Zid := 9999999999
  const TEMPORARY_MAPPING_ZID: Zid := 9999999996

  /** One room as a value; only a room made by `Reset` has no set at all. */
  datatype Room = Room(waiting: Option<set<Zid>>, curLoad: nat, reload: bool)

  predicate Accepted(z: Zid) {
    IsValid(z) && z != MAPPING_ZID && z != TEMPORARY_MAPPING_ZID
  }

  function Zettel(room: Room): (s: set<Zid>) {
    if room.waiting.None? then {} else room.waiting.value
  }

  /** `z` waits in a room filled by `EnqueueZettel`. */
  predicate WaitsIn(room: Room, z: Zid) {
    !room.reload && z in Zettel(room)
  }

  predicate Waiting(rooms: seq<Room>, z: Zid) {
    exists i :: 0 <= i < |rooms| && WaitsIn(rooms[i], z)
  }

  // ---------- The operations, on sequences of rooms ----------

  function NewRoom(z: Zid): (r: Room) {
    Room(Some({z}), 1, false)
  }

  /** Whether the room may take one more zettel. */
  predicate HasSpace(maxLoad: int, room: Room) {
    !room.reload && (maxLoad == 0 || room.curLoad < maxLoad)
  }

  function Admit(room: Room, z: Zid): (r: Room) {
    Room(Some(Zettel(room) + {z}), room.curLoad + 1, room.reload)
  }

  function Enqueued(maxLoad: int, rooms: seq<Room>, z: Zid): (r: seq<Room>) {
    if !Accepted(z) || Waiting(rooms, z) then rooms
    else if rooms != [] && HasSpace(maxLoad, rooms[|rooms| - 1]) then
      rooms[|rooms| - 1 := Admit(rooms[|rooms| - 1], z)]
    else rooms + [NewRoom(z)]
  }

  datatype Action = Nothing | Reloading | Index(zid: Zid, reload: bool)

  function Answer(rooms: seq<Room>): (a: Action) {
    if rooms == [] then Nothing
    else if rooms[0].waiting.None? && rooms[0].reload then Reloading
    else if Zettel(rooms[0]) != {} then Index(Max(Zettel(rooms[0])), rooms[0].reload)
    else Nothing
  }

  function Dequeued(rooms: seq<Room>): (r: seq<Room>) {
    if rooms == [] then []
    else if Zettel(rooms[0]) == {} || |Zettel(rooms[0])| == 1 then rooms[1..]
    else rooms[0 := rooms[0].(waiting := Some(Zettel(rooms[0]) - {Max(Zettel(rooms[0]))}))]
  }

  function AfterReset(): (r: seq<Room>) {
    [Room(None, 0, true)]
  }

  function DropReloads(rooms: seq<Room>): (r: seq<Room>) {
    if rooms != [] && rooms[0].reload then DropReloads(rooms[1..]) else rooms
  }

  function Reloaded(rooms: seq<Room>, all: set<Zid>): (r: seq<Room>) {
    if all == {} then [] else [Room(Some(all), |all|, true)] + DropReloads(rooms)
  }

  // ---------- What every operation keeps ----------

  /** A reload room is only ever the first one; every other room has someone waiting. */
  ghost predicate RoomsOk(maxLoad: int, rooms: seq<Room>) {
    forall i :: 0 <= i < |rooms| ==> RoomOk(maxLoad, rooms[i], i)
  }

  ghost predicate RoomOk(maxLoad: int, room: Room, i: nat) {
    && (room.reload ==> i == 0)
    && (room.waiting.None? ==> room.reload)
    && (room.waiting.Some? ==> 0 < |room.waiting.value| <= room.curLoad)
    && (!room.reload && maxLoad > 0 ==> room.curLoad <= maxLoad)
    && (!room.reload ==> forall z :: z in Zettel(room) ==> Accepted(z))
  }

  /** No zettel waits in two rooms. */
  ghost predicate Apart(rooms: seq<Room>) {
    forall i, j, z :: 0 <= i < |rooms| && 0 <= j < |rooms| && WaitsIn(rooms[i], z) && WaitsIn(rooms[j], z) ==> i == j
  }

  datatype Step = Enqueue(zid: Zid) | Dequeue | Reset | Reload(all: set<Zid>)

  function Next(maxLoad: int, rooms: seq<Room>, step: Step): (r: seq<Room>) {
    match step
    case Enqueue(z) => Enqueued(maxLoad, rooms, z)
    case Dequeue => Dequeued(rooms)
    case Reset => AfterReset()
    case Reload(all) => Reloaded(rooms, all)
  }

  function Run(maxLoad: int, rooms: seq<Room>, steps: seq<Step>): (r: seq<Room>)
    decreases |steps|
  {
    if steps == [] then rooms else Run(maxLoad, Next(maxLoad, rooms, steps[0]), steps[1..])
  }

  lemma {:induction false} EnqueueKeepsRooms(maxLoad: int, rooms: seq<Room>, z: Zid)
    requires RoomsOk(maxLoad, rooms) && Apart(rooms)
    ensures RoomsOk(maxLoad, Enqueued(maxLoad, rooms, z)) && Apart(Enqueued(maxLoad, rooms, z))
    ensures forall x :: Waiting(Enqueued(maxLoad, rooms, z), x) <==> Waiting(rooms, x) || (x == z && Accepted(z))
  {
    var after := Enqueued(maxLoad, rooms, z);
    forall x ensures Waiting(after, x) <==> Waiting(rooms, x) || (x == z && Accepted(z)) {
      EnqueueWaiting(maxLoad, rooms, z, x);
    }
    if after != rooms {
      var last := |after| - 1;
      forall i | 0 <= i < |after| ensures RoomOk(maxLoad, after[i], i) {
        if i < last { assert after[i] == rooms[i] && RoomOk(maxLoad, rooms[i], i); }
        else { EnqueueLastOk(maxLoad, rooms, z); }
      }
      EnqueueApart(maxLoad, rooms, z);
    }
  }

  lemma EnqueueApart(maxLoad: int, rooms: seq<Room>, z: Zid)
    requires Apart(rooms)
    ensures Apart(Enqueued(maxLoad, rooms, z))
  {
    var after := Enqueued(maxLoad, rooms, z);
    if after != rooms {
      var last := |after| - 1;
      forall i, x | 0 <= i < |after| && WaitsIn(after[i], x)
        ensures if i < last || x != z then i < |rooms| && WaitsIn(rooms[i], x) else !Waiting(rooms, x)
      {
        if i < last { assert after[i] == rooms[i]; }
      }
    }
  }

  lemma EnqueueLastOk(maxLoad: int, rooms: seq<Room>, z: Zid)
    requires RoomsOk(maxLoad, rooms) && Accepted(z) && !Waiting(rooms, z)
    ensures var after := Enqueued(maxLoad, rooms, z); RoomOk(maxLoad, after[|after| - 1], |after| - 1)
  {
    if rooms != [] && HasSpace(maxLoad, rooms[|rooms| - 1]) {
      var room := rooms[|rooms| - 1];
      assert RoomOk(maxLoad, room, |rooms| - 1);
      assert !WaitsIn(room, z);
      assert |Zettel(room) + {z}| == |Zettel(room)| + 1;
    }
  }

  lemma EnqueueWaiting(maxLoad: int, rooms: seq<Room>, z: Zid, x: Zid)
    ensures Waiting(Enqueued(maxLoad, rooms, z), x) <==> Waiting(rooms, x) || (x == z && Accepted(z))
  {
    var after := Enqueued(maxLoad, rooms, z);
    if after != rooms {
      var last := |after| - 1;
      assert forall i :: 0 <= i < last ==> after[i] == rooms[i];
      assert WaitsIn(after[last], x) <==> x == z || (last < |rooms| && WaitsIn(rooms[last], x));
      if Waiting(after, x) {
        var i :| 0 <= i < |after| && WaitsIn(after[i], x);
        if i < last { assert WaitsIn(rooms[i], x); }
      }
      if Waiting(rooms, x) {
        var i :| 0 <= i < |rooms| && WaitsIn(rooms[i], x);
        assert WaitsIn(after[i], x);
      }
    }
  }

  lemma DequeueKeepsRooms(maxLoad: int, rooms: seq<Room>)
    requires RoomsOk(maxLoad, rooms) && Apart(rooms)
    ensures RoomsOk(maxLoad, Dequeued(rooms)) && Apart(Dequeued(rooms))
    ensures forall x :: Waiting(Dequeued(rooms), x) <==>
                        (Waiting(rooms, x) && Answer(rooms) != Index(x, false))
  {
    var after := Dequeued(rooms);
    if rooms != [] {
      assert RoomOk(maxLoad, rooms[0], 0);
      var shift := |rooms| - |after|;
      forall i | 0 <= i < |after| ensures RoomOk(maxLoad, after[i], i) {
        assert RoomOk(maxLoad, rooms[i + shift], i + shift);
      }
      assert forall i, x :: 0 <= i < |after| && WaitsIn(after[i], x) ==> WaitsIn(rooms[i + shift], x);
      assert Apart(after);
      forall x ensures Waiting(after, x) <==> (Waiting(rooms, x) && Answer(rooms) != Index(x, false)) {
        DequeueWaiting(maxLoad, rooms, x);
      }
    }
  }

  lemma WaitingHead(rooms: seq<Room>, x: Zid)
    requires rooms != []
    ensures Waiting(rooms, x) <==> WaitsIn(rooms[0], x) || Waiting(rooms[1..], x)
  {
    if Waiting(rooms[1..], x) {
      var i :| 0 <= i < |rooms[1..]| && WaitsIn(rooms[1..][i], x);
      assert WaitsIn(rooms[i + 1], x);
    }
    if Waiting(rooms, x) && !WaitsIn(rooms[0], x) {
      var i :| 0 <= i < |rooms| && WaitsIn(rooms[i], x);
      assert WaitsIn(rooms[1..][i - 1], x);
    }
  }

  lemma HeadApart(rooms: seq<Room>, x: Zid)
    requires Apart(rooms) && rooms != [] && WaitsIn(rooms[0], x)
    ensures !Waiting(rooms[1..], x)
  {
    forall i | 0 <= i < |rooms[1..]| ensures !WaitsIn(rooms[1..][i], x) {
      assert rooms[1..][i] == rooms[i + 1];
    }
  }

  lemma DequeueWaiting(maxLoad: int, rooms: seq<Room>, x: Zid)
    requires RoomsOk(maxLoad, rooms) && Apart(rooms) && rooms != []
    ensures Waiting(Dequeued(rooms), x) <==> (Waiting(rooms, x) && Answer(rooms) != Index(x, false))
  {
    var after, head := Dequeued(rooms), rooms[0];
    assert RoomOk(maxLoad, head, 0);
    WaitingHead(rooms, x);
    if WaitsIn(head, x) { HeadApart(rooms, x); }
    if |Zettel(head)| > 1 {
      assert after[1..] == rooms[1..];
      WaitingHead(after, x);
    } else if |Zettel(head)| == 1 {
      Singleton(Zettel(head), Max(Zettel(head)));
    }
  }

  lemma Singleton(s: set<Zid>, x: Zid)
    requires |s| == 1 && x in s
    ensures s == {x}
  {
    assert |s - {x}| == 0;
  }

  lemma DropOne(rooms: seq<Room>, i: nat)
    requires i < |rooms| && rooms[i].reload
    ensures DropReloads(rooms[i..]) == DropReloads(rooms[i + 1..])
  {
    assert rooms[i..][1..] == rooms[i + 1..];
  }

  lemma {:induction false} DropReloadsOk(maxLoad: int, rooms: seq<Room>)
    requires RoomsOk(maxLoad, rooms)
    ensures DropReloads(rooms) == if rooms != [] && rooms[0].reload then rooms[1..] else rooms
  {
    if |rooms| > 1 { assert RoomOk(maxLoad, rooms[1], 1); }
  }

  /** Behind its new first room the queue is what it was without its reload room. */
  lemma ReloadAt(maxLoad: int, rooms: seq<Room>, all: set<Zid>, i: nat)
    requires RoomsOk(maxLoad, rooms) && all != {} && 0 < i < |Reloaded(rooms, all)|
    ensures var k := i + |rooms| - |Reloaded(rooms, all)|; 0 <= k < |rooms| && Reloaded(rooms, all)[i] == rooms[k]
    ensures RoomOk(maxLoad, Reloaded(rooms, all)[i], i)
  {
    DropReloadsOk(maxLoad, rooms);
    var k := i + |rooms| - |Reloaded(rooms, all)|;
    assert RoomOk(maxLoad, rooms[k], k);
  }

  lemma ReloadWaiting(maxLoad: int, rooms: seq<Room>, all: set<Zid>, x: Zid)
    requires RoomsOk(maxLoad, rooms)
    ensures Waiting(Reloaded(rooms, all), x) <==> Waiting(rooms, x) && all != {}
  {
    if all != {} {
      DropReloadsOk(maxLoad, rooms);
      var after := Reloaded(rooms, all);
      if Waiting(after, x) {
        var i :| 0 <= i < |after| && WaitsIn(after[i], x);
        ReloadAt(maxLoad, rooms, all, i);
      }
      if Waiting(rooms, x) {
        var i :| 0 <= i < |rooms| && WaitsIn(rooms[i], x);
        assert WaitsIn(after[i + |after| - |rooms|], x);
      }
    }
  }

  /** A reload that brings zettel keeps those that wait; one that brings none forgets them all. */
  lemma ReloadKeepsRooms(maxLoad: int, rooms: seq<Room>, all: set<Zid>)
    requires RoomsOk(maxLoad, rooms) && Apart(rooms)
    ensures RoomsOk(maxLoad, Reloaded(rooms, all)) && Apart(Reloaded(rooms, all))
    ensures forall x :: Waiting(Reloaded(rooms, all), x) <==> Waiting(rooms, x) && all != {}
  {
    forall x { ReloadWaiting(maxLoad, rooms, all, x); }
    if all != {} {
      var after := Reloaded(rooms, all);
      forall i | 0 < i < |after| ensures after[i] in rooms && RoomOk(maxLoad, after[i], i) {
        ReloadAt(maxLoad, rooms, all, i);
      }
      forall i, j, z | 0 <= i < |after| && 0 <= j < |after| && WaitsIn(after[i], z) && WaitsIn(after[j], z)
        ensures i == j
      {
        ReloadAt(maxLoad, rooms, all, i);
        ReloadAt(maxLoad, rooms, all, j);
      }
    }
  }

  /** In every run from an empty queue the rooms stay in order and no zettel waits twice. */
  lemma {:induction false} RunKeepsRooms(maxLoad: int, rooms: seq<Room>, steps: seq<Step>)
    requires RoomsOk(maxLoad, rooms) && Apart(rooms)
    ensures RoomsOk(maxLoad, Run(maxLoad, rooms, steps)) && Apart(Run(maxLoad, rooms, steps))
    decreases |steps|
  {
    if steps != [] {
      NextKeepsRooms(maxLoad, rooms, steps[0]);
      RunKeepsRooms(maxLoad, Next(maxLoad, rooms, steps[0]), steps[1..]);
    }
  }

  lemma NextKeepsRooms(maxLoad: int, rooms: seq<Room>, step: Step)
    requires RoomsOk(maxLoad, rooms) && Apart(rooms)
    ensures RoomsOk(maxLoad, Next(maxLoad, rooms, step)) && Apart(Next(maxLoad, rooms, step))
  {
    match step
    case Enqueue(z) => EnqueueKeepsRooms(maxLoad, rooms, z);
    case Dequeue => DequeueKeepsRooms(maxLoad, rooms);
    case Reset =>
    case Reload(all) => ReloadKeepsRooms(maxLoad, rooms, all);
  }

  // ---------- Every zettel is served in time ----------

  /** The steps `Dequeue` takes to be done with a room. */
  function Weight(room: Room): (w: nat) {
    if room.waiting.None? then 1 else |room.waiting.value|
  }

  function Slack(maxLoad: int, room: Room): (n: nat) {
    if room.curLoad < maxLoad then maxLoad - room.curLoad else 0
  }

  /** How many calls of `Dequeue` may still come before `z` has been served. */
  function Rank(maxLoad: int, rooms: seq<Room>, z: Zid): (n: nat) {
    if rooms == [] then 0
    else if WaitsIn(rooms[0], z) then Weight(rooms[0]) + Slack(maxLoad, rooms[0])
    else Weight(rooms[0]) + Rank(maxLoad, rooms[1..], z)
  }

  /** Newcomers leave the rank of a waiting zettel as it is: a room without space is closed. */
  lemma {:induction false} EnqueueRank(maxLoad: int, rooms: seq<Room>, x: Zid, z: Zid)
    requires maxLoad != 0 && RoomsOk(maxLoad, rooms) && Waiting(rooms, z)
    ensures Rank(maxLoad, Enqueued(maxLoad, rooms, x), z) == Rank(maxLoad, rooms, z)
  {
    if Enqueued(maxLoad, rooms, x) != rooms {
      var n := |rooms| - 1;
      assert n >= 0 && x != z;
      assert RoomOk(maxLoad, rooms[n], n);
      if HasSpace(maxLoad, rooms[n]) {
        assert !WaitsIn(rooms[n], x);
        assert Weight(Admit(rooms[n], x)) == Weight(rooms[n]) + 1;
        AdmitRank(maxLoad, rooms, x, z);
      } else {
        AppendRank(maxLoad, rooms, NewRoom(x), z);
      }
    }
  }

  lemma {:induction false} AppendRank(maxLoad: int, rooms: seq<Room>, room: Room, z: Zid)
    requires Waiting(rooms, z)
    ensures Rank(maxLoad, rooms + [room], z) == Rank(maxLoad, rooms, z)
    decreases |rooms|
  {
    assert rooms != [];
    if !WaitsIn(rooms[0], z) {
      assert (rooms + [room])[1..] == rooms[1..] + [room];
      WaitingTail(rooms, z);
      AppendRank(maxLoad, rooms[1..], room, z);
    }
  }

  lemma {:induction false} AdmitRank(maxLoad: int, rooms: seq<Room>, x: Zid, z: Zid)
    requires maxLoad != 0 && Waiting(rooms, z)
    requires rooms != [] && HasSpace(maxLoad, rooms[|rooms| - 1]) && x !in Zettel(rooms[|rooms| - 1])
    requires rooms[|rooms| - 1].waiting.Some? && x != z
    ensures Rank(maxLoad, rooms[|rooms| - 1 := Admit(rooms[|rooms| - 1], x)], z) == Rank(maxLoad, rooms, z)
    decreases |rooms|
  {
    var n := |rooms| - 1;
    var after := rooms[n := Admit(rooms[n], x)];
    if n == 0 {
      assert after == [Admit(rooms[0], x)];
    } else if !WaitsIn(rooms[0], z) {
      assert after[1..] == rooms[1..][n - 1 := Admit(rooms[n], x)];
      WaitingTail(rooms, z);
      AdmitRank(maxLoad, rooms[1..], x, z);
    }
  }

  lemma WaitingTail(rooms: seq<Room>, z: Zid)
    requires Waiting(rooms, z) && rooms != [] && !WaitsIn(rooms[0], z)
    ensures Waiting(rooms[1..], z)
  {
    var i :| 0 <= i < |rooms| && WaitsIn(rooms[i], z);
    assert WaitsIn(rooms[1..][i - 1], z);
  }

  /** Every `Dequeue` serves the zettel or brings it one step nearer. */
  lemma DequeueRank(maxLoad: int, rooms: seq<Room>, z: Zid)
    requires RoomsOk(maxLoad, rooms) && Waiting(rooms, z)
    ensures Rank(maxLoad, rooms, z) > 0
    ensures Answer(rooms) != Index(z, false) ==> Rank(maxLoad, Dequeued(rooms), z) == Rank(maxLoad, rooms, z) - 1
  {
    assert rooms != [];
    var head := rooms[0];
    assert RoomOk(maxLoad, head, 0);
    if |Zettel(head)| == 1 { Singleton(Zettel(head), Max(Zettel(head))); }
  }

  /** The zettel answered by the calls of `Dequeue` in a run, in order. */
  function Served(maxLoad: int, rooms: seq<Room>, steps: seq<Step>): (r: seq<Action>)
    decreases |steps|
  {
    if steps == [] then []
    else
      (if steps[0].Dequeue? then [Answer(rooms)] else []) + Served(maxLoad, Next(maxLoad, rooms, steps[0]), steps[1..])
  }

  predicate OnlyQueueing(steps: seq<Step>) {
    forall i :: 0 <= i < |steps| ==> steps[i].Enqueue? || steps[i].Dequeue?
  }

  ghost predicate ServedWithin(answers: seq<Action>, n: nat, z: Zid) {
    exists k :: 0 <= k < n && k < |answers| && answers[k] == Index(z, false)
  }

  lemma ServedLater(first: Action, answers: seq<Action>, n: nat, z: Zid)
    requires ServedWithin(answers, n, z)
    ensures ServedWithin([first] + answers, n + 1, z)
  {
    var k :| 0 <= k < n && k < |answers| && answers[k] == Index(z, false);
    assert ([first] + answers)[k + 1] == Index(z, false);
  }

  /** No starvation: a waiting zettel is among the first `Rank` answers, whatever else arrives. */
  lemma {:induction false} ServedInTime(maxLoad: int, rooms: seq<Room>, steps: seq<Step>, z: Zid)
    requires maxLoad != 0 && RoomsOk(maxLoad, rooms) && Apart(rooms) && Waiting(rooms, z) && OnlyQueueing(steps)
    requires |Served(maxLoad, rooms, steps)| >= Rank(maxLoad, rooms, z)
    ensures ServedWithin(Served(maxLoad, rooms, steps), Rank(maxLoad, rooms, z), z)
    decreases |steps|
  {
    DequeueRank(maxLoad, rooms, z);
    assert steps != [];
    var next, rest := Next(maxLoad, rooms, steps[0]), steps[1..];
    assert OnlyQueueing(rest);
    NextKeepsRooms(maxLoad, rooms, steps[0]);
    match steps[0]
    case Enqueue(x) =>
      EnqueueRank(maxLoad, rooms, x, z);
      EnqueueWaiting(maxLoad, rooms, x, z);
      assert [] + Served(maxLoad, next, rest) == Served(maxLoad, next, rest);
      ServedInTime(maxLoad, next, rest, z);
    case Dequeue =>
      if Answer(rooms) == Index(z, false) {
        assert Served(maxLoad, rooms, steps)[0] == Index(z, false);
      } else {
        DequeueWaiting(maxLoad, rooms, z);
        ServedInTime(maxLoad, next, rest, z);
        ServedLater(Answer(rooms), Served(maxLoad, next, rest), Rank(maxLoad, next, z), z);
      }
  }

  /** Nothing is lost and nothing is served uncalled: what waits at the end has waited, or was enqueued. */
  lemma {:induction false} RunConserves(maxLoad: int, rooms: seq<Room>, steps: seq<Step>, z: Zid)
    requires RoomsOk(maxLoad, rooms) && Apart(rooms) && OnlyQueueing(steps)
    ensures Waiting(Run(maxLoad, rooms, steps), z) || Index(z, false) in Served(maxLoad, rooms, steps)
            <==> Waiting(rooms, z) || (Enqueue(z) in steps && Accepted(z))
    decreases |steps|
  {
    if steps != [] {
      var next, rest := Next(maxLoad, rooms, steps[0]), steps[1..];
      assert OnlyQueueing(rest);
      assert Enqueue(z) in steps <==> steps[0] == Enqueue(z) || Enqueue(z) in rest;
      NextKeepsRooms(maxLoad, rooms, steps[0]);
      RunConserves(maxLoad, next, rest, z);
      match steps[0]
      case Enqueue(x) => EnqueueWaiting(maxLoad, rooms, x, z);
      case Dequeue => DequeueStep(maxLoad, rooms, steps, z);
    }
  }

  lemma DequeueStep(maxLoad: int, rooms: seq<Room>, steps: seq<Step>, z: Zid)
    requires RoomsOk(maxLoad, rooms) && Apart(rooms) && steps != [] && steps[0].Dequeue?
    ensures Waiting(rooms, z) <==> Waiting(Dequeued(rooms), z) || Answer(rooms) == Index(z, false)
    ensures Index(z, false) in Served(maxLoad, rooms, steps) <==>
            (Answer(rooms) == Index(z, false) || Index(z, false) in Served(maxLoad, Dequeued(rooms), steps[1..]))
  {
    DequeueKeepsRooms(maxLoad, rooms);
    if Answer(rooms) == Index(z, false) { assert WaitsIn(rooms[0], z); }
  }

  /** Enqueue a greater zettel and serve it, again and again. */
  function Crowd(n: nat): (steps: seq<Step>) {
    if n == 0 then [] else [Enqueue(2), Dequeue] + Crowd(n - 1)
  }

  /** Without a limit on the load a zettel may starve: after `n` rounds of newcomers it still waits. */
  lemma {:induction false} UnlimitedStarves(n: nat, load: nat)
    requires load > 0
    ensures Run(0, [Room(Some({1}), load, false)], Crowd(n)) == [Room(Some({1}), load + n, false)]
    decreases n
  {
    var rooms := [Room(Some({1}), load, false)];
    if n > 0 {
      var steps := Crowd(n);
      assert steps[0] == Enqueue(2) && steps[1..][0] == Dequeue && steps[1..][1..] == Crowd(n - 1);
      assert !WaitsIn(rooms[0], 2);
      var two := Room(Some({1, 2}), load + 1, false);
      assert {1} + {2} == {1, 2};
      assert Next(0, rooms, steps[0]) == [two];
      assert |{1, 2}| == 2 && Max({1, 2}) == 2;
      assert {1, 2} - {2} == {1};
      assert Next(0, [two], Dequeue) == [Room(Some({1}), load + 1, false)];
      UnlimitedStarves(n - 1, load + 1);
    }
  }

  // ---------- What a reload brings is served first ----------

  function Dequeues(steps: seq<Step>): (n: nat)
    ensures n <= |steps|
  {
    if steps == [] then 0 else (if steps[0].Dequeue? then 1 else 0) + Dequeues(steps[1..])
  }

  /** The steps without the first `n` calls of `Dequeue`. */
  function Skip(steps: seq<Step>, n: nat): (r: seq<Step>) {
    if steps == [] || n == 0 then steps
    else if steps[0].Dequeue? then Skip(steps[1..], n - 1)
    else [steps[0]] + Skip(steps[1..], n)
  }

  /** The answers that tell of all zettel of a set, greatest first. */
  function Announced(all: set<Zid>): (r: seq<Action>)
    ensures |r| == |all|
  {
    if all == {} then [] else [Index(Max(all), true)] + Announced(all - {Max(all)})
  }

  /** Each zettel is told of exactly once, and no other. */
  lemma {:induction false} AnnouncedExact(all: set<Zid>)
    ensures NoDup(Announced(all)) && forall a :: a in Announced(all) <==> a.Index? && a.reload && a.zid in all
    decreases |all|
  {
    if all != {} {
      var m := Max(all);
      AnnouncedExact(all - {m});
      var rest := Announced(all - {m});
      forall i, j | 0 <= i < j < |Announced(all)| ensures Announced(all)[i] != Announced(all)[j] {
        assert rest[j - 1] in rest;
      }
      forall a ensures a in Announced(all) <==> a.Index? && a.reload && a.zid in all {
        assert a in Announced(all) <==> a == Index(m, true) || a in rest;
      }
    }
  }

  /** What a reload room answers until it is gone. */
  function Answers(room: Room): (r: seq<Action>) {
    if room.waiting.None? then [Reloading] else Announced(room.waiting.value)
  }

  lemma {:induction false} ServedCount(maxLoad: int, rooms: seq<Room>, steps: seq<Step>)
    ensures |Served(maxLoad, rooms, steps)| == Dequeues(steps)
    decreases |steps|
  {
    if steps != [] { ServedCount(maxLoad, Next(maxLoad, rooms, steps[0]), steps[1..]); }
  }

  /** Newcomers never enter a reload room. */
  lemma EnqueueBehind(maxLoad: int, room: Room, rest: seq<Room>, z: Zid)
    requires room.reload
    ensures Enqueued(maxLoad, [room] + rest, z) == [room] + Enqueued(maxLoad, rest, z)
  {
    WaitingHead([room] + rest, z);
    assert ([room] + rest)[1..] == rest;
  }

  /** What one call of `Dequeue` leaves of a reload room that is not done. */
  function Smaller(room: Room): (r: Room)
    requires room.waiting.Some? && |room.waiting.value| > 1
    ensures r.waiting != Some({})
  {
    var all := room.waiting.value;
    assert |all - {Max(all)}| > 0;
    room.(waiting := Some(all - {Max(all)}))
  }

  lemma DequeueBehind(room: Room, rest: seq<Room>)
    requires room.reload && room.waiting != Some({})
    ensures |Answers(room)| > 0 && Answer([room] + rest) == Answers(room)[0]
    ensures if |Answers(room)| == 1 then Dequeued([room] + rest) == rest
            else && room.waiting.Some? && |room.waiting.value| > 1
                 && Dequeued([room] + rest) == [Smaller(room)] + rest
                 && Answers(room) == [Answers(room)[0]] + Answers(Smaller(room))
  {
    assert ([room] + rest)[1..] == rest;
    if room.waiting.Some? && |room.waiting.value| > 1 {
      assert Dequeued([room] + rest) == [Smaller(room)] + rest;
    }
  }

  /** What is served, and what is left, when `answers` come first and then all goes on with `rest`. */
  ghost predicate FirstAnswers(maxLoad: int, rooms: seq<Room>, answers: seq<Action>, rest: seq<Room>, steps: seq<Step>)
  {
    var n, others := Dequeues(steps), Served(maxLoad, rest, Skip(steps, |answers|));
    && n <= |answers| + |others|
    && Served(maxLoad, rooms, steps) == (answers + others)[..n]
    && (n >= |answers| ==> Run(maxLoad, rooms, steps) == Run(maxLoad, rest, Skip(steps, |answers|)))
  }

  lemma ServedNext(maxLoad: int, rooms: seq<Room>, steps: seq<Step>)
    requires steps != [] && (steps[0].Enqueue? || steps[0].Dequeue?)
    ensures var next := Next(maxLoad, rooms, steps[0]);
      && Served(maxLoad, rooms, steps)
         == (if steps[0].Dequeue? then [Answer(rooms)] else []) + Served(maxLoad, next, steps[1..])
      && (steps[0].Enqueue? ==> Served(maxLoad, rooms, steps) == Served(maxLoad, next, steps[1..]))
      && Run(maxLoad, rooms, steps) == Run(maxLoad, next, steps[1..])
      && Dequeues(steps) == (if steps[0].Dequeue? then 1 else 0) + Dequeues(steps[1..])
  {}

  lemma TakeFirst(answers: seq<Action>, others: seq<Action>, n: nat)
    requires answers != [] && n <= |answers[1..]| + |others|
    ensures (answers + others)[..n + 1] == [answers[0]] + (answers[1..] + others)[..n]
  {}

  lemma EnqueueFirst(maxLoad: int, room: Room, rest: seq<Room>, steps: seq<Step>, answers: seq<Action>)
    requires room.reload && steps != [] && steps[0].Enqueue? && answers != []
    requires FirstAnswers(maxLoad, [room] + Enqueued(maxLoad, rest, steps[0].zid), answers,
                          Enqueued(maxLoad, rest, steps[0].zid), steps[1..])
    ensures FirstAnswers(maxLoad, [room] + rest, answers, rest, steps)
  {
    var z, later, n := steps[0].zid, steps[1..], |answers|;
    EnqueueBehind(maxLoad, room, rest, z);
    assert Skip(steps, n) == [steps[0]] + Skip(later, n);
    assert Skip(steps, n)[1..] == Skip(later, n);
    ServedNext(maxLoad, [room] + rest, steps);
    ServedNext(maxLoad, rest, Skip(steps, n));
  }

  lemma DequeueFirst(maxLoad: int, rooms: seq<Room>, answers: seq<Action>, rest: seq<Room>, steps: seq<Step>)
    requires steps != [] && steps[0].Dequeue? && answers != [] && Answer(rooms) == answers[0]
    requires FirstAnswers(maxLoad, Dequeued(rooms), answers[1..], rest, steps[1..])
    ensures FirstAnswers(maxLoad, rooms, answers, rest, steps)
  {
    var others := Served(maxLoad, rest, Skip(steps, |answers|));
    assert Skip(steps, |answers|) == Skip(steps[1..], |answers[1..]|);
    ServedNext(maxLoad, rooms, steps);
    TakeFirst(answers, others, Dequeues(steps[1..]));
  }

  lemma NoAnswers(maxLoad: int, rest: seq<Room>, steps: seq<Step>)
    ensures FirstAnswers(maxLoad, rest, [], rest, steps)
  {
    ServedCount(maxLoad, rest, steps);
    assert Skip(steps, 0) == steps;
  }

  /** A reload room is emptied first, whatever is enqueued meanwhile; then all goes on as without it. */
  lemma {:induction false} ReloadFirst(maxLoad: int, room: Room, rest: seq<Room>, steps: seq<Step>)
    requires room.reload && room.waiting != Some({}) && OnlyQueueing(steps)
    ensures FirstAnswers(maxLoad, [room] + rest, Answers(room), rest, steps)
    decreases |steps|
  {
    DequeueBehind(room, rest);
    if steps != [] {
      assert OnlyQueueing(steps[1..]);
      if steps[0].Enqueue? {
        ReloadFirst(maxLoad, room, Enqueued(maxLoad, rest, steps[0].zid), steps[1..]);
        EnqueueFirst(maxLoad, room, rest, steps, Answers(room));
      } else {
        if |Answers(room)| == 1 {
          assert Answers(room)[1..] == [];
          NoAnswers(maxLoad, rest, steps[1..]);
        } else {
          assert Answers(room)[1..] == Answers(Smaller(room));
          ReloadFirst(maxLoad, Smaller(room), rest, steps[1..]);
        }
        DequeueFirst(maxLoad, [room] + rest, Answers(room), rest, steps);
      }
    }
  }

  /** The rooms without one for a reload. */
  function Behind(rooms: seq<Room>): (r: seq<Room>) {
    if rooms != [] && rooms[0].reload then rooms[1..] else rooms
  }

  /**
   After a reload, in every run of enqueues and dequeues, the first answers tell of each of its zettel once; then
   all goes on as it would have gone without the reload.
   */
  lemma ReloadServes(maxLoad: int, rooms: seq<Room>, all: set<Zid>, steps: seq<Step>)
    requires RoomsOk(maxLoad, rooms) && all != {} && OnlyQueueing(steps)
    ensures var after, n := Next(maxLoad, rooms, Reload(all)), Dequeues(steps);
            var others := Served(maxLoad, Behind(rooms), Skip(steps, |all|));
            && n <= |all| + |others|
            && Served(maxLoad, after, steps) == (Announced(all) + others)[..n]
            && (n >= |all| ==> Run(maxLoad, after, steps) == Run(maxLoad, Behind(rooms), Skip(steps, |all|)))
  {
    DropReloadsOk(maxLoad, rooms);
    ReloadFirst(maxLoad, Room(Some(all), |all|, true), Behind(rooms), steps);
  }

  /** After a reset the first answer asks for a reload; then all goes on as from an empty queue. */
  lemma ResetServes(maxLoad: int, rooms: seq<Room>, steps: seq<Step>)
    requires OnlyQueueing(steps)
    ensures var after, n := Next(maxLoad, rooms, Reset), Dequeues(steps);
            var others := Served(maxLoad, [], Skip(steps, 1));
            && n <= 1 + |others|
            && Served(maxLoad, after, steps) == ([Reloading] + others)[..n]
            && (n >= 1 ==> Run(maxLoad, after, steps) == Run(maxLoad, [], Skip(steps, 1)))
  {
    ReloadFirst(maxLoad, Room(None, 0, true), [], steps);
    assert [Room(None, 0, true)] + [] == AfterReset();
  }

  // ---------- The linked list ----------

  class Anteroom {
    var next: Anteroom?
    var waiting: Option<set<Zid>>
    var curLoad: nat
    const reload: bool

    constructor (next: Anteroom?, waiting: Option<set<Zid>>, curLoad: nat, reload: bool)
      ensures this.next == next && this.Value() == Room(waiting, curLoad, reload)
    {
      this.next, this.waiting, this.curLoad, this.reload := next, waiting, curLoad, reload;
    }

    ghost function Value(): (r: Room)
      reads this
    {
      Room(waiting, curLoad, reload)
    }
  }

  ghost function At(nodes: seq<Anteroom>, i: int): (n: Anteroom?) {
    if 0 <= i < |nodes| then nodes[i] else null
  }

  ghost function Values(nodes: seq<Anteroom>): (r: seq<Room>)
    reads nodes
    ensures |r| == |nodes| && forall i :: 0 <= i < |r| ==> r[i] == nodes[i].Value()
  {
    seq(|nodes|, i requires 0 <= i < |nodes| reads nodes => nodes[i].Value())
  }

  /** Each node points to the next one, and the last one nowhere. */
  ghost predicate Chain(nodes: seq<Anteroom>)
    reads nodes
  {
    forall i {:trigger nodes[i].next} :: 0 <= i < |nodes| ==> nodes[i].next == At(nodes, i + 1)
  }

  /** The nodes of a chain differ, as the chain would have no end otherwise. */
  lemma {:induction false} ChainDistinct(nodes: seq<Anteroom>, i: nat, j: nat)
    requires Chain(nodes) && i < j < |nodes|
    ensures nodes[i] != nodes[j]
    decreases |nodes| - j
  {
    assert nodes[i].next == nodes[i + 1] && nodes[j].next == At(nodes, j + 1);
    if j + 1 < |nodes| { ChainDistinct(nodes, i + 1, j + 1); }
  }

  lemma ChainPrepended(nodes: seq<Anteroom>, n: Anteroom)
    requires Chain(nodes) && n !in nodes && n.next == At(nodes, 0)
    ensures Chain([n] + nodes) && Values([n] + nodes) == [n.Value()] + Values(nodes)
  {
    var longer := [n] + nodes;
    forall i | 0 <= i < |longer| ensures longer[i].next == At(longer, i + 1) {
      if i > 0 { assert longer[i] == nodes[i - 1]; }
    }
  }

  lemma ChainSuffix(nodes: seq<Anteroom>, i: nat)
    requires Chain(nodes) && i <= |nodes|
    ensures Chain(nodes[i..]) && Values(nodes[i..]) == Values(nodes)[i..]
  {
    var rest := nodes[i..];
    forall k | 0 <= k < |rest| ensures rest[k].next == At(rest, k + 1) {
      assert rest[k] == nodes[i + k];
    }
  }

  class AnteroomQueue {
    var first: Anteroom?
    var last: Anteroom?
    const maxLoad: int
    /** The rooms from `first` to `last`. */
    ghost var nodes: seq<Anteroom>

    ghost predicate Valid()
      reads this, nodes
    {
      && Chain(nodes)
      && first == At(nodes, 0)
      && last == At(nodes, |nodes| - 1)
    }

    ghost function Rooms(): (r: seq<Room>)
      reads this, nodes
    {
      Values(nodes)
    }

    constructor (maxLoad: int)
      ensures Valid() && Rooms() == [] && this.maxLoad == maxLoad && nodes == []
    {
      this.maxLoad := maxLoad;
      first, last, nodes := null, null, [];
    }

    method EnqueueZettel(zid: Zid)
      requires Valid() && RoomsOk(maxLoad, Rooms())
      modifies this, nodes
      ensures Valid() && Rooms() == Enqueued(maxLoad, old(Rooms()), zid)
      ensures nodes == old(nodes) || (last != null && fresh(last) && nodes == old(nodes) + [last])
    {
      if !Accepted(zid) { return; }
      var found := Contains(zid);
      if found { return; }
      ghost var rooms, n := Rooms(), |nodes| - 1;
      assert last != null ==> rooms[n] == last.Value() && RoomOk(maxLoad, rooms[n], n);
      if last != null && !last.reload && (maxLoad == 0 || last.curLoad < maxLoad) {
        AddToLast(zid);
      } else {
        MakeAnteroom(zid);
      }
    }

    method AddToLast(zid: Zid)
      requires Valid() && last != null && last.waiting.Some?
      modifies last
      ensures Valid()
      ensures Rooms() == old(Rooms()[|nodes| - 1 := Admit(last.Value(), zid)])
    {
      forall i: nat | i < |nodes| - 1 { ChainDistinct(nodes, i, |nodes| - 1); }
      last.waiting := Some(last.waiting.value + {zid});
      last.curLoad := last.curLoad + 1;
    }

    /** Puts a new room with one zettel at the end of the list, which may be empty. */
    method MakeAnteroom(zid: Zid)
      requires Valid()
      modifies this, nodes
      ensures Valid() && Rooms() == old(Rooms()) + [NewRoom(zid)]
      ensures last != null && fresh(last) && nodes == old(nodes) + [last]
    {
      var room := new Anteroom(null, Some({zid}), 1, false);
      if first == null {
        first, last, nodes := room, room, [room];
      } else {
        Append(room);
      }
      assert forall i :: 0 <= i < |old(nodes)| ==> old(nodes)[i].Value() == old(nodes[i].Value());
    }

    method Append(room: Anteroom)
      requires Valid() && last != null && room !in nodes && room.next == null
      modifies this, last`next
      ensures Valid() && last == room && nodes == old(nodes) + [room]
    {
      ghost var before, n := nodes, |nodes| - 1;
      forall i: nat | i < n { ChainDistinct(nodes, i, n); }
      last.next := room;
      last := room;
      nodes := nodes + [room];
      assert forall i :: 0 <= i < n ==> before[i].next == old(before[i].next);
    }

    /** The search of `EnqueueZettel` through the rooms that are not reloaded. */
    method Contains(zid: Zid) returns (found: bool)
      requires Valid()
      ensures found == Waiting(Rooms(), zid)
    {
      var room := first;
      ghost var i := 0;
      while room != null
        invariant 0 <= i <= |nodes|
        invariant room == At(nodes, i)
        invariant forall k :: 0 <= k < i ==> !WaitsIn(Rooms()[k], zid)
        decreases |nodes| - i
      {
        assert Rooms()[i] == room.Value();
        if !room.reload && room.waiting.Some? && zid in room.waiting.value { return true; }
        room := room.next;
        i := i + 1;
      }
      found := false;
    }

    method Reset()
      modifies this
      ensures Valid() && Rooms() == AfterReset() && fresh(nodes)
    {
      first := new Anteroom(null, None, 0, true);
      last, nodes := first, [first];
    }

    method Reload(allZids: set<Zid>)
      requires Valid()
      modifies this
      ensures Valid() && Rooms() == Reloaded(old(Rooms()), allZids)
      ensures forall n :: n in nodes ==> n in old(nodes) || fresh(n)
    {
      DeleteReloadedRooms();
      if allZids != {} {
        PutReloadRoom(allZids);
      } else {
        first, last, nodes := null, null, [];
      }
    }

    /** Puts a reload room before all others. */
    method PutReloadRoom(allZids: set<Zid>)
      requires Valid()
      modifies this
      ensures Valid() && Rooms() == [Room(Some(allZids), |allZids|, true)] + old(Rooms())
      ensures first != null && fresh(first) && nodes == [first] + old(nodes)
    {
      var room := new Anteroom(first, Some(allZids), |allZids|, true);
      ChainPrepended(nodes, room);
      nodes := [room] + nodes;
      first := room;
      if first.next == null { last := first; }
    }

    method DeleteReloadedRooms()
      requires Valid()
      modifies this
      ensures Valid() && Rooms() == DropReloads(old(Rooms()))
      ensures forall n :: n in nodes ==> n in old(nodes)
    {
      ghost var rooms := Rooms();
      var room; ghost var i;
      room, i := SkipReloads();
      SkipTo(room, i);
      assert Rooms() == rooms[i..];
    }

    /** The first room that is not reloaded, and its position. */
    method SkipReloads() returns (room: Anteroom?, ghost i: nat)
      requires Valid()
      ensures i <= |nodes| && room == At(nodes, i) && DropReloads(Rooms()) == Rooms()[i..]
    {
      room, i := first, 0;
      while room != null && room.reload
        invariant i <= |nodes|
        invariant room == At(nodes, i)
        invariant DropReloads(Rooms()) == DropReloads(Rooms()[i..])
        decreases |nodes| - i
      {
        DropOne(Rooms(), i);
        room := room.next;
        i := i + 1;
      }
    }

    /** Makes the node at position `i`, if there is one, the first. */
    method SkipTo(room: Anteroom?, ghost i: nat)
      requires Valid() && i <= |nodes| && room == At(nodes, i)
      modifies this
      ensures Valid() && Rooms() == old(Rooms())[i..] && nodes == old(nodes)[i..]
    {
      ChainSuffix(nodes, i);
      first := room;
      if room == null { last := null; }
      nodes := nodes[i..];
    }

    method Dequeue() returns (action: Action)
      requires Valid()
      modifies this, nodes
      ensures Valid() && action == Answer(old(Rooms())) && Rooms() == Dequeued(old(Rooms()))
      ensures forall n :: n in nodes ==> n in old(nodes)
    {
      if first == null { return Nothing; }
      ghost var rooms := Rooms();
      assert rooms[0] == first.Value();
      if first.waiting.None? && first.reload {
        RemoveFirst();
        return Reloading;
      }
      if first.waiting.Some? && first.waiting.value != {} {
        var reload := first.reload;
        var zid := PopFirst();
        if first.waiting.value == {} { RemoveFirst(); }
        return Index(zid, reload);
      }
      RemoveFirst();
      return Nothing;
    }

    method PopFirst() returns (zid: Zid)
      requires Valid() && first != null && first.waiting.Some? && first.waiting.value != {}
      modifies first
      ensures Valid() && first.waiting.Some? && |first.waiting.value| == |old(first.waiting.value)| - 1
      ensures zid == Max(old(first.waiting.value))
      ensures Rooms() == old(Rooms()[0 := Rooms()[0].(waiting := Some(first.waiting.value - {zid}))])
    {
      forall i: nat | 0 < i < |nodes| { ChainDistinct(nodes, 0, i); }
      zid := Max(first.waiting.value);
      first.waiting := Some(first.waiting.value - {zid});
    }

    method RemoveFirst()
      requires Valid() && first != null
      modifies this
      ensures Valid() && nodes == old(nodes)[1..] && Rooms() == old(Rooms())[1..]
    {
      ChainSuffix(nodes, 1);
      first := first.next;
      if first == null { last := null; }
      nodes := nodes[1..];
    }
  }
}
