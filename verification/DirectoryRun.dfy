/**
 What is known about the files of a zettel after every run of events, compared to the files in the directory.
 */
module DirectoryRuns {
  import opened Text
  import opened Zids
  import opened Directories

  // ---------- Runs of events ----------

  /** The files in the directory after an event. */
  function Files(files: set<string>, event: Event): (r: set<string>) {
    match event
    case Update(name) => files + {name}
    case Delete(name) => files - {name}
  }

  ghost predicate Sound(entry: Option<Entry>) {
    entry.Some? ==> Shaped(entry.value) && InUse(entry.value) && forall n :: !BeatenBy(entry.value, n)
  }

  predicate Tracks(entry: Option<Entry>, n: string) {
    entry.Some? && Knows(entry.value, n)
  }

  lemma StepSound(t: Tables, entry: Option<Entry>, event: Event)
    requires Sound(entry) && Named(event.name)
    ensures Sound(Step(t, entry, event))
  {
    match event
    case Update(name) =>
      var e := if entry.Some? then entry.value else NO_ENTRY;
      forall n { UpdateUnbeaten(t, e, name, n); }
      UpdateInUse(t, e, name);
    case Delete(name) =>
      if entry.Some? {
        DeleteExact(t, entry.value, name, name);
        forall n { DeleteUnbeaten(t, entry.value, name, n); }
      }
  }

  /** Exactly when a known name is deleted that is known twice, the entry and the directory part. */
  lemma StepTracks(t: Tables, entry: Option<Entry>, event: Event, n: string)
    requires Sound(entry) && Named(event.name)
    ensures n != event.name ==> (Tracks(Step(t, entry, event), n) <==> Tracks(entry, n))
    ensures Tracks(Step(t, entry, event), event.name) <==>
            (event.Update? || (entry.Some? && Doubled(entry.value, event.name)))
  {
    match event
    case Update(name) =>
      var e := if entry.Some? then entry.value else NO_ENTRY;
      UpdateConserves(t, e, name, n);
      UpdateConserves(t, e, name, name);
    case Delete(name) =>
      if entry.Some? {
        DeleteExact(t, entry.value, name, n);
        DeleteAlive(t, entry.value, name);
      }
  }

  predicate AllNamed(events: seq<Event>) {
    forall i :: 0 <= i < |events| ==> Named(events[i].name)
  }

  function Run(t: Tables, events: seq<Event>): (r: Option<Entry>)
    requires AllNamed(events)
    ensures Sound(r)
  {
    if events == [] then None
    else
      var before := Run(t, events[..|events| - 1]);
      StepSound(t, before, events[|events| - 1]);
      Step(t, before, events[|events| - 1])
  }

  function FilesAfter(events: seq<Event>): (r: set<string>) {
    if events == [] then {} else Files(FilesAfter(events[..|events| - 1]), events[|events| - 1])
  }

  /** No event of the run deletes a name that is known twice at that time. */
  ghost predicate NeverDoubled(t: Tables, events: seq<Event>)
    requires AllNamed(events)
  {
    events != [] ==>
      && NeverDoubled(t, events[..|events| - 1])
      && var before := Run(t, events[..|events| - 1]);
      var last := events[|events| - 1];
      !(last.Delete? && before.Some? && Doubled(before.value, last.name))
  }

  /**
   In every run of events every file of the directory is known; and no other, as long as no doubled name
   is deleted.
   */
  lemma {:induction false} RunTracks(t: Tables, events: seq<Event>, n: string)
    requires AllNamed(events)
    ensures n in FilesAfter(events) ==> Tracks(Run(t, events), n)
    ensures NeverDoubled(t, events) && Tracks(Run(t, events), n) ==> n in FilesAfter(events)
    decreases |events|
  {
    if events != [] {
      var front, last := events[..|events| - 1], events[|events| - 1];
      RunTracks(t, front, n);
      StepTracks(t, Run(t, front), last, n);
    }
  }

  /** Nothing else is known at any time of a run than the files in the directory. */
  ghost predicate InStep(t: Tables, events: seq<Event>)
    requires AllNamed(events)
  {
    && (events != [] ==> InStep(t, events[..|events| - 1]))
    && forall n :: Tracks(Run(t, events), n) <==> n in FilesAfter(events)
  }

  lemma {:induction false} SafeInStep(t: Tables, events: seq<Event>)
    requires AllNamed(events) && NeverDoubled(t, events)
    ensures InStep(t, events)
    decreases |events|
  {
    if events != [] { SafeInStep(t, events[..|events| - 1]); }
    forall n ensures Tracks(Run(t, events), n) <==> n in FilesAfter(events) { RunTracks(t, events, n); }
  }

  lemma {:induction false} InStepSafe(t: Tables, events: seq<Event>)
    requires AllNamed(events) && InStep(t, events)
    ensures NeverDoubled(t, events)
    decreases |events|
  {
    if events != [] {
      var front, last := events[..|events| - 1], events[|events| - 1];
      InStepSafe(t, front);
      StepTracks(t, Run(t, front), last, last.name);
      assert Tracks(Run(t, events), last.name) <==> last.name in FilesAfter(events);
    }
  }

  /** So the entry and the directory are in step all the time iff no doubled name is deleted. */
  lemma InStepIff(t: Tables, events: seq<Event>)
    requires AllNamed(events)
    ensures InStep(t, events) <==> NeverDoubled(t, events)
  {
    if NeverDoubled(t, events) { SafeInStep(t, events); }
    if InStep(t, events) { InStepSafe(t, events); }
  }

  // ---------- Names that are never known twice ----------

  /** No zettel files, and no file is named like another one without its last extension, unless it has none itself. */
  ghost predicate Apart(names: set<string>) {
    forall n :: n in names ==> Named(n) && OnlyExt(n) != ZETTEL && (OnlyExt(n) == "" || !LongName(names, n))
  }

  predicate LongName(names: set<string>, n: string) {
    Base(n) in names && OnlyExt(Base(n)) != ""
  }

  /** Files with and without extension are kept apart, and the best of each kind is in use. */
  ghost predicate Tidy(t: Tables, names: set<string>, e: Entry) {
    && Shaped(e) && (forall n :: Knows(e, n) ==> n in names) && OnlyExt(e.meta) == ""
    && e.meta !in e.useless && e.content !in e.useless
    && forall n :: n in e.useless ==> Worse(t, e, n)
  }

  ghost predicate Worse(t: Tables, e: Entry, n: string) {
    if OnlyExt(n) == "" then e.meta != "" && !NameBetter(e.meta, n)
    else e.content != "" && !ContentBetter(t, e.content, e.ext, n, OnlyExt(n))
  }

  lemma ContentOrder(t: Tables, a: string, b: string, c: string)
    requires OnlyExt(a) != ZETTEL && OnlyExt(b) != ZETTEL && OnlyExt(c) != ZETTEL
    ensures !(ContentBetter(t, a, OnlyExt(a), b, OnlyExt(b)) && ContentBetter(t, b, OnlyExt(b), a, OnlyExt(a)))
    ensures ContentBetter(t, a, OnlyExt(a), b, OnlyExt(b)) && ContentBetter(t, b, OnlyExt(b), c, OnlyExt(c))
            ==> ContentBetter(t, a, OnlyExt(a), c, OnlyExt(c))
  {
    ExtOrder(t, OnlyExt(a), OnlyExt(b), OnlyExt(c));
    NameOrder(a, b, c);
  }

  lemma NoSpecialCase(t: Tables, names: set<string>, e: Entry, name: string)
    requires Apart(names) && Tidy(t, names, e) && name in names
    ensures !ContentIsMeta(e, name) && !NameIsMeta(e, name) && e.ext != ZETTEL
  {
    assert Knows(e, e.content) || e.content == "";
    if OnlyExt(name) != "" { assert Base(name) != ""; }
  }

  lemma UpdateMetaTidy(t: Tables, names: set<string>, e: Entry, name: string)
    requires Apart(names) && Tidy(t, names, e) && name in names && OnlyExt(name) == ""
    ensures Tidy(t, names, UpdateMeta(e, name))
  {
    var r := UpdateMeta(e, name);
    NameOrder(e.meta, name, e.meta);
    forall n ensures Knows(r, n) ==> n in names { UpdateMetaKnows(e, name, n); }
    forall n | n in r.useless ensures Worse(t, r, n) {
      NameOrder(e.meta, name, n);
      if n in e.useless { assert Worse(t, e, n); }
    }
  }

  lemma UpdateContentTidy(t: Tables, names: set<string>, e: Entry, name: string)
    requires Apart(names) && Tidy(t, names, e) && name in names && OnlyExt(name) != "" && e.ext != ZETTEL
    ensures Tidy(t, names, UpdateContent(t, e, name, OnlyExt(name)))
  {
    var r := UpdateContent(t, e, name, OnlyExt(name));
    forall n ensures Knows(r, n) ==> n in names { UpdateContentKnows(t, e, name, OnlyExt(name), n); }
    assert name in e.useless ==> Worse(t, e, name);
    forall n | n in r.useless ensures Worse(t, r, n) {
      assert Knows(r, n);
      ContentOrder(t, e.content, name, n);
      if n in e.useless { assert Worse(t, e, n); }
    }
  }

  lemma UpdateTidy(t: Tables, names: set<string>, e: Entry, name: string)
    requires Apart(names) && Tidy(t, names, e) && name in names
    ensures Tidy(t, names, Updated(t, e, name))
  {
    NoSpecialCase(t, names, e, name);
    if OnlyExt(name) == "" {
      UpdateMetaTidy(t, names, e, name);
    } else {
      UpdatedPlain(t, e, name);
      UpdateContentTidy(t, names, e, name);
    }
  }

  lemma {:induction false} ReplayTidy(t: Tables, names: set<string>, e: Entry, again: seq<string>)
    requires Apart(names) && Tidy(t, names, e) && forall n :: n in again ==> n in names
    ensures (forall n :: n in again ==> Named(n)) && Tidy(t, names, Replay(t, e, again))
    decreases |again|
  {
    if again != [] {
      var front, last := again[..|again| - 1], again[|again| - 1];
      ReplayTidy(t, names, e, front);
      UpdateTidy(t, names, Replay(t, e, front), last);
    }
  }

  lemma DeleteTidy(t: Tables, names: set<string>, e: Entry, name: string)
    requires Apart(names) && Tidy(t, names, e)
    ensures Tidy(t, names, Deleted(t, e, name))
  {
    assert forall n :: n in e.useless ==> Knows(e, n);
    if name in e.useless {
      WithoutNoDup(e.useless, name);
      var r := Deleted(t, e, name);
      forall n | n in r.useless ensures Worse(t, r, n) { assert Worse(t, e, n); }
    } else if name == e.content {
      EmptiedTidy(t, names, e, e.meta, "", "");
      ReplayTidy(t, names, Entry(e.meta, "", "", []), e.useless);
    } else if name == e.meta {
      EmptiedTidy(t, names, e, "", e.content, e.ext);
      ReplayTidy(t, names, Entry("", e.content, e.ext, []), e.useless);
    }
  }

  lemma EmptiedTidy(t: Tables, names: set<string>, e: Entry, meta: string, content: string, ext: string)
    requires Tidy(t, names, e) && (meta == "" || meta == e.meta)
    requires (content == "" && ext == "") || (content == e.content && ext == e.ext)
    ensures Tidy(t, names, Entry(meta, content, ext, []))
  {
    forall n | Knows(Entry(meta, content, ext, []), n) ensures n in names { assert Knows(e, n); }
  }

  function EventNames(events: seq<Event>): (r: set<string>) {
    set event | event in events :: event.name
  }

  lemma {:induction false} RunTidy(t: Tables, names: set<string>, events: seq<Event>)
    requires AllNamed(events) && Apart(names) && EventNames(events) <= names
    ensures Run(t, events).Some? ==> Tidy(t, names, Run(t, events).value)
    decreases |events|
  {
    if events != [] {
      var front, last := events[..|events| - 1], events[|events| - 1];
      assert last in events && last.name in EventNames(events);
      forall n | n in EventNames(front) ensures n in names { assert n in EventNames(events); }
      RunTidy(t, names, front);
      var before := Run(t, front);
      if last.Update? {
        UpdateTidy(t, names, if before.Some? then before.value else NO_ENTRY, last.name);
      } else if before.Some? {
        DeleteTidy(t, names, before.value, last.name);
      }
    }
  }

  lemma {:induction false} ApartSafe(t: Tables, names: set<string>, events: seq<Event>)
    requires AllNamed(events) && Apart(names) && EventNames(events) <= names
    ensures NeverDoubled(t, events)
    decreases |events|
  {
    if events != [] {
      var front := events[..|events| - 1];
      forall n | n in EventNames(front) ensures n in names { assert n in EventNames(events); }
      ApartSafe(t, names, front);
      RunTidy(t, names, front);
    }
  }

  /** A condition on the names alone: then the entry and the directory are in step all the time. */
  lemma ApartInStep(t: Tables, events: seq<Event>)
    requires AllNamed(events) && Apart(EventNames(events))
    ensures InStep(t, events)
  {
    ApartSafe(t, EventNames(events), events);
    InStepIff(t, events);
  }

  lemma {:induction false} ExtOf(base: string, ext: string, i: nat)
    requires forall k :: 0 <= k < |ext| ==> ext[k] != '.' && ext[k] != '/'
    requires |base| < i <= |base| + 1 + |ext|
    ensures Suffix(base + "." + ext, i) == (base + "." + ext)[|base| + 1..] == ext
    decreases i
  {
    var name := base + "." + ext;
    if i > |base| + 1 {
      assert name[i - 1] == ext[i - 2 - |base|];
      ExtOf(base, ext, i - 1);
    }
  }

  function Dot(base: string, ext: string): (name: string)
    requires Named(base) && |ext| == 1 && ext != "." && ext != "/"
    ensures Named(name) && OnlyExt(name) == ext && Base(name) == base && |name| == |base| + 2
  {
    ExtOf(base, ext, |base| + 2);
    assert (base + "." + ext)[..|base|] == base;
    base + "." + ext
  }

  function DoublingEvents(z: string): (r: seq<Event>)
    requires Named(z)
    ensures AllNamed(r)
  {
    [] + [Update(Dot(z, "b"))] + [Update(Dot(z, "c"))] + [Update(Dot(Dot(z, "c"), "a"))] + [Update(Dot(z, "c"))]
  }

  function StaleEvents(z: string): (r: seq<Event>)
    requires Named(z)
    ensures AllNamed(r)
  {
    DoublingEvents(z) + [Delete(Dot(z, "c"))]
  }

  lemma RunStep(t: Tables, events: seq<Event>, event: Event)
    requires AllNamed(events) && Named(event.name)
    ensures AllNamed(events + [event]) && Run(t, events + [event]) == Step(t, Run(t, events), event)
    ensures FilesAfter(events + [event]) == Files(FilesAfter(events), event)
  {
    assert (events + [event])[..|events|] == events;
  }

  lemma StaleUpdates(z: string)
    requires Named(z)
    ensures var b, c, a := Dot(z, "b"), Dot(z, "c"), Dot(Dot(z, "c"), "a");
            && Updated(map[], NO_ENTRY, b) == Entry("", b, "b", [])
            && Updated(map[], Entry("", b, "b", []), c) == Entry("", b, "b", [c])
  {
    assert !ExtBetter(map[], "b", "c");
  }

  lemma StaleMore(z: string)
    requires Named(z)
    ensures var b, c, a := Dot(z, "b"), Dot(z, "c"), Dot(Dot(z, "c"), "a");
            Updated(map[], Entry("", b, "b", [c]), a) == Entry("", a, "a", [c, b])
  {
    assert ExtBetter(map[], "b", "a");
  }

  lemma StaleMost(z: string)
    requires Named(z)
    ensures var b, c, a := Dot(z, "b"), Dot(z, "c"), Dot(Dot(z, "c"), "a");
            Updated(map[], Entry("", a, "a", [c, b]), c) == Entry(c, a, "a", [c, b])
  {}

  lemma RunUpdate(t: Tables, events: seq<Event>, e: Entry, name: string, longer: seq<Event>)
    requires AllNamed(events) && Named(name) && longer == events + [Update(name)]
    requires Run(t, events) == Some(e) || (Run(t, events) == None && e == NO_ENTRY)
    requires Shaped(e)
    ensures AllNamed(longer) && Run(t, longer) == Some(Updated(t, e, name))
  {
    RunStep(t, events, Update(name));
  }

  lemma StaleDoubled(z: string)
    requires Named(z)
    ensures var b, c, a := Dot(z, "b"), Dot(z, "c"), Dot(Dot(z, "c"), "a");
            Run(map[], DoublingEvents(z)) == Some(Entry(c, a, "a", [c, b]))
  {
    var b, c, a := Dot(z, "b"), Dot(z, "c"), Dot(Dot(z, "c"), "a");
    StaleUpdates(z);
    StaleMore(z);
    StaleMost(z);
    var first, second, third := Entry("", b, "b", []), Entry("", b, "b", [c]), Entry("", a, "a", [c, b]);
    assert Shaped(NO_ENTRY) && Shaped(first) && Shaped(second) && Shaped(third);
    RunTwoUpdates(map[], [], NO_ENTRY, b, first, c, second);
    var front := [] + [Update(b)] + [Update(c)];
    RunTwoUpdates(map[], front, second, a, third, c, Entry(c, a, "a", [c, b]));
  }

  lemma RunTwoUpdates(t: Tables, events: seq<Event>, e0: Entry, n1: string, e1: Entry, n2: string, e2: Entry)
    requires AllNamed(events) && Named(n1) && Named(n2) && Shaped(e0) && Shaped(e1)
    requires Run(t, events) == Some(e0) || (Run(t, events) == None && e0 == NO_ENTRY)
    requires Updated(t, e0, n1) == e1 && Updated(t, e1, n2) == e2
    ensures var longer := events + [Update(n1)] + [Update(n2)]; AllNamed(longer) && Run(t, longer) == Some(e2)
  {
    RunUpdate(t, events, e0, n1, events + [Update(n1)]);
    RunUpdate(t, events + [Update(n1)], e1, n2, events + [Update(n1)] + [Update(n2)]);
  }

  lemma RunDelete(t: Tables, events: seq<Event>, e: Entry, name: string, longer: seq<Event>)
    requires AllNamed(events) && Named(name) && longer == events + [Delete(name)]
    requires Run(t, events) == Some(e) && name in e.useless
    ensures AllNamed(longer) && Run(t, longer) == Some(e.(useless := Without(e.useless, name)))
    ensures name !in FilesAfter(longer)
  {
    RunStep(t, events, Delete(name));
  }

  /** A file that is deleted while it is known twice stays the metadata file of its zettel. */
  lemma StaleFile(z: string)
    requires Named(z)
    ensures Dot(z, "c") !in FilesAfter(StaleEvents(z))
    ensures Run(map[], StaleEvents(z)).Some? && Run(map[], StaleEvents(z)).value.meta == Dot(z, "c")
  {
    var b, c, a := Dot(z, "b"), Dot(z, "c"), Dot(Dot(z, "c"), "a");
    StaleDoubled(z);
    RunDelete(map[], DoublingEvents(z), Entry(c, a, "a", [c, b]), c, StaleEvents(z));
  }

  function ZettelFile(z: string): (name: string)
    requires Named(z)
    ensures Named(name) && OnlyExt(name) == ZETTEL && name != z
  {
    ExtOf(z, ZETTEL, |z + "." + ZETTEL|);
    z + "." + ZETTEL
  }

  function MetaEvents(z: string): (r: seq<Event>)
    requires Named(z)
    ensures AllNamed(r)
  {
    [] + [Update(z)] + [Update(ZettelFile(z))] + [Update(z)] + [Delete(z)]
  }

  lemma MetaUpdates(z: string)
    requires Named(z) && OnlyExt(z) == ""
    ensures Updated(map[], NO_ENTRY, z) == Entry(z, "", "", [])
    ensures Updated(map[], Entry(z, "", "", []), ZettelFile(z)) == Entry(z, ZettelFile(z), ZETTEL, [])
    ensures Updated(map[], Entry(z, ZettelFile(z), ZETTEL, []), z) == Entry(z, ZettelFile(z), ZETTEL, [z])
  {
    assert [] + [z] == [z];
  }

  /** Without longer names: the file with the metadata is deleted after a zettel file came, and stays known. */
  lemma StaleMeta(z: string)
    requires Named(z) && OnlyExt(z) == ""
    ensures z !in FilesAfter(MetaEvents(z)) && Tracks(Run(map[], MetaEvents(z)), z)
  {
    MetaUpdates(z);
    var both := Entry(z, ZettelFile(z), ZETTEL, []);
    var twice := [] + [Update(z)] + [Update(ZettelFile(z))];
    RunTwoUpdates(map[], [], NO_ENTRY, z, Entry(z, "", "", []), ZettelFile(z), both);
    RunUpdate(map[], twice, both, z, twice + [Update(z)]);
    RunDelete(map[], twice + [Update(z)], both.(useless := [z]), z, MetaEvents(z));
  }
}
