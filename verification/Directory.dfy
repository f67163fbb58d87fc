/**
 The files that belong to one zettel: which of them holds its metadata, which its content, and which
 are useless duplicates. A file name is a sequence of bytes, one `char` each.
 */
module Directories {
  import opened Text
  import opened Zids

  const ZETTEL := "zettel"

  // ---------- File names ----------

  /** What follows the last dot of a name, but not beyond a slash. */
  function OnlyExt(name: string): (ext: string)
    ensures |ext| <= |name|
    ensures ext != "" ==> |ext| < |name| && name[|name| - |ext|..] == ext && name[|name| - |ext| - 1] == '.'
  {
    Suffix(name, |name|)
  }

  function Suffix(name: string, i: nat): (ext: string)
    requires i <= |name|
    ensures |ext| <= |name|
    ensures ext != "" ==> |ext| < |name| && name[|name| - |ext|..] == ext && name[|name| - |ext| - 1] == '.'
    decreases i, name
  {
    if i == 0 || name[i - 1] == '/' then ""
    else if name[i - 1] == '.' then name[i..]
    else Suffix(name, i - 1)
  }

  /** A file name that names a zettel starts with a digit. */
  predicate Named(name: string) {
    name != "" && IsDigit(name[0])
  }

  function NameWithoutExt(name: string, ext: string): (r: string)
    requires |ext| < |name|
  {
    name[..|name| - |ext| - 1]
  }

  function Base(name: string): (r: string) {
    if OnlyExt(name) == "" then name else NameWithoutExt(name, OnlyExt(name))
  }

  // ---------- Which file is better ----------

  predicate NameBetter(was: string, next: string) {
    |next| <= |was| && Less(next, was)
  }

  /** What the parsers say about a file extension that is a syntax. */
  datatype Syntax = Syntax(isAST: bool, isText: bool, isImage: bool, primary: bool)

  type Tables = map<string, Syntax>

  predicate ExtBetter(t: Tables, was: string, next: string) {
    if (was in t) != (next in t) then was !in t
    else if was in t && was == "zmk" then false
    else if was in t && next == "zmk" then true
    else if was in t && t[was].isAST != t[next].isAST then t[next].isAST
    else if was in t && t[was].isText != t[next].isText then t[next].isText
    else if was in t && t[was].isImage != t[next].isImage then t[was].isImage
    else if was in t && t[was].primary != t[next].primary then t[next].primary
    else if |was| != |next| then |next| < |was|
    else Less(next, was)
  }

  /** Extensions are strictly ordered: no two are better than each other, and of two one is better. */
  lemma ExtOrder(t: Tables, a: string, b: string, c: string)
    ensures !(ExtBetter(t, a, b) && ExtBetter(t, b, a))
    ensures a != b ==> ExtBetter(t, a, b) || ExtBetter(t, b, a)
    ensures ExtBetter(t, a, b) && ExtBetter(t, b, c) && a != c ==> ExtBetter(t, a, c)
  {
    LessOrder(a, b, c);
    LessOrder(b, a, c);
    LessOrder(c, b, a);
  }

  // The registered syntaxes, and some extensions that are no syntax, from the best to the worst.

  const MARKUP := Syntax(true, true, false, true)
  const PLAIN_TEXT := Syntax(false, true, false, true)
  const PICTURE := Syntax(false, false, true, true)

  const SYNTAXES: seq<(string, Syntax)> := [
    ("zmk", MARKUP), ("draw", MARKUP), ("markdown", MARKUP), ("md", MARKUP.(primary := false)),
    ("css", PLAIN_TEXT), ("sxn", PLAIN_TEXT), ("txt", PLAIN_TEXT), ("html", PLAIN_TEXT),
    ("text", PLAIN_TEXT.(primary := false)), ("plain", PLAIN_TEXT.(primary := false)),
    ("svg", PLAIN_TEXT.(isImage := true)), ("none", Syntax(false, false, false, true)),
    ("gif", PICTURE), ("png", PICTURE), ("jpeg", PICTURE), ("webp", PICTURE), ("jpg", PICTURE.(primary := false))]

  const NO_SYNTAXES := ["gz", "cpp", "tar", "cppc"]

  function Ranked(i: nat): (ext: string)
    requires i < |SYNTAXES| + |NO_SYNTAXES|
  {
    if i < |SYNTAXES| then SYNTAXES[i].0 else NO_SYNTAXES[i - |SYNTAXES|]
  }

  /** The table that the parsers fill; it may know more. */
  ghost predicate Registered(t: Tables) {
    && (forall i :: 0 <= i < |SYNTAXES| ==> SYNTAXES[i].0 in t && t[SYNTAXES[i].0] == SYNTAXES[i].1)
    && forall ext :: ext in NO_SYNTAXES ==> ext !in t
  }

  lemma NextRank(t: Tables, i: nat)
    requires Registered(t) && i + 1 < |SYNTAXES| + |NO_SYNTAXES|
    ensures ExtBetter(t, Ranked(i + 1), Ranked(i))
  {
    if i < |SYNTAXES| { assert SYNTAXES[i].0 in t && t[SYNTAXES[i].0] == SYNTAXES[i].1; }
    if i + 1 < |SYNTAXES| { assert SYNTAXES[i + 1].0 in t && t[SYNTAXES[i + 1].0] == SYNTAXES[i + 1].1; }
  }

  /** Each extension of the list is better than all that follow, of whatever kind. */
  lemma {:induction false} ExtRanks(t: Tables, i: nat, j: nat)
    requires Registered(t) && i < j < |SYNTAXES| + |NO_SYNTAXES|
    ensures ExtBetter(t, Ranked(j), Ranked(i))
    decreases j - i
  {
    NextRank(t, j - 1);
    if i + 1 < j {
      ExtRanks(t, i, j - 1);
      ExtOrder(t, Ranked(j), Ranked(j - 1), Ranked(i));
    }
  }

  /** A syntax is better than an extension that is none, and of all syntaxes zettelmarkup is the best. */
  lemma ExtBest(t: Tables, was: string, next: string)
    ensures was !in t && next in t ==> ExtBetter(t, was, next)
    ensures was in t && "zmk" in t && was != "zmk" ==> ExtBetter(t, was, "zmk")
  {}

  lemma NameOrder(a: string, b: string, c: string)
    ensures !(NameBetter(a, b) && NameBetter(b, a))
    ensures NameBetter(a, b) && NameBetter(b, c) ==> NameBetter(a, c)
  {
    LessOrder(a, b, c);
    LessOrder(c, b, a);
  }

  // ---------- Entries ----------

  datatype Entry = Entry(meta: string, content: string, ext: string, useless: seq<string>)

  const NO_ENTRY := Entry("", "", "", [])

  /** The entry knows of a file with this name. */
  predicate Knows(e: Entry, n: string) {
    n in e.useless || (n != "" && (n == e.meta || n == e.content))
  }

  ghost predicate Shaped(e: Entry) {
    && (e.content == "" ==> e.ext == "")
    && (e.content != "" ==> Named(e.content) && e.ext == OnlyExt(e.content) && e.ext != "")
    && (e.meta != "" ==> Named(e.meta))
    && (forall n :: n in e.useless ==> Named(n))
    && NoDup(e.useless)
  }

  /** The useless `n`, which has no extension, should not have been the file with the metadata. */
  ghost predicate BeatenBy(e: Entry, n: string) {
    e.ext != ZETTEL && n in e.useless && OnlyExt(n) == "" && (e.meta == "" || NameBetter(e.meta, n))
  }

  /** There is no way back from here to the two special cases of `updateEntry`. */
  predicate Stuck(e: Entry) {
    e.meta != "" || e.ext == ZETTEL
  }

  function AddUseless(e: Entry, name: string): (r: Entry)
    requires Shaped(e) && Named(name)
    ensures Shaped(r) && r == e.(useless := r.useless)
    ensures forall n :: n in r.useless <==> n in e.useless || n == name
  {
    if name in e.useless then e else e.(useless := e.useless + [name])
  }

  function UpdateMeta(e: Entry, name: string): (r: Entry)
    requires Shaped(e) && Named(name)
    ensures Shaped(r) && Stuck(r)
  {
    if e.meta == "" then e.(meta := name)
    else if e.meta == name then e
    else if NameBetter(e.meta, name) then AddUseless(e.(meta := name), e.meta)
    else AddUseless(e, name)
  }

  predicate ContentBetter(t: Tables, was: string, wasExt: string, next: string, nextExt: string) {
    if wasExt == nextExt then NameBetter(was, next)
    else wasExt != ZETTEL && (nextExt == ZETTEL || ExtBetter(t, wasExt, nextExt))
  }

  function UpdateContent(t: Tables, e: Entry, name: string, ext: string): (r: Entry)
    requires Shaped(e) && Named(name) && ext == OnlyExt(name) && (ext == "" ==> e.ext == ZETTEL)
    ensures Shaped(r) && (Stuck(e) ==> Stuck(r))
  {
    if e.content == "" then e.(content := name, ext := ext)
    else if e.content == name then e
    else if !ContentBetter(t, e.content, e.ext, name, ext) then AddUseless(e, name)
    else
      var e' := AddUseless(e.(content := name, ext := ext), e.content);
      if ext == ZETTEL && e.ext != ZETTEL then DropMeta(e') else e'
  }

  /** A zettel file has its own metadata. */
  function DropMeta(e: Entry): (r: Entry)
    requires Shaped(e)
    ensures Shaped(r) && forall n :: Knows(r, n) <==> Knows(e, n)
    ensures r.content == e.content && r.ext == e.ext
  {
    if e.meta == "" then e else AddUseless(e, e.meta).(meta := "")
  }

  /** The content file turns out to hold the metadata of `name`. */
  predicate ContentIsMeta(e: Entry, name: string) {
    e.ext != ZETTEL && OnlyExt(name) != "" && e.meta == "" && Base(name) == e.content
  }

  /** `name` holds the metadata of the content file. */
  predicate NameIsMeta(e: Entry, name: string) {
    e.ext != ZETTEL && OnlyExt(name) != "" && e.meta == "" && e.content != "" && Base(e.content) == name
  }

  function Updated(t: Tables, e: Entry, name: string): (r: Entry)
    requires Shaped(e) && Named(name)
    ensures Shaped(r) && (Stuck(e) ==> Stuck(r))
    decreases if Stuck(e) then 0 else 1, 0, 0
  {
    if e.ext != ZETTEL && OnlyExt(name) == "" then UpdateMeta(e, name)
    else if ContentIsMeta(e, name) then
      UpdateContent(t, Replayed(t, e.(meta := e.content, content := "", ext := "")), name, OnlyExt(name))
    else if NameIsMeta(e, name) then e.(meta := name)
    else UpdateContent(t, e, name, OnlyExt(name))
  }

  /** All useless names are tried again. */
  function Replayed(t: Tables, e: Entry): (r: Entry)
    requires Shaped(e)
    ensures Shaped(r) && (Stuck(e) ==> Stuck(r))
    decreases if Stuck(e) then 0 else 1, 2, 0
  {
    Replay(t, e.(useless := []), e.useless)
  }

  function Replay(t: Tables, e: Entry, names: seq<string>): (r: Entry)
    requires Shaped(e) && forall n :: n in names ==> Named(n)
    ensures Shaped(r) && (Stuck(e) ==> Stuck(r))
    decreases if Stuck(e) then 0 else 1, 1, |names|
  {
    if names == [] then e else Updated(t, Replay(t, e, names[..|names| - 1]), names[|names| - 1])
  }

  // ---------- Names are conserved ----------

  lemma UpdateContentKnows(t: Tables, e: Entry, name: string, ext: string, n: string)
    requires Shaped(e) && Named(name) && ext == OnlyExt(name) && (ext == "" ==> e.ext == ZETTEL)
    ensures Knows(UpdateContent(t, e, name, ext), n) <==> Knows(e, n) || n == name
  {
    if e.content != "" && e.content != name && ContentBetter(t, e.content, e.ext, name, ext) {
      var e' := AddUseless(e.(content := name, ext := ext), e.content);
      assert Knows(e', n) <==> Knows(e, n) || n == name;
    }
  }

  lemma UpdateMetaKnows(e: Entry, name: string, n: string)
    requires Shaped(e) && Named(name)
    ensures Knows(UpdateMeta(e, name), n) <==> Knows(e, n) || n == name
  {}

  /** After an update event an entry knows the names it knew, and the new one. */
  lemma {:induction false} UpdateConserves(t: Tables, e: Entry, name: string, n: string)
    requires Shaped(e) && Named(name)
    ensures Knows(Updated(t, e, name), n) <==> Knows(e, n) || n == name
    decreases if Stuck(e) then 0 else 1, 0, 0
  {
    var r := Updated(t, e, name);
    if e.ext != ZETTEL && OnlyExt(name) == "" {
      UpdateMetaKnows(e, name, n);
    } else if ContentIsMeta(e, name) {
      var mid := e.(meta := e.content, content := "", ext := "");
      ReplayedConserves(t, mid, n);
      var back := Replayed(t, mid);
      UpdateContentKnows(t, back, name, OnlyExt(name), n);
    } else if !NameIsMeta(e, name) {
      UpdateContentKnows(t, e, name, OnlyExt(name), n);
    }
  }

  lemma {:induction false} ReplayedConserves(t: Tables, e: Entry, n: string)
    requires Shaped(e)
    ensures Knows(Replayed(t, e), n) <==> Knows(e, n)
    decreases if Stuck(e) then 0 else 1, 2, 0
  {
    ReplayConserves(t, e.(useless := []), e.useless, n);
  }

  lemma {:induction false} ReplayConserves(t: Tables, e: Entry, names: seq<string>, n: string)
    requires Shaped(e) && forall n :: n in names ==> Named(n)
    ensures Knows(Replay(t, e, names), n) <==> Knows(e, n) || n in names
    decreases if Stuck(e) then 0 else 1, 1, |names|
  {
    if names != [] {
      var front, last := names[..|names| - 1], names[|names| - 1];
      assert n in names <==> n in front || n == last;
      ReplayConserves(t, e, front, n);
      var mid := Replay(t, e, front);
      UpdateConserves(t, mid, last, n);
    }
  }

  // ---------- The metadata file is never beaten ----------

  lemma UpdateMetaUnbeaten(e: Entry, name: string, n: string)
    requires Shaped(e) && Named(name) && e.ext != ZETTEL && OnlyExt(name) == "" && !BeatenBy(e, n)
    ensures !BeatenBy(UpdateMeta(e, name), n)
  {
    NameOrder(e.meta, name, n);
    NameOrder(e.meta, name, name);
  }

  lemma UpdateContentUnbeaten(t: Tables, e: Entry, name: string, ext: string, n: string)
    requires Shaped(e) && Named(name) && ext == OnlyExt(name) && (ext == "" ==> e.ext == ZETTEL) && !BeatenBy(e, n)
    ensures !BeatenBy(UpdateContent(t, e, name, ext), n)
  {}

  lemma {:induction false} UpdateUnbeaten(t: Tables, e: Entry, name: string, n: string)
    requires Shaped(e) && Named(name) && !BeatenBy(e, n)
    ensures !BeatenBy(Updated(t, e, name), n)
    decreases if Stuck(e) then 0 else 1, 0, 0
  {
    if e.ext != ZETTEL && OnlyExt(name) == "" {
      UpdateMetaUnbeaten(e, name, n);
    } else if ContentIsMeta(e, name) {
      var mid := e.(meta := e.content, content := "", ext := "");
      ReplayedUnbeaten(t, mid, n);
      var back := Replayed(t, mid);
      UpdateContentUnbeaten(t, back, name, OnlyExt(name), n);
    } else if !NameIsMeta(e, name) {
      UpdateContentUnbeaten(t, e, name, OnlyExt(name), n);
    }
  }

  lemma {:induction false} ReplayedUnbeaten(t: Tables, e: Entry, n: string)
    requires Shaped(e)
    ensures !BeatenBy(Replayed(t, e), n)
    decreases if Stuck(e) then 0 else 1, 2, 0
  {
    ReplayUnbeaten(t, e.(useless := []), e.useless, n);
  }

  lemma {:induction false} ReplayUnbeaten(t: Tables, e: Entry, names: seq<string>, n: string)
    requires Shaped(e) && !BeatenBy(e, n) && forall n :: n in names ==> Named(n)
    ensures !BeatenBy(Replay(t, e, names), n)
    decreases if Stuck(e) then 0 else 1, 1, |names|
  {
    if names != [] {
      ReplayUnbeaten(t, e, names[..|names| - 1], n);
      UpdateUnbeaten(t, Replay(t, e, names[..|names| - 1]), names[|names| - 1], n);
    }
  }

  // ---------- Deleting a file ----------

  function Without(names: seq<string>, name: string): (r: seq<string>) {
    if names == [] then []
    else if names[0] == name then names[1..]
    else [names[0]] + Without(names[1..], name)
  }

  lemma {:induction false} WithoutNoDup(names: seq<string>, name: string)
    requires NoDup(names)
    ensures NoDup(Without(names, name))
    ensures forall n :: n in Without(names, name) <==> n in names && n != name
  {
    if names != [] {
      assert forall n :: n in names <==> n == names[0] || n in names[1..];
      assert names[0] !in names[1..];
      if names[0] != name { WithoutNoDup(names[1..], name); }
    }
  }

  /** What `onDeleteFileEvent` makes of the fields of an entry. */
  function Deleted(t: Tables, e: Entry, name: string): (r: Entry)
    requires Shaped(e)
  {
    if name in e.useless then e.(useless := Without(e.useless, name))
    else if name == e.content then Replayed(t, e.(content := "", ext := ""))
    else if name == e.meta then Replayed(t, e.(meta := ""))
    else e
  }

  /** The name is known twice. */
  predicate Doubled(e: Entry, name: string) {
    (name in e.useless && (name == e.meta || name == e.content)) || (name == e.meta && name == e.content)
  }

  /** No name but the deleted one is lost; the deleted one is forgotten unless it was known twice. */
  lemma DeleteExact(t: Tables, e: Entry, name: string, n: string)
    requires Shaped(e) && Named(name)
    ensures Shaped(Deleted(t, e, name))
    ensures n != name ==> (Knows(Deleted(t, e, name), n) <==> Knows(e, n))
    ensures Knows(Deleted(t, e, name), name) <==> Doubled(e, name)
  {
    WithoutNoDup(e.useless, name);
    if name in e.useless {
    } else if name == e.content {
      ReplayedConserves(t, e.(content := "", ext := ""), n);
      ReplayedConserves(t, e.(content := "", ext := ""), name);
    } else if name == e.meta {
      ReplayedConserves(t, e.(meta := ""), n);
      ReplayedConserves(t, e.(meta := ""), name);
    }
  }

  lemma DeleteUnbeaten(t: Tables, e: Entry, name: string, n: string)
    requires Shaped(e) && !BeatenBy(e, n)
    ensures !BeatenBy(Deleted(t, e, name), n)
  {
    if name in e.useless {
      WithoutNoDup(e.useless, name);
    } else if name == e.content {
      ReplayedUnbeaten(t, e.(content := "", ext := ""), n);
    } else if name == e.meta {
      ReplayedUnbeaten(t, e.(meta := ""), n);
    }
  }

  // ---------- Events ----------

  /** There is a file in use if there is any file. */
  predicate Alive(e: Entry) {
    e.useless == [] || e.meta != "" || e.content != ""
  }

  predicate InUse(e: Entry) {
    e.meta != "" || e.content != ""
  }

  lemma UpdateInUse(t: Tables, e: Entry, name: string)
    requires Shaped(e) && Named(name)
    ensures InUse(Updated(t, e, name))
  {
    if e.ext != ZETTEL && OnlyExt(name) == "" {
    } else if ContentIsMeta(e, name) {
      ContentInUse(t, Replayed(t, e.(meta := e.content, content := "", ext := "")), name);
    } else {
      ContentInUse(t, e, name);
    }
  }

  lemma ContentInUse(t: Tables, e: Entry, name: string)
    requires Shaped(e) && Named(name) && (OnlyExt(name) == "" ==> e.ext == ZETTEL)
    ensures InUse(UpdateContent(t, e, name, OnlyExt(name)))
  {}

  lemma ReplayedAlive(t: Tables, e: Entry)
    requires Shaped(e)
    ensures Alive(Replayed(t, e))
  {
    if e.useless != [] {
      var front, last := e.useless[..|e.useless| - 1], e.useless[|e.useless| - 1];
      UpdateInUse(t, Replay(t, e.(useless := []), front), last);
    }
  }

  lemma DeleteAlive(t: Tables, e: Entry, name: string)
    requires Shaped(e) && Alive(e)
    ensures Alive(Deleted(t, e, name))
  {
    if name !in e.useless {
      ReplayedAlive(t, e.(content := "", ext := ""));
      ReplayedAlive(t, e.(meta := ""));
    }
  }

  /** What happens to the files of one zettel. */
  datatype Event = Update(name: string) | Delete(name: string)

  /** The entry of a zettel; a zettel without an entry has no files. */
  function Step(t: Tables, entry: Option<Entry>, event: Event): (r: Option<Entry>)
    requires (entry.Some? ==> Shaped(entry.value)) && Named(event.name)
  {
    match event
    case Update(name) => Some(Updated(t, if entry.Some? then entry.value else NO_ENTRY, name))
    case Delete(name) =>
      if entry.None? then None else
      var e := Deleted(t, entry.value, name);
      if name !in entry.value.useless && !InUse(e) then None else Some(e)
  }

  lemma UpdatedSwapped(t: Tables, e: Entry, name: string)
    requires Shaped(e) && Named(name) && ContentIsMeta(e, name)
    ensures Updated(t, e, name) ==
            UpdateContent(t, Replayed(t, Entry(e.content, "", "", e.useless)), name, OnlyExt(name))
  {}

  lemma UpdatedPlain(t: Tables, e: Entry, name: string)
    requires Shaped(e) && Named(name)
    ensures !(e.ext != ZETTEL && OnlyExt(name) == "") && !ContentIsMeta(e, name) && !NameIsMeta(e, name) ==>
              Updated(t, e, name) == UpdateContent(t, e, name, OnlyExt(name))
  {}

  lemma ReplayNext(t: Tables, e: Entry, names: seq<string>, i: nat)
    requires Shaped(e) && i < |names| && forall n :: n in names ==> Named(n)
    ensures Replay(t, e, names[..i + 1]) == Updated(t, Replay(t, e, names[..i]), names[i])
  {
    assert names[..i + 1][..i] == names[..i];
  }

  // ---------- The entry as it is changed in place ----------

  /** The useless names with the one that is reported; the empty name reports nothing. */
  function WithReport(names: seq<string>, dup: string): (r: seq<string>) {
    if dup == "" then names else names + [dup]
  }

  /** The entry after its content file turned out to be a metadata file, and all useless names were tried again. */
  function Rearranged(t: Tables, e: Entry, name: string): (r: Entry)
    requires Shaped(e)
  {
    if ContentIsMeta(e, name) then Replayed(t, e.(meta := e.content, content := "", ext := "")) else e
  }

  class DirEntry {
    var metaName: string
    var contentName: string
    var contentExt: string
    var uselessFiles: seq<string>

    constructor ()
      ensures Value() == NO_ENTRY
    {
      metaName, contentName, contentExt, uselessFiles := "", "", "", [];
    }

    ghost function Value(): (e: Entry)
      reads this
    {
      Entry(metaName, contentName, contentExt, uselessFiles)
    }

    method AddUselessFile(name: string) returns (added: string)
      requires Shaped(Value()) && Named(name)
      modifies this
      ensures Value() == AddUseless(old(Value()), name)
      ensures uselessFiles == WithReport(old(uselessFiles), added)
      ensures added == if name in old(uselessFiles) then "" else name
    {
      for i := 0 to |uselessFiles|
        invariant name !in uselessFiles[..i]
        invariant Value() == old(Value())
      {
        if name == uselessFiles[i] { return ""; }
      }
      uselessFiles := uselessFiles + [name];
      added := name;
    }

    method UpdateEntryMeta(name: string) returns (dup: string)
      requires Shaped(Value()) && Named(name)
      modifies this
      ensures Value() == UpdateMeta(old(Value()), name)
      ensures uselessFiles == WithReport(old(uselessFiles), dup)
    {
      var meta := metaName;
      if meta == "" {
        metaName := name;
        return "";
      }
      if meta == name { return ""; }
      if NameBetter(meta, name) {
        metaName := name;
        dup := AddUselessFile(meta);
        return;
      }
      dup := AddUselessFile(name);
    }

    method UpdateEntryContent(t: Tables, name: string, ext: string) returns (dup: string, dup2: string)
      requires Shaped(Value()) && Named(name) && ext == OnlyExt(name) && (ext == "" ==> contentExt == ZETTEL)
      modifies this
      ensures Value() == UpdateContent(t, old(Value()), name, ext)
      ensures uselessFiles == WithReport(WithReport(old(uselessFiles), dup), dup2)
    {
      var content := contentName;
      if content == "" {
        contentName, contentExt := name, ext;
        return "", "";
      }
      if content == name { return "", ""; }
      if contentExt == ext {
        if NameBetter(content, name) {
          dup := UseAsContent(name, ext);
          return dup, "";
        }
        dup := AddUselessFile(name);
        return dup, "";
      }
      if contentExt == ZETTEL {
        dup := AddUselessFile(name);
        return dup, "";
      }
      if ext == ZETTEL {
        dup := UseAsContent(name, ext);
        dup2 := GiveUpMeta();
        return;
      }
      if ExtBetter(t, contentExt, ext) {
        dup := UseAsContent(name, ext);
        return dup, "";
      }
      dup := AddUselessFile(name);
      return dup, "";
    }

    /** Puts a file in the place of the content file, which becomes useless. */
    method UseAsContent(name: string, ext: string) returns (dup: string)
      requires Shaped(Value()) && Named(name) && ext == OnlyExt(name) != "" && contentName != ""
      modifies this
      ensures Value() == AddUseless(old(Value()).(content := name, ext := ext), old(contentName))
      ensures uselessFiles == WithReport(old(uselessFiles), dup)
    {
      var content := contentName;
      contentName, contentExt := name, ext;
      dup := AddUselessFile(content);
    }

    /** The metadata file, if there is one, becomes useless. */
    method GiveUpMeta() returns (dup: string)
      requires Shaped(Value())
      modifies this
      ensures Value() == DropMeta(old(Value()))
      ensures uselessFiles == WithReport(old(uselessFiles), dup)
    {
      dup := "";
      if metaName != "" {
        dup := AddUselessFile(metaName);
        metaName := "";
      }
    }

    method UpdateEntry(t: Tables, name: string) returns (dup: string, dup2: string)
      requires Shaped(Value()) && Named(name)
      modifies this
      ensures Value() == Updated(t, old(Value()), name)
      ensures uselessFiles == WithReport(WithReport(Rearranged(t, old(Value()), name).useless, dup), dup2)
      decreases if Stuck(Value()) then 0 else 1, 0, 0
    {
      var ext := OnlyExt(name);
      ghost var e := Value();
      UpdatedPlain(t, e, name);
      if contentExt != ZETTEL {
        if ext == "" {
          dup := UpdateEntryMeta(name);
          assert uselessFiles == WithReport(WithReport(e.useless, dup), "");
          return dup, "";
        }
        if metaName == "" {
          if NameWithoutExt(name, ext) == contentName {
            metaName, contentName, contentExt := contentName, "", "";
            assert ContentIsMeta(e, name) && Value() == Entry(e.content, "", "", e.useless);
            UpdatedSwapped(t, e, name);
            ReplayUpdateUselessFiles(t);
          } else if contentName != "" && NameWithoutExt(contentName, contentExt) == name {
            assert NameIsMeta(e, name) && !ContentIsMeta(e, name);
            metaName := name;
            assert uselessFiles == WithReport(WithReport(uselessFiles, ""), "");
            return "", "";
          } else {
            assert !ContentIsMeta(e, name) && !NameIsMeta(e, name);
          }
        }
      }
      dup, dup2 := UpdateEntryContent(t, name, ext);
    }

    method ReplayUpdateUselessFiles(t: Tables)
      requires Shaped(Value())
      modifies this
      ensures Value() == Replayed(t, old(Value()))
      decreases if Stuck(Value()) then 0 else 1, 2, 0
    {
      var names := uselessFiles;
      if names == [] { return; }
      uselessFiles := [];
      ghost var start := Value();
      for i := 0 to |names|
        invariant Value() == Replay(t, start, names[..i])
      {
        ReplayNext(t, start, names, i);
        var _, _ := UpdateEntry(t, names[i]);
      }
      assert names[..|names|] == names;
    }

    /** `onDeleteFileEvent` for an entry that exists; `gone` if the entry itself is to be deleted. */
    method OnDeleteFileEvent(t: Tables, name: string) returns (gone: bool)
      requires Shaped(Value()) && Named(name)
      modifies this
      ensures Step(t, Some(old(Value())), Delete(name)) == if gone then None else Some(Value())
    {
      for i := 0 to |uselessFiles|
        invariant name !in uselessFiles[..i]
        invariant Value() == old(Value())
      {
        if uselessFiles[i] == name {
          RemoveDuplicate(name, i);
          return false;
        }
      }
      DeleteUsed(t, name);
      gone := contentName == "" && metaName == "";
    }

    method RemoveDuplicate(name: string, i: nat)
      requires i < |uselessFiles| && uselessFiles[i] == name && name !in uselessFiles[..i]
      modifies this
      ensures Value() == old(Value()).(useless := Without(old(uselessFiles), name))
    {
      WithoutAt(uselessFiles, name, i);
      uselessFiles := uselessFiles[..i] + uselessFiles[i + 1..];
    }

    method DeleteUsed(t: Tables, name: string)
      requires Shaped(Value()) && Named(name) && name !in uselessFiles
      modifies this
      ensures Value() == Deleted(t, old(Value()), name)
    {
      if name == contentName {
        contentName, contentExt := "", "";
        ReplayUpdateUselessFiles(t);
      } else if name == metaName {
        metaName := "";
        ReplayUpdateUselessFiles(t);
      }
    }
  }

  lemma {:induction false} WithoutAt(names: seq<string>, name: string, i: nat)
    requires i < |names| && names[i] == name && name !in names[..i]
    ensures Without(names, name) == names[..i] + names[i + 1..]
    decreases i
  {
    if i > 0 {
      assert names[0] in names[..i];
      assert names[..i] == [names[0]] + names[1..][..i - 1];
      WithoutAt(names[1..], name, i - 1);
      assert names[1..][i..] == names[i + 1..];
      assert [names[0]] + names[1..][..i - 1] == names[..i];
    }
  }
}
