/**
 What the lines of a header make of each key together: keys may occur again, values may go on over several
 lines, and comments may stand between them.
 */
module MetaLines {
  import opened Text
  import opened Metas
  import Ids
  import F = ZettelFiles

  /** A key and a value, as they are read. */
  type Header = (string, string)

  function AddAll(rules: Rules, hs: seq<Header>): (r: Pairs) {
    if hs == [] then map[] else
    var last := hs[|hs| - 1];
    Added(rules, AddAll(rules, hs[..|hs| - 1]), last.0, last.1)
  }

  /** The values that are given for a key, in their order. */
  function ValuesOf(rules: Rules, hs: seq<Header>, k: string): (r: seq<string>)
    ensures forall v :: v in r ==> exists h :: h in hs && Lower(rules, h.0) == k && v == Trim(h.1)
  {
    if hs == [] then [] else
    var last := hs[|hs| - 1];
    ValuesOf(rules, hs[..|hs| - 1], k) + if Lower(rules, last.0) == k then [Trim(last.1)] else []
  }

  lemma {:induction false} ValuesTrimmed(rules: Rules, hs: seq<Header>, k: string)
    ensures forall v :: v in ValuesOf(rules, hs, k) ==> Trimmed(v)
  {
    if hs != [] {
      ValuesTrimmed(rules, hs[..|hs| - 1], k);
      TrimOfTrimmed(hs[|hs| - 1].1);
    }
  }

  // ---------- Sets of elements ----------

  /** `w` is an element of one of the values. */
  ghost predicate Listed(vs: seq<string>, w: string) {
    exists v :: v in vs && w in Fields(v)
  }

  ghost predicate AnyListed(vs: seq<string>, use: string -> bool) {
    exists w :: Listed(vs, w) && use(w)
  }

  /** What is stored lists just the usable elements of all values. */
  ghost predicate SetHolds(pairs: Pairs, k: string, vs: seq<string>, use: string -> bool) {
    && (k in pairs <==> AnyListed(vs, use))
    && (k in pairs ==> forall w :: w in Fields(pairs[k]) <==> Listed(vs, w) && use(w))
  }

  lemma ListedSnoc(vs: seq<string>, v: string, w: string)
    ensures Listed(vs + [v], w) <==> Listed(vs, w) || w in Fields(v)
  {
    assert forall x :: x in vs + [v] <==> x in vs || x == v;
  }

  lemma AddSetHolds(pairs: Pairs, k: string, vs: seq<string>, v: string, use: string -> bool)
    requires SetHolds(pairs, k, vs, use)
    ensures SetHolds(AddSet(pairs, k, v, use), k, vs + [v], use)
  {
    var after := AddSet(pairs, k, v, use);
    AddSetExact(pairs, k, v, use);
    forall w { ListedSnoc(vs, v, w); }
    if k in after {
      forall w ensures w in Fields(after[k]) <==> Listed(vs + [v], w) && use(w) {}
    }
    if w :| w in Fields(v) && use(w) { assert Listed(vs + [v], w); }
    if k in pairs {
      var w :| Listed(vs, w) && use(w);
      assert Listed(vs + [v], w);
    }
  }

  // ---------- Other values ----------

  /** The last of the values that is usable is stored. */
  ghost predicate LastHolds(pairs: Pairs, k: string, vs: seq<string>, use: string -> bool) {
    && (k in pairs <==> exists v :: v in vs && use(v))
    && (k in pairs ==> exists i :: LastUsable(vs, use, i) && pairs[k] == vs[i])
  }

  ghost predicate LastUsable(vs: seq<string>, use: string -> bool, i: int) {
    0 <= i < |vs| && use(vs[i]) && forall j :: i < j < |vs| ==> !use(vs[j])
  }

  lemma SetLastHolds(pairs: Pairs, k: string, vs: seq<string>, v: string, use: string -> bool)
    requires LastHolds(pairs, k, vs, use)
    ensures LastHolds(if use(v) then pairs[k := v] else pairs, k, vs + [v], use)
  {
    var longer := vs + [v];
    assert forall x :: x in longer <==> x in vs || x == v;
    if use(v) {
      assert LastUsable(longer, use, |vs|) && longer[|vs|] == v;
    } else if k in pairs {
      var i :| LastUsable(vs, use, i) && pairs[k] == vs[i];
      assert LastUsable(longer, use, i) && longer[i] == vs[i];
    }
  }

  /** The texts that are not empty, with a blank between them. */
  function JoinFull(vs: seq<string>): (r: string) {
    if vs == [] then "" else
    var front, last := JoinFull(vs[..|vs| - 1]), vs[|vs| - 1];
    if front == "" then last else if last == "" then front else front + " " + last
  }

  lemma {:induction false} JoinFullTrimmed(vs: seq<string>)
    requires forall v :: v in vs ==> Trimmed(v)
    ensures Trimmed(JoinFull(vs))
  {
    if vs != [] {
      var front, last := JoinFull(vs[..|vs| - 1]), vs[|vs| - 1];
      JoinFullTrimmed(vs[..|vs| - 1]);
      assert last in vs;
      if front != "" && last != "" {
        var both := front + " " + last;
        assert both[0] == front[0] && both[|both| - 1] == last[|last| - 1];
      }
    }
  }

  lemma JoinFullSnoc(vs: seq<string>, v: string)
    ensures var front := JoinFull(vs);
            JoinFull(vs + [v]) == if front == "" then v else if v == "" then front else front + " " + v
  {
    assert (vs + [v])[..|vs|] == vs;
  }

  // ---------- What is stored for a key ----------

  /** Independently for each type: what all values of a key leave in the metadata. */
  ghost predicate KeyHolds(rules: Rules, pairs: Pairs, k: string, vs: seq<string>) {
    match TypeOf(rules, k)
    case TypeTagSet => SetHolds(pairs, k, LowerAll(rules, vs), UseTag)
    case TypeIDSet => SetHolds(pairs, k, vs, UseId)
    case TypeWord => LastHolds(pairs, k, LowerAll(rules, vs), Any)
    case TypeID => LastHolds(pairs, k, vs, UseId)
    case TypeTimestamp => LastHolds(pairs, k, vs, rules.isTime)
    case TypeOther => (k in pairs <==> vs != []) && (k in pairs ==> pairs[k] == JoinFull(vs))
  }

  predicate Any(v: string) {
    true
  }

  function LowerAll(rules: Rules, vs: seq<string>): (r: seq<string>)
    ensures |r| == |vs| && forall i :: 0 <= i < |vs| ==> r[i] == Lower(rules, vs[i])
  {
    seq(|vs|, i requires 0 <= i < |vs| => Lower(rules, vs[i]))
  }

  lemma AddTypedHolds(rules: Rules, pairs: Pairs, k: string, vs: seq<string>, v: string)
    requires Lawful(rules) && KeyHolds(rules, pairs, k, vs) && Trimmed(v) && forall x :: x in vs ==> Trimmed(x)
    ensures KeyHolds(rules, AddTyped(rules, TypeOf(rules, k), pairs, k, v), k, vs + [v])
  {
    var low := Lower(rules, v);
    assert LowerAll(rules, vs + [v]) == LowerAll(rules, vs) + [low];
    LowerTwice(rules, v);
    TrimOfTrimmed(v);
    TrimOfTrimmed(low);
    match TypeOf(rules, k)
    case TypeTagSet => AddSetHolds(pairs, k, LowerAll(rules, vs), low, UseTag);
    case TypeIDSet => AddSetHolds(pairs, k, vs, v, UseId);
    case TypeWord => SetLastHolds(pairs, k, LowerAll(rules, vs), low, Any);
    case TypeID => SetLastHolds(pairs, k, vs, v, UseId);
    case TypeTimestamp => SetLastHolds(pairs, k, vs, v, rules.isTime);
    case TypeOther => AddDataHolds(pairs, k, vs, v);
  }

  lemma AddDataHolds(pairs: Pairs, k: string, vs: seq<string>, v: string)
    requires (k in pairs <==> vs != []) && (k in pairs ==> pairs[k] == JoinFull(vs))
    requires Trimmed(v) && forall x :: x in vs ==> Trimmed(x)
    ensures var after := AddData(pairs, k, v); k in after && after[k] == JoinFull(vs + [v])
  {
    JoinFullSnoc(vs, v);
    assert forall x :: x in vs + [v] <==> x in vs || x == v;
    JoinFullTrimmed(vs + [v]);
    TrimOfTrimmed(v);
    TrimOfTrimmed(JoinFull(vs + [v]));
  }

  /** Other keys are left alone. */
  lemma AddedElsewhere(rules: Rules, pairs: Pairs, h: Header, k: string)
    requires Lower(rules, h.0) != k
    ensures var after := Added(rules, pairs, h.0, h.1);
            (k in after <==> k in pairs) && (k in pairs ==> after[k] == pairs[k])
  {}

  /** After any headers, each key has just what its own values make of it, and no other key is there. */
  lemma {:induction false} AllKeysHold(rules: Rules, hs: seq<Header>, k: string)
    requires Lawful(rules)
    ensures KeyIsValid(k) && k != KEY_ID ==> KeyHolds(rules, AddAll(rules, hs), k, ValuesOf(rules, hs, k))
    ensures !KeyIsValid(k) || k == KEY_ID ==> k !in AddAll(rules, hs)
    decreases |hs|
  {
    if hs != [] {
      var front, last := hs[..|hs| - 1], hs[|hs| - 1];
      AllKeysHold(rules, front, k);
      ValuesTrimmed(rules, front, k);
      TrimOfTrimmed(last.1);
      if Lower(rules, last.0) != k {
        AddedElsewhere(rules, AddAll(rules, front), last, k);
        assert ValuesOf(rules, hs, k) == ValuesOf(rules, front, k);
      } else if KeyIsValid(k) && k != KEY_ID {
        AddTypedHolds(rules, AddAll(rules, front), k, ValuesOf(rules, front, k), Trim(last.1));
      }
    }
  }

  // ---------- The pairs that a text gives ----------

  /** Every key with its value, in the order of the text, up to the end of the header. */
  function Headers(s: string): (r: seq<Header>)
    decreases |s|, 1
  {
    var t := F.DropSpace(s);
    if t == "" || IsEOL(t[0]) then []
    else if t[0] == '%' then Headers(F.EatEOL(F.DropLine(t)))
    else [(F.Key(t), F.Value(F.AfterKey(t)))] + HeadersOn(F.DropHeader(t))
  }

  function HeadersOn(s: string): (r: seq<Header>)
    decreases |s|, 2
  {
    if F.IsYaml(s) then [] else Headers(s)
  }

  /** The headers, added one after the other. */
  function AddFrom(rules: Rules, pairs: Pairs, hs: seq<Header>): (r: Pairs)
    decreases |hs|
  {
    if hs == [] then pairs else AddFrom(rules, Added(rules, pairs, hs[0].0, hs[0].1), hs[1..])
  }

  lemma {:induction false} AddFromSnoc(rules: Rules, pairs: Pairs, hs: seq<Header>, h: Header)
    ensures AddFrom(rules, pairs, hs + [h]) == Added(rules, AddFrom(rules, pairs, hs), h.0, h.1)
    decreases |hs|
  {
    if hs == [] {
      assert ([] + [h])[1..] == [];
    } else {
      assert (hs + [h])[1..] == hs[1..] + [h];
      AddFromSnoc(rules, Added(rules, pairs, hs[0].0, hs[0].1), hs[1..], h);
    }
  }

  lemma {:induction false} AddFromEmpty(rules: Rules, hs: seq<Header>)
    ensures AddFrom(rules, map[], hs) == AddAll(rules, hs)
    decreases |hs|
  {
    if hs != [] {
      var front := hs[..|hs| - 1];
      AddFromEmpty(rules, front);
      assert hs == front + [hs[|hs| - 1]];
      AddFromSnoc(rules, map[], front, hs[|hs| - 1]);
    }
  }

  lemma {:induction false} ReadsHeaders(rules: Rules, m: F.Meta, s: string)
    ensures F.ReadPairs(rules, m, s).0.pairs == AddFrom(rules, m.pairs, Headers(s))
    decreases |s|
  {
    var t := F.DropSpace(s);
    if t == "" || IsEOL(t[0]) {
    } else if t[0] == '%' {
      ReadsHeaders(rules, m, F.EatEOL(F.DropLine(t)));
    } else {
      var h, rest := (F.Key(t), F.Value(F.AfterKey(t))), F.DropHeader(t);
      var next := m.(pairs := Added(rules, m.pairs, h.0, h.1));
      assert Headers(s)[1..] == HeadersOn(rest);
      if !F.IsYaml(rest) { ReadsHeaders(rules, next, rest); }
    }
  }

  /** Whatever the text, each key has in the metadata just what all its values make of it. */
  lemma ReadHolds(rules: Rules, s: string, k: string)
    requires Lawful(rules)
    ensures var pairs := F.ReadMeta(rules, s).0.pairs;
            var hs := Headers(if F.IsYaml(s) then F.EatEOL(F.DropLine(s)) else s);
            if KeyIsValid(k) && k != KEY_ID then KeyHolds(rules, pairs, k, ValuesOf(rules, hs, k)) else k !in pairs
  {
    var u := if F.IsYaml(s) then F.EatEOL(F.DropLine(s)) else s;
    ReadsHeaders(rules, F.Meta(map[], false), u);
    AddFromEmpty(rules, Headers(u));
    AllKeysHold(rules, Headers(u), k);
  }

  // ---------- Headers with repeated keys, several lines and comments ----------

  datatype Item = Comment(text: string) | Entry(key: string, first: string, more: seq<string>)

  predicate IsLine(s: string) {
    OneLine(s) && (s == "" || !IsSpace(s[0]))
  }

  predicate IsItem(it: Item) {
    match it
    case Comment(text) => OneLine(text)
    case Entry(key, first, more) =>
      && key != "" && key[0] != '-' && (forall i :: 0 <= i < |key| ==> F.IsHeader(key[i]))
      && IsLine(first) && forall i :: 0 <= i < |more| ==> IsLine(more[i])
  }

  /** A value on several lines: all but the first start with a blank. */
  function ValueText(first: string, more: seq<string>): (r: string)
    decreases |more|
  {
    " " + first + "\n" + if more == [] then "" else ValueText(more[0], more[1..])
  }

  function ItemText(it: Item): (r: string) {
    match it
    case Comment(text) => "%" + text + "\n"
    case Entry(key, first, more) => key + ":" + ValueText(first, more)
  }

  function ItemsText(items: seq<Item>): (r: string) {
    if items == [] then "" else ItemText(items[0]) + ItemsText(items[1..])
  }

  /** The lines with a blank between them. */
  function OneValue(first: string, more: seq<string>): (r: string)
    decreases |more|
  {
    if more == [] then first else first + " " + OneValue(more[0], more[1..])
  }

  function HeadersOf(items: seq<Item>): (r: seq<Header>) {
    if items == [] then [] else
    (if items[0].Entry? then [(items[0].key, OneValue(items[0].first, items[0].more))] else []) + HeadersOf(items[1..])
  }

  lemma LineAfterBlank(v: string, t: string)
    requires IsLine(v)
    ensures var s := " " + v + "\n" + t; F.Line(F.DropSpace(s)) == v && F.NextLine(s) == t
  {
    var s, u := " " + v + "\n" + t, v + "\n" + t;
    BlankIsWhite();
    assert s[1..] == u;
    assert F.DropSpace(s) == F.DropSpace(u) == u;
    F.LinePrefix(v, t);
    assert F.EatEOL("\n" + t) == ("\n" + t)[1..] == t;
  }

  lemma {:induction false} ValueRead(first: string, more: seq<string>, t: string)
    requires IsLine(first) && (forall i :: 0 <= i < |more| ==> IsLine(more[i])) && !F.Continues(t)
    ensures var s := ValueText(first, more) + t; F.Value(s) == OneValue(first, more) && F.DropValue(s) == t
    decreases |more|
  {
    var s := ValueText(first, more) + t;
    if more == [] {
      assert s == " " + first + "\n" + t;
      LineAfterBlank(first, t);
    } else {
      var rest := ValueText(more[0], more[1..]) + t;
      assert s == " " + first + "\n" + rest;
      LineAfterBlank(first, rest);
      BlankIsWhite();
      assert rest[0] == ' ';
      ValueRead(more[0], more[1..], t);
    }
  }

  lemma HeaderNotWhite(c: char)
    requires F.IsHeader(c) || c == ':' || c == '%'
    ensures !IsWhite(c)
  {
    Graphic(c);
  }

  lemma EntryStart(key: string, u: string)
    requires IsItem(Entry(key, "", []))
    ensures var s := key + (":" + u);
            F.DropSpace(s) == s && s != "" && !IsEOL(s[0]) && s[0] != '%' && !F.IsYaml(s)
  {
    var s := key + (":" + u);
    assert s[0] == key[0];
    HeaderNotWhite(key[0]);
    HeaderNotWhite(':');
  }

  lemma EntryKey(key: string, u: string)
    requires IsItem(Entry(key, "", []))
    ensures var s := key + (":" + u); F.Key(s) == key && F.AfterKey(s) == u
  {
    HeaderNotWhite(':');
    KeyRead(key, ":" + u);
    assert F.DropSpace(":" + u) == ":" + u && (":" + u)[1..] == u;
  }

  lemma EntryRead(rules: Rules, m: F.Meta, it: Item, t: string)
    requires IsItem(it) && it.Entry? && !F.Continues(t) && !F.IsYaml(t)
    ensures F.ReadPairs(rules, m, ItemText(it) + t)
            == F.ReadPairs(rules, m.(pairs := Added(rules, m.pairs, it.key, OneValue(it.first, it.more))), t)
  {
    var s, u := ItemText(it) + t, ValueText(it.first, it.more) + t;
    assert s == it.key + (":" + u);
    EntryStart(it.key, u);
    EntryKey(it.key, u);
    ValueRead(it.first, it.more, t);
    assert F.DropHeader(s) == t;
  }

  lemma {:induction false} KeyRead(k: string, t: string)
    requires forall i :: 0 <= i < |k| ==> F.IsHeader(k[i])
    requires t != "" && !F.IsHeader(t[0])
    ensures F.Key(k + t) == k && F.DropKey(k + t) == t
  {
    if k == "" {
      assert k + t == t;
    } else {
      assert (k + t)[1..] == k[1..] + t;
      KeyRead(k[1..], t);
    }
  }

  lemma CommentRead(text: string, t: string)
    requires OneLine(text)
    ensures var s := "%" + text + "\n" + t;
            F.DropSpace(s) == s && s != "" && !IsEOL(s[0]) && s[0] == '%' && F.EatEOL(F.DropLine(s)) == t
  {
    var s := "%" + text + "\n" + t;
    HeaderNotWhite('%');
    assert OneLine("%" + text);
    F.LinePrefix("%" + text, t);
    assert s == ("%" + text) + "\n" + t;
    assert F.EatEOL("\n" + t) == ("\n" + t)[1..] == t;
  }

  lemma ItemsStart(items: seq<Item>, content: string)
    requires forall i :: 0 <= i < |items| ==> IsItem(items[i])
    ensures var s := ItemsText(items) + "\n" + content; !F.Continues(s) && !F.IsYaml(s)
  {
    var s := ItemsText(items) + "\n" + content;
    if items != [] {
      HeaderNotWhite('%');
      if items[0].Entry? {
        HeaderNotWhite(items[0].key[0]);
        assert s[0] == items[0].key[0];
      } else {
        assert s[0] == '%';
      }
    } else {
      assert s[0] == '\n';
    }
  }

  /** Reading an item takes its text and adds what it gives. */
  lemma ItemRead(rules: Rules, m: F.Meta, it: Item, t: string)
    requires IsItem(it) && !F.Continues(t) && !F.IsYaml(t)
    ensures F.ReadPairs(rules, m, ItemText(it) + t)
            == F.ReadPairs(rules, m.(pairs := AddItem(rules, m.pairs, it)), t)
  {
    match it
    case Comment(text) => CommentRead(text, t);
    case Entry(_, _, _) => EntryRead(rules, m, it, t);
  }

  function AddItem(rules: Rules, pairs: Pairs, it: Item): (r: Pairs) {
    if it.Entry? then Added(rules, pairs, it.key, OneValue(it.first, it.more)) else pairs
  }

  lemma AddFirst(rules: Rules, pairs: Pairs, items: seq<Item>)
    requires items != []
    ensures AddFrom(rules, pairs, HeadersOf(items))
            == AddFrom(rules, AddItem(rules, pairs, items[0]), HeadersOf(items[1..]))
  {
    if items[0].Entry? {
      assert HeadersOf(items)[1..] == HeadersOf(items[1..]);
    } else {
      assert HeadersOf(items) == HeadersOf(items[1..]);
    }
  }

  lemma NoItems(rules: Rules, m: F.Meta, content: string)
    ensures F.ReadPairs(rules, m, ItemsText([]) + "\n" + content) == (m, content)
  {
    var s := ItemsText([]) + "\n" + content;
    assert s == "\n" + content && s[1..] == content;
  }

  lemma ItemsFirst(items: seq<Item>, content: string)
    requires items != []
    ensures ItemsText(items) + "\n" + content == ItemText(items[0]) + (ItemsText(items[1..]) + "\n" + content)
  {}

  lemma {:induction false} ItemsRead(rules: Rules, m: F.Meta, items: seq<Item>, content: string)
    requires forall i :: 0 <= i < |items| ==> IsItem(items[i])
    ensures F.ReadPairs(rules, m, ItemsText(items) + "\n" + content)
            == (m.(pairs := AddFrom(rules, m.pairs, HeadersOf(items))), content)
    decreases |items|
  {
    if items == [] {
      NoItems(rules, m, content);
    } else {
      ItemsStart(items[1..], content);
      ItemsFirst(items, content);
      ItemRead(rules, m, items[0], ItemsText(items[1..]) + "\n" + content);
      AddFirst(rules, m.pairs, items);
      ItemsRead(rules, m.(pairs := AddItem(rules, m.pairs, items[0])), items[1..], content);
    }
  }

  /** The keys, lines and comments of a header are read back: all values of a key together make its value. */
  lemma HeaderRead(rules: Rules, items: seq<Item>, content: string, k: string)
    requires Lawful(rules) && forall i :: 0 <= i < |items| ==> IsItem(items[i])
    ensures var (m, rest) := F.ReadMeta(rules, ItemsText(items) + "\n" + content);
            && rest == content
            && if KeyIsValid(k) && k != KEY_ID
               then KeyHolds(rules, m.pairs, k, ValuesOf(rules, HeadersOf(items), k)) else k !in m.pairs
  {
    ItemsStart(items, content);
    ItemsRead(rules, F.Meta(map[], false), items, content);
    AddFromEmpty(rules, HeadersOf(items));
    AllKeysHold(rules, HeadersOf(items), k);
  }

  lemma {:induction false} ValueOf(rules: Rules, hs: seq<Header>, k: string, v: string)
    ensures v in ValuesOf(rules, hs, k) <==> exists h :: h in hs && Lower(rules, h.0) == k && v == Trim(h.1)
  {
    if hs != [] {
      var front, last := hs[..|hs| - 1], hs[|hs| - 1];
      ValueOf(rules, front, k, v);
      assert forall h :: h in hs <==> h in front || h == last;
    }
  }

  /** A set holds just the usable elements of every line that has its key, however often the key occurs. */
  lemma ElementsRead(rules: Rules, items: seq<Item>, content: string, k: string, w: string)
    requires Lawful(rules) && forall i :: 0 <= i < |items| ==> IsItem(items[i])
    requires KeyIsValid(k) && k != KEY_ID && TypeOf(rules, k) in {TypeTagSet, TypeIDSet}
    ensures var pairs := F.ReadMeta(rules, ItemsText(items) + "\n" + content).0.pairs;
            var tags := TypeOf(rules, k) == TypeTagSet;
            k in pairs && w in Fields(pairs[k]) <==>
            && (if tags then |w| > 1 && w[0] == '#' else Ids.Parse(w).Some?)
            && exists h :: h in HeadersOf(items) && Lower(rules, h.0) == k
                           && w in Fields(if tags then Lower(rules, Trim(h.1)) else Trim(h.1))
  {
    HeaderRead(rules, items, content, k);
    ElementsOf(rules, F.ReadMeta(rules, ItemsText(items) + "\n" + content).0.pairs, HeadersOf(items), k, w);
  }

  lemma ElementsOf(rules: Rules, pairs: Pairs, hs: seq<Header>, k: string, w: string)
    requires KeyHolds(rules, pairs, k, ValuesOf(rules, hs, k)) && TypeOf(rules, k) in {TypeTagSet, TypeIDSet}
    ensures var tags := TypeOf(rules, k) == TypeTagSet;
            k in pairs && w in Fields(pairs[k]) <==>
            && (if tags then |w| > 1 && w[0] == '#' else Ids.Parse(w).Some?)
            && exists h :: h in hs && Lower(rules, h.0) == k
                           && w in Fields(if tags then Lower(rules, Trim(h.1)) else Trim(h.1))
  {
    var vs := ValuesOf(rules, hs, k);
    forall v { ValueOf(rules, hs, k, v); }
    if TypeOf(rules, k) == TypeTagSet {
      LowerListed(rules, vs, w);
      assert (exists v :: v in vs && w in Fields(Lower(rules, v))) <==>
             exists h :: h in hs && Lower(rules, h.0) == k && w in Fields(Lower(rules, Trim(h.1)));
    } else {
      assert Listed(vs, w) <==> exists h :: h in hs && Lower(rules, h.0) == k && w in Fields(Trim(h.1));
    }
  }

  lemma LowerListed(rules: Rules, vs: seq<string>, w: string)
    ensures Listed(LowerAll(rules, vs), w) <==> exists v :: v in vs && w in Fields(Lower(rules, v))
  {
    var low := LowerAll(rules, vs);
    if Listed(low, w) {
      var x :| x in low && w in Fields(x);
      var i :| 0 <= i < |low| && low[i] == x;
      assert vs[i] in vs && w in Fields(Lower(rules, vs[i]));
    }
    if v :| v in vs && w in Fields(Lower(rules, v)) {
      var i :| 0 <= i < |vs| && vs[i] == v;
      assert low[i] in low;
    }
  }

  /** Trimming takes white space from both ends, and all of it. */
  lemma {:induction false} TrimExact(s: string) returns (i: nat, j: nat)
    ensures i <= j <= |s| && Trim(s) == s[i..j] && Trimmed(s[i..j])
    ensures forall n :: 0 <= n < i || j <= n < |s| ==> IsSpace(s[n])
    decreases |s|
  {
    TrimOfTrimmed(s);
    if s != "" && IsSpace(s[0]) {
      var a, b := TrimExact(s[1..]);
      i, j := a + 1, b + 1;
      assert s[1..][a..b] == s[i..j];
      forall n | 0 <= n < i || j <= n < |s| ensures IsSpace(s[n]) {
        if n > 0 { assert s[n] == s[1..][n - 1]; }
      }
    } else if s != "" && IsSpace(s[|s| - 1]) {
      i, j := TrimExact(s[..|s| - 1]);
      assert s[..|s| - 1][i..j] == s[i..j];
      forall n | 0 <= n < i || j <= n < |s| ensures IsSpace(s[n]) {
        if n < |s| - 1 { assert s[n] == s[..|s| - 1][n]; }
      }
    } else {
      i, j := 0, |s|;
      assert s[i..j] == s;
    }
  }
}
