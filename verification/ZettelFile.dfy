/** The text of a zettel file: a header with the metadata, and the content. */
module ZettelFiles {
  import opened Text
  import opened Metas
  import Ids
  import opened Zids

  datatype Meta = Meta(pairs: Pairs, yamlSep: bool)

  // ---------- Reading, as functions of the text that is still to be read ----------

  function DropSpace(s: string): (r: string)
    ensures |r| <= |s| && (r == "" || !IsSpace(r[0]))
  {
    if s != "" && IsSpace(s[0]) then DropSpace(s[1..]) else s
  }

  /** The text up to the end of the line. */
  function Line(s: string): (r: string) {
    if s == "" || IsEOL(s[0]) then "" else [s[0]] + Line(s[1..])
  }

  function DropLine(s: string): (r: string)
    ensures |r| <= |s|
    ensures s != "" && !IsEOL(s[0]) ==> |r| < |s|
  {
    if s == "" || IsEOL(s[0]) then s else DropLine(s[1..])
  }

  /** One end of line, in any of its three forms, if there is one. */
  function EatEOL(s: string): (r: string)
    ensures |r| <= |s|
    ensures s != "" && IsEOL(s[0]) ==> |r| < |s|
  {
    if s == "" then ""
    else if s[0] == '\r' && |s| > 1 && s[1] == '\n' then s[2..]
    else if IsEOL(s[0]) then s[1..]
    else s
  }

  predicate IsHeader(c: char) {
    IsKeyChar(c) || 'A' <= c <= 'Z'
  }

  function Key(s: string): (r: string) {
    if s == "" || !IsHeader(s[0]) then "" else [s[0]] + Key(s[1..])
  }

  function DropKey(s: string): (r: string)
    ensures |r| <= |s|
    ensures s != "" && IsHeader(s[0]) ==> |r| < |s|
  {
    if s == "" || !IsHeader(s[0]) then s else DropKey(s[1..])
  }

  /** What follows the line that is read next. */
  function NextLine(s: string): (r: string)
    ensures |r| <= |s|
    ensures s != "" ==> |r| < |s|
  {
    EatEOL(DropLine(DropSpace(s)))
  }

  predicate Continues(s: string) {
    s != "" && IsSpace(s[0])
  }

  /** The lines of a value: the first one and those that start with white space. */
  function Value(s: string): (r: string)
    decreases |s|
  {
    var rest := NextLine(s);
    if Continues(rest) then Line(DropSpace(s)) + " " + Value(rest) else Line(DropSpace(s))
  }

  function DropValue(s: string): (r: string)
    ensures |r| <= |s|
    ensures s != "" ==> |r| < |s|
    decreases |s|
  {
    var rest := NextLine(s);
    if Continues(rest) then DropValue(rest) else rest
  }

  /** What is read after the key: the value, with or without a colon before it. */
  function AfterKey(s: string): (r: string)
    ensures |r| <= |s|
  {
    var t := DropSpace(DropKey(s));
    if t != "" && t[0] == ':' then t[1..] else t
  }

  function DropHeader(s: string): (r: string)
    requires s != "" && !IsSpace(s[0]) && !IsEOL(s[0])
    ensures |r| < |s|
  {
    DropValue(AfterKey(s))
  }

  predicate IsYaml(s: string) {
    |s| >= 3 && s[0] == '-' && s[1] == '-' && s[2] == '-'
  }

  /** The metadata, read after those already known, and the text after the header. */
  function ReadPairs(rules: Rules, m: Meta, s: string): (r: (Meta, string))
    decreases |s|, 1
  {
    var t := DropSpace(s);
    if t == "" then (m, t)
    else if IsEOL(t[0]) then (m, EatEOL(t))
    else if t[0] == '%' then ReadPairs(rules, m, EatEOL(DropLine(t)))
    else ReadOn(rules, m.(pairs := Added(rules, m.pairs, Key(t), Value(AfterKey(t)))), DropHeader(t))
  }

  /** After a pair, a line with three dashes ends the header. */
  function ReadOn(rules: Rules, m: Meta, s: string): (r: (Meta, string))
    decreases |s|, 2
  {
    if IsYaml(s) then (m.(yamlSep := true), EatEOL(DropLine(s))) else ReadPairs(rules, m, s)
  }

  function ReadMeta(rules: Rules, s: string): (r: (Meta, string)) {
    ReadPairs(rules, Meta(map[], false), if IsYaml(s) then EatEOL(DropLine(s)) else s)
  }

  // ---------- Writing ----------

  type Pair = (string, string)

  function PairLine(p: Pair): (r: string) {
    p.0 + ": " + p.1 + "\n"
  }

  function PairLines(ps: seq<Pair>): (r: string) {
    if ps == [] then "" else PairLine(ps[0]) + PairLines(ps[1..])
  }

  function PairsOf(pairs: Pairs, keys: seq<string>): (r: seq<Pair>) {
    if keys == [] then [] else
    (if keys[0] in pairs then [(keys[0], pairs[keys[0]])] else []) + PairsOf(pairs, keys[1..])
  }

  /** All pairs: those of the first keys in their order, then the others, ordered by key. */
  function ComputedPairs(pairs: Pairs): (r: seq<Pair>) {
    PairsOf(pairs, FIRST_KEYS) + PairsOf(pairs, SortedTexts(pairs.Keys - (set k | k in FIRST_KEYS)))
  }

  function Stored(rules: Rules, ps: seq<Pair>): (r: seq<Pair>) {
    if ps == [] then []
    else (if IsProperty(rules, ps[0].0) then [] else [ps[0]]) + Stored(rules, ps[1..])
  }

  function MetaText(rules: Rules, zid: Zid, m: Meta): (r: string) {
    PairLine((KEY_ID, Ids.String(zid))) + PairLines(Stored(rules, ComputedPairs(m.pairs)))
  }

  const YAML_SEP := "---\n"

  function ZettelText(rules: Rules, zid: Zid, m: Meta, content: string): (r: string) {
    (if m.yamlSep then YAML_SEP else "") + MetaText(rules, zid, m) + (if m.yamlSep then YAML_SEP else "\n") + content
  }

  /** The pairs that are kept in a file. */
  function Kept(rules: Rules, pairs: Pairs): (r: Pairs) {
    map k | k in pairs && !IsProperty(rules, k) :: pairs[k]
  }

  // ---------- What is written is read again ----------

  predicate Readable(p: Pair) {
    KeyIsValid(p.0) && Trimmed(p.1) && OneLine(p.1)
  }

  lemma {:induction false} KeyPrefix(k: string, t: string)
    requires forall i :: 0 <= i < |k| ==> IsKeyChar(k[i])
    requires t != "" && !IsHeader(t[0])
    ensures Key(k + t) == k && DropKey(k + t) == t
  {
    if k == "" {
      assert k + t == t;
    } else {
      assert (k + t)[1..] == k[1..] + t;
      KeyPrefix(k[1..], t);
    }
  }

  lemma {:induction false} LinePrefix(v: string, t: string)
    requires OneLine(v)
    ensures Line(v + "\n" + t) == v && DropLine(v + "\n" + t) == "\n" + t
  {
    if v == "" {
      assert v + "\n" + t == "\n" + t;
    } else {
      assert (v + "\n" + t)[1..] == v[1..] + "\n" + t;
      LinePrefix(v[1..], t);
    }
  }

  lemma ValuePrefix(v: string, t: string)
    requires Trimmed(v) && OneLine(v) && !Continues(t)
    ensures Value(" " + v + "\n" + t) == v && DropValue(" " + v + "\n" + t) == t
  {
    var s, u := " " + v + "\n" + t, v + "\n" + t;
    BlankIsWhite();
    assert s[1..] == u;
    assert DropSpace(s) == DropSpace(u) == u;
    LinePrefix(v, t);
    assert EatEOL("\n" + t) == ("\n" + t)[1..] == t;
    assert NextLine(s) == t;
  }

  lemma KeyCharNotWhite(c: char)
    requires IsKeyChar(c) || c == ':'
    ensures !IsWhite(c)
  {
    Graphic(c);
  }

  /** A written pair is read as this pair, and no more than its line is read. */
  lemma PairPrefix(p: Pair, t: string)
    requires Readable(p) && !Continues(t)
    ensures var s := PairLine(p) + t;
            s != "" && !IsSpace(s[0]) && !IsEOL(s[0]) && s[0] != '%' && !IsYaml(s)
            && Key(s) == p.0 && Value(AfterKey(s)) == p.1 && DropHeader(s) == t
  {
    var s, u := PairLine(p) + t, " " + p.1 + "\n" + t;
    assert s[0] == p.0[0];
    KeyCharNotWhite(p.0[0]);
    KeyCharNotWhite(':');
    assert s == p.0 + (":" + u);
    KeyPrefix(p.0, ":" + u);
    assert DropSpace(":" + u) == ":" + u && (":" + u)[1..] == u;
    ValuePrefix(p.1, t);
  }

  lemma ReadPair(rules: Rules, m: Meta, p: Pair, t: string)
    requires Readable(p) && !Continues(t)
    ensures ReadOn(rules, m, PairLine(p) + t) == ReadPairs(rules, m, PairLine(p) + t)
    ensures ReadPairs(rules, m, PairLine(p) + t) == ReadOn(rules, m.(pairs := Added(rules, m.pairs, p.0, p.1)), t)
  {
    PairPrefix(p, t);
  }

  /** The pairs whose keys have been written so far. */
  function Restrict(pairs: Pairs, done: set<string>): (r: Pairs) {
    map k | k in pairs && k in done :: pairs[k]
  }

  lemma NoContinuation(ps: seq<Pair>, tail: string)
    requires !Continues(tail) && forall p :: p in ps ==> Readable(p)
    ensures !Continues(PairLines(ps) + tail)
  {
    if ps != [] {
      assert Readable(ps[0]);
      var s := PairLines(ps) + tail;
      assert s[0] == ps[0].0[0];
      KeyCharNotWhite(s[0]);
    } else {
      assert PairLines(ps) + tail == tail;
    }
  }

  function Lines(rules: Rules, pairs: Pairs, keys: seq<string>): (r: string) {
    PairLines(Stored(rules, PairsOf(pairs, keys)))
  }

  lemma {:induction false} StoredReadable(rules: Rules, pairs: Pairs, keys: seq<string>)
    requires Normal(rules, pairs)
    ensures forall p :: p in Stored(rules, PairsOf(pairs, keys)) ==> Readable(p)
  {
    if keys != [] {
      StoredReadable(rules, pairs, keys[1..]);
      assert keys[0] in pairs ==> NormalPair(rules, keys[0], pairs[keys[0]]);
      StoredStep(rules, pairs, keys);
    }
  }

  lemma StoredStep(rules: Rules, pairs: Pairs, keys: seq<string>)
    requires keys != []
    ensures var k, rest := keys[0], Stored(rules, PairsOf(pairs, keys[1..]));
            Stored(rules, PairsOf(pairs, keys)) ==
            if k in pairs && !IsProperty(rules, k) then [(k, pairs[k])] + rest else rest
  {
    var k, rest := keys[0], PairsOf(pairs, keys[1..]);
    if k in pairs {
      assert ([(k, pairs[k])] + rest)[1..] == rest;
    } else {
      assert [] + rest == rest;
    }
  }

  lemma RestrictNext(pairs: Pairs, done: set<string>, k: string)
    ensures Restrict(pairs, done + {k}) == if k in pairs then Restrict(pairs, done)[k := pairs[k]]
            else Restrict(pairs, done)
  {}

  lemma KeysNext(keys: seq<string>, done: set<string>)
    requires keys != []
    ensures done + {keys[0]} + (set k | k in keys[1..]) == done + (set k | k in keys)
  {
    assert forall k :: k in keys <==> k == keys[0] || k in keys[1..];
  }

  lemma {:induction false} ReadKeys(rules: Rules, pairs: Pairs, keys: seq<string>, done: set<string>, tail: string)
    requires Lawful(rules) && Normal(rules, pairs) && NoDup(keys) && (forall k :: k in keys ==> k !in done)
    requires !Continues(tail)
    ensures ReadOn(rules, Meta(Restrict(Kept(rules, pairs), done), false), Lines(rules, pairs, keys) + tail)
            == ReadOn(rules, Meta(Restrict(Kept(rules, pairs), done + (set k | k in keys)), false), tail)
    decreases |keys|
  {
    var kept := Kept(rules, pairs);
    if keys == [] {
      assert Lines(rules, pairs, keys) + tail == tail;
      assert done + (set k | k in keys) == done;
    } else {
      var k, rest := keys[0], keys[1..];
      var m := Meta(Restrict(kept, done), false);
      StoredStep(rules, pairs, keys);
      var next := Lines(rules, pairs, rest) + tail;
      if k in kept {
        var p := (k, pairs[k]);
        assert NormalPair(rules, k, pairs[k]);
        assert Lines(rules, pairs, keys) + tail == PairLine(p) + next;
        StoredReadable(rules, pairs, rest);
        NoContinuation(Stored(rules, PairsOf(pairs, rest)), tail);
        ReadPair(rules, m, p, next);
        AddNormal(rules, m.pairs, k, pairs[k]);
      }
      RestrictNext(kept, done, k);
      KeysNext(keys, done);
      ReadKeys(rules, pairs, rest, done + {k}, tail);
    }
  }

  // ---------- The keys of all pairs ----------

  function AllKeys(pairs: Pairs): (r: seq<string>) {
    FIRST_KEYS + SortedTexts(pairs.Keys - (set k | k in FIRST_KEYS))
  }

  lemma AllKeysOnce(pairs: Pairs)
    ensures NoDup(AllKeys(pairs)) && forall k :: k in pairs ==> k in AllKeys(pairs)
  {
    var first := set k | k in FIRST_KEYS;
    var rest := SortedTexts(pairs.Keys - first);
    SortedTextsIncrease(pairs.Keys - first);
    FirstKeysOnce();
    forall i, j | 0 <= i < j < |AllKeys(pairs)| ensures AllKeys(pairs)[i] != AllKeys(pairs)[j] {
      if j >= |FIRST_KEYS| {
        assert rest[j - |FIRST_KEYS|] in rest;
        if i >= |FIRST_KEYS| { LessOrder(rest[i - |FIRST_KEYS|], rest[j - |FIRST_KEYS|], ""); }
      }
    }
    forall k | k in pairs ensures k in AllKeys(pairs) {
      assert k in FIRST_KEYS || k in rest;
    }
  }

  /** Title, role, tags and syntax come in this order before all other keys, and these in the order of texts. */
  predicate KeyBefore(a: string, b: string) {
    var x, y := Ordinal(a), Ordinal(b);
    x < y || (x == y == 4 && Less(a, b))
  }

  function Ordinal(k: string): (n: nat) {
    if k == "title" then 0 else if k == "role" then 1 else if k == "tags" then 2 else if k == "syntax" then 3 else 4
  }

  lemma AllKeysOrder(pairs: Pairs, i: nat, j: nat)
    requires i < j < |AllKeys(pairs)|
    ensures KeyBefore(AllKeys(pairs)[i], AllKeys(pairs)[j])
  {
    var rest := pairs.Keys - (set k | k in FIRST_KEYS);
    SortedTextsIncrease(rest);
    forall n: nat | n < |SortedTexts(rest)| ensures Ordinal(SortedTexts(rest)[n]) == 4 {
      assert SortedTexts(rest)[n] in SortedTexts(rest);
      assert FIRST_KEYS[0] in FIRST_KEYS && FIRST_KEYS[1] in FIRST_KEYS && FIRST_KEYS[2] in FIRST_KEYS
             && FIRST_KEYS[3] in FIRST_KEYS;
    }
    FirstOrdinals();
  }

  lemma FirstOrdinals()
    ensures forall n :: 0 <= n < 4 ==> Ordinal(FIRST_KEYS[n]) == n
  {
    assert |"title"| == 5 && |"role"| == 4 && |"tags"| == 4 && |"syntax"| == 6;
    assert "role"[0] == 'r' && "tags"[0] == 't';
  }

  lemma {:induction false} PairsOfHas(pairs: Pairs, keys: seq<string>, p: Pair)
    ensures p in PairsOf(pairs, keys) <==> p.0 in keys && p.0 in pairs && p.1 == pairs[p.0]
  {
    if keys != [] {
      PairsOfHas(pairs, keys[1..], p);
      assert p.0 in keys <==> p.0 == keys[0] || p.0 in keys[1..];
    }
  }

  ghost predicate InOrder(ps: seq<Pair>, before: (string, string) -> bool) {
    forall i, j :: 0 <= i < j < |ps| ==> before(ps[i].0, ps[j].0)
  }

  lemma InOrderCons(first: Pair, ps: seq<Pair>, before: (string, string) -> bool)
    requires InOrder(ps, before) && forall p :: p in ps ==> before(first.0, p.0)
    ensures InOrder([first] + ps, before)
  {}

  lemma {:induction false} PairsOfOrder(pairs: Pairs, keys: seq<string>, before: (string, string) -> bool)
    requires forall i, j :: 0 <= i < j < |keys| ==> before(keys[i], keys[j])
    ensures InOrder(PairsOf(pairs, keys), before)
  {
    if keys != [] {
      PairsOfOrder(pairs, keys[1..], before);
      if keys[0] in pairs {
        forall p | p in PairsOf(pairs, keys[1..]) ensures before(keys[0], p.0) {
          PairsOfHas(pairs, keys[1..], p);
          var n :| 0 <= n < |keys[1..]| && keys[1..][n] == p.0;
          assert keys[n + 1] == p.0;
        }
        InOrderCons((keys[0], pairs[keys[0]]), PairsOf(pairs, keys[1..]), before);
      } else {
        assert PairsOf(pairs, keys) == PairsOf(pairs, keys[1..]);
      }
    }
  }

  /** The pairs are listed in this order, each of them once. */
  lemma ComputedOrder(pairs: Pairs)
    ensures InOrder(ComputedPairs(pairs), KeyBefore)
    ensures forall p :: p in ComputedPairs(pairs) <==> p.0 in pairs && p.1 == pairs[p.0]
  {
    var keys := AllKeys(pairs);
    AllKeysOnce(pairs);
    forall i, j | 0 <= i < j < |keys| ensures KeyBefore(keys[i], keys[j]) { AllKeysOrder(pairs, i, j); }
    PairsOfOrder(pairs, keys, KeyBefore);
    forall p { PairsOfHas(pairs, keys, p); }
    PairsOfAppend(pairs, FIRST_KEYS, SortedTexts(pairs.Keys - (set k | k in FIRST_KEYS)));
  }

  lemma FirstKeysOnce()
    ensures NoDup(FIRST_KEYS)
  {
    assert |"title"| == 5 && |"role"| == 4 && |"tags"| == 4 && |"syntax"| == 6;
    assert "role"[0] == 'r' && "tags"[0] == 't';
  }

  lemma {:induction false} PairsOfAppend(pairs: Pairs, a: seq<string>, b: seq<string>)
    ensures PairsOf(pairs, a + b) == PairsOf(pairs, a) + PairsOf(pairs, b)
  {
    if a == [] {
      assert a + b == b;
    } else {
      assert (a + b)[1..] == a[1..] + b;
      PairsOfAppend(pairs, a[1..], b);
    }
  }

  lemma ComputedLines(rules: Rules, pairs: Pairs)
    ensures PairLines(Stored(rules, ComputedPairs(pairs))) == Lines(rules, pairs, AllKeys(pairs))
  {
    PairsOfAppend(pairs, FIRST_KEYS, SortedTexts(pairs.Keys - (set k | k in FIRST_KEYS)));
  }

  lemma IdReadable(zid: Zid)
    ensures Readable((KEY_ID, Ids.String(zid)))
  {
    var s := Ids.String(zid);
    Ids.DigitsAreNumeral(zid, 14, 10);
    forall i | 0 <= i < |s| ensures !IsWhite(s[i]) && !IsEOL(s[i]) {
      assert Ids.DigitValue(s[i]) < 10;
      Graphic(s[i]);
    }
  }

  lemma ReadIdLine(rules: Rules, zid: Zid, rest: string)
    requires Lawful(rules) && !Continues(rest)
    ensures var m := Meta(map[], false);
            ReadPairs(rules, m, PairLine((KEY_ID, Ids.String(zid))) + rest) == ReadOn(rules, m, rest)
  {
    IdReadable(zid);
    ReadPair(rules, Meta(map[], false), (KEY_ID, Ids.String(zid)), rest);
    IdIgnored(rules, Ids.String(zid));
  }

  lemma LinesContinue(rules: Rules, pairs: Pairs, keys: seq<string>, tail: string)
    requires Normal(rules, pairs) && !Continues(tail)
    ensures !Continues(Lines(rules, pairs, keys) + tail)
  {
    StoredReadable(rules, pairs, keys);
    NoContinuation(Stored(rules, PairsOf(pairs, keys)), tail);
  }

  lemma RestrictAll(pairs: Pairs, keys: seq<string>)
    requires forall k :: k in pairs ==> k in keys
    ensures Restrict(pairs, {}) == map[] && Restrict(pairs, {} + (set k | k in keys)) == pairs
  {}

  /** After the line with the identifier, which is skipped, all written pairs are read. */
  lemma ReadMetaText(rules: Rules, zid: Zid, m: Meta, tail: string)
    requires Lawful(rules) && Normal(rules, m.pairs) && !Continues(tail)
    ensures ReadPairs(rules, Meta(map[], false), MetaText(rules, zid, m) + tail)
            == ReadOn(rules, Meta(Kept(rules, m.pairs), false), tail)
  {
    var keys, kept := AllKeys(m.pairs), Kept(rules, m.pairs);
    var lines := Lines(rules, m.pairs, keys);
    ComputedLines(rules, m.pairs);
    LinesContinue(rules, m.pairs, keys, tail);
    assert MetaText(rules, zid, m) + tail == PairLine((KEY_ID, Ids.String(zid))) + (lines + tail);
    ReadIdLine(rules, zid, lines + tail);
    AllKeysOnce(m.pairs);
    ReadKeys(rules, m.pairs, keys, {}, tail);
    RestrictAll(kept, keys);
  }

  lemma IdIgnored(rules: Rules, v: string)
    requires Lawful(rules)
    ensures Added(rules, map[], KEY_ID, v) == map[]
  {
    assert IsKeyChar('i') && IsLower(rules, 'i') && IsKeyChar('d') && IsLower(rules, 'd');
    LowerFixed(rules, KEY_ID);
  }

  lemma PlainRoundTrip(rules: Rules, zid: Zid, m: Meta, content: string)
    requires Lawful(rules) && Normal(rules, m.pairs)
    ensures ReadMeta(rules, MetaText(rules, zid, m) + "\n" + content) == (Meta(Kept(rules, m.pairs), false), content)
  {
    var plain, tail := MetaText(rules, zid, m), "\n" + content;
    assert plain + "\n" + content == plain + tail;
    assert plain[0] == 'i';
    ReadMetaText(rules, zid, m, tail);
    ReadBlankLine(rules, Meta(Kept(rules, m.pairs), false), content);
  }

  lemma ReadBlankLine(rules: Rules, m: Meta, content: string)
    ensures ReadOn(rules, m, "\n" + content) == (m, content)
  {
    var tail := "\n" + content;
    assert tail[1..] == content && DropSpace(tail) == tail;
  }

  lemma YamlRoundTrip(rules: Rules, zid: Zid, m: Meta, content: string)
    requires Lawful(rules) && Normal(rules, m.pairs)
    ensures ReadMeta(rules, YAML_SEP + MetaText(rules, zid, m) + YAML_SEP + content)
            == (Meta(Kept(rules, m.pairs), true), content)
  {
    var plain, tail := MetaText(rules, zid, m), YAML_SEP + content;
    assert YAML_SEP + plain + YAML_SEP + content == YAML_SEP + (plain + tail);
    YamlLine(plain + tail);
    YamlLine(content);
    KeyCharNotWhite('-');
    assert tail[0] == '-';
    ReadMetaText(rules, zid, m, tail);
  }

  /** A zettel file is read as it was written: all metadata but the properties, and the very content. */
  lemma RoundTrip(rules: Rules, zid: Zid, m: Meta, content: string)
    requires Lawful(rules) && Normal(rules, m.pairs)
    ensures ReadMeta(rules, ZettelText(rules, zid, m, content)) == (Meta(Kept(rules, m.pairs), m.yamlSep), content)
  {
    if m.yamlSep {
      YamlRoundTrip(rules, zid, m, content);
    } else {
      PlainRoundTrip(rules, zid, m, content);
      assert "" + MetaText(rules, zid, m) == MetaText(rules, zid, m);
    }
  }

  lemma YamlLine(s: string)
    ensures IsYaml(YAML_SEP + s) && EatEOL(DropLine(YAML_SEP + s)) == s
  {
    LinePrefix("---", s);
    assert YAML_SEP + s == "---" + "\n" + s;
    assert ("\n" + s)[1..] == s;
  }

  /** A metadata file, which has neither separator nor content, is read as it was written. */
  lemma MetaFileRoundTrip(rules: Rules, zid: Zid, m: Meta)
    requires Lawful(rules) && Normal(rules, m.pairs)
    ensures ReadMeta(rules, MetaText(rules, zid, m)) == (Meta(Kept(rules, m.pairs), false), "")
  {
    var s := MetaText(rules, zid, m);
    assert s + "" == s && s[0] == 'i';
    ReadMetaText(rules, zid, m, "");
  }

  // ---------- Whatever is read is in normal form ----------

  lemma {:induction false} LineIsOne(s: string)
    ensures OneLine(Line(s))
  {
    if s != "" && !IsEOL(s[0]) { LineIsOne(s[1..]); }
  }

  lemma {:induction false} ValueIsOneLine(s: string)
    ensures OneLine(Value(s))
    decreases |s|
  {
    LineIsOne(DropSpace(s));
    if Continues(NextLine(s)) { ValueIsOneLine(NextLine(s)); }
  }

  lemma {:induction false} ReadPairsNormal(rules: Rules, m: Meta, s: string)
    requires Lawful(rules) && Normal(rules, m.pairs)
    ensures Normal(rules, ReadPairs(rules, m, s).0.pairs)
    decreases |s|
  {
    var t := DropSpace(s);
    if t == "" || IsEOL(t[0]) {
    } else if t[0] == '%' {
      ReadPairsNormal(rules, m, EatEOL(DropLine(t)));
    } else {
      ValueIsOneLine(AfterKey(t));
      AddStaysNormal(rules, m.pairs, Key(t), Value(AfterKey(t)));
      ReadPairsNormal(rules, m.(pairs := Added(rules, m.pairs, Key(t), Value(AfterKey(t)))), DropHeader(t));
    }
  }

  lemma ReadMetaNormal(rules: Rules, s: string)
    requires Lawful(rules)
    ensures Normal(rules, ReadMeta(rules, s).0.pairs)
  {
    ReadPairsNormal(rules, Meta(map[], false), if IsYaml(s) then EatEOL(DropLine(s)) else s);
  }

  /** Any text at all that is read, written and read again gives the same content and the same pairs. */
  lemma RewriteStable(rules: Rules, zid: Zid, text: string)
    requires Lawful(rules)
    ensures var (m, content) := ReadMeta(rules, text);
            ReadMeta(rules, ZettelText(rules, zid, m, content)) == (Meta(Kept(rules, m.pairs), m.yamlSep), content)
  {
    var (m, content) := ReadMeta(rules, text);
    ReadMetaNormal(rules, text);
    RoundTrip(rules, zid, m, content);
  }
}
