/** The metadata of a zettel: keys, value types, and what is stored for a key and a value that are read. */
module Metas {
  import opened Text
  import Ids

  datatype Type = TypeTagSet | TypeWord | TypeID | TypeIDSet | TypeTimestamp | TypeOther

  datatype Usage = UserKey | ComputedKey | PropertyKey

  datatype KeyInfo = KeyInfo(typ: Type, usage: Usage)

  /**
   What the metadata code takes from elsewhere: the registered keys, how a letter is lower-cased, and
   which texts denote a time.
   */
  datatype Rules = Rules(registry: map<string, KeyInfo>, lower: char -> char, isTime: string -> bool)

  predicate IsLower(rules: Rules, c: char) {
    rules.lower(c) == c
  }

  /** Lower-casing is idempotent, and leaves keys and white space alone. */
  ghost predicate Lawful(rules: Rules) {
    && (forall c {:trigger IsLower(rules, rules.lower(c))} :: IsLower(rules, rules.lower(c)))
    && (forall c {:trigger IsKeyChar(c), IsLower(rules, c)} :: IsKeyChar(c) ==> IsLower(rules, c))
    && (forall c {:trigger IsWhite(rules.lower(c))} :: IsWhite(c) || IsWhite(rules.lower(c)) ==> IsLower(rules, c))
  }

  const KEY_ID := "id"
  const FIRST_KEYS := ["title", "role", "tags", "syntax"]

  predicate IsKeyChar(c: char) {
    'a' <= c <= 'z' || '0' <= c <= '9' || c == '-'
  }

  predicate KeyIsValid(key: string) {
    1 <= |key| <= 255 && key[0] != '-' && forall i :: 0 <= i < |key| ==> IsKeyChar(key[i])
  }

  predicate IsProperty(rules: Rules, key: string) {
    key in rules.registry && rules.registry[key].usage == PropertyKey
  }

  function TypeOf(rules: Rules, key: string): (t: Type) {
    if key in rules.registry then rules.registry[key].typ
    else if Ids.HasSuffix(key, "-date") || Ids.HasSuffix(key, "-time") then TypeTimestamp
    else if Ids.HasSuffix(key, "-role") then TypeWord
    else if Ids.HasSuffix(key, "-zettel") || Ids.HasSuffix(key, "-zid") then TypeID
    else if Ids.HasSuffix(key, "-zids") then TypeIDSet
    else TypeOther
  }

  // ---------- Values ----------

  predicate IsEOL(c: char) {
    c == '\n' || c == '\r'
  }

  /** White space within a line. */
  predicate IsSpace(c: char) {
    IsWhite(c) && !IsEOL(c)
  }

  /** Without white space at both ends. */
  function Trim(s: string): (r: string)
    decreases |s|
  {
    if s != "" && IsSpace(s[0]) then Trim(s[1..])
    else if s != "" && IsSpace(s[|s| - 1]) then Trim(s[..|s| - 1])
    else s
  }

  predicate Trimmed(s: string) {
    s == "" || (!IsSpace(s[0]) && !IsSpace(s[|s| - 1]))
  }

  predicate OneLine(s: string) {
    forall i :: 0 <= i < |s| ==> !IsEOL(s[i])
  }

  lemma {:induction false} TrimOfTrimmed(s: string)
    ensures Trimmed(s) ==> Trim(s) == s
    ensures Trimmed(Trim(s))
    ensures OneLine(s) ==> OneLine(Trim(s))
    decreases |s|
  {
    if s != "" && IsSpace(s[0]) {
      TrimOfTrimmed(s[1..]);
    } else if s != "" && IsSpace(s[|s| - 1]) {
      TrimOfTrimmed(s[..|s| - 1]);
    }
  }

  function Lower(rules: Rules, s: string): (r: string)
    ensures |r| == |s| && forall i :: 0 <= i < |s| ==> r[i] == rules.lower(s[i])
  {
    if s == "" then "" else [rules.lower(s[0])] + Lower(rules, s[1..])
  }

  // ---------- What is stored ----------

  predicate UseTag(word: string) {
    |word| > 1 && word[0] == '#'
  }

  predicate UseId(word: string) {
    Ids.Parse(word).Some?
  }

  function Elems(words: seq<string>, use: string -> bool): (r: set<string>) {
    set w | w in words && w != "" && use(w)
  }

  function TrimAll(words: seq<string>): (r: seq<string>) {
    if words == [] then [] else [Trim(words[0])] + TrimAll(words[1..])
  }

  function SetValue(elems: set<string>): (r: string) {
    Join(TrimAll(SortedTexts(elems)))
  }

  type Pairs = map<string, string>

  function Get(pairs: Pairs, key: string): (r: string) {
    if key in pairs then pairs[key] else ""
  }

  /** The new elements join the old ones; nothing happens without a usable new element. */
  function AddSet(pairs: Pairs, key: string, val: string, use: string -> bool): (r: Pairs) {
    var newElems := Elems(Fields(val), use);
    if newElems == {} then pairs else pairs[key := SetValue(newElems + Elems(Fields(Get(pairs, key)), use))]
  }

  function AddData(pairs: Pairs, key: string, val: string): (r: Pairs) {
    if Get(pairs, key) == "" then pairs[key := Trim(val)]
    else if val != "" then pairs[key := Trim(Get(pairs, key) + " " + val)]
    else pairs
  }

  function AddTyped(rules: Rules, typ: Type, pairs: Pairs, key: string, v: string): (r: Pairs) {
    match typ
    case TypeTagSet => AddSet(pairs, key, Lower(rules, v), UseTag)
    case TypeWord => pairs[key := Trim(Lower(rules, v))]
    case TypeID => if UseId(v) then pairs[key := Trim(v)] else pairs
    case TypeIDSet => AddSet(pairs, key, v, UseId)
    case TypeTimestamp => if rules.isTime(v) then pairs[key := Trim(v)] else pairs
    case TypeOther => AddData(pairs, key, v)
  }

  function Added(rules: Rules, pairs: Pairs, key: string, val: string): (r: Pairs) {
    var k := Lower(rules, key);
    if !KeyIsValid(k) || k == KEY_ID then pairs else AddTyped(rules, TypeOf(rules, k), pairs, k, Trim(val))
  }

  // ---------- Normal form ----------

  /** `v` lists, in order and separated by single blanks, what it is used for. */
  predicate NormalSet(v: string, use: string -> bool) {
    var elems := Elems(Fields(v), use);
    elems != {} && v == SetValue(elems)
  }

  predicate NormalValue(rules: Rules, typ: Type, v: string) {
    && Trimmed(v) && OneLine(v)
    && match typ
       case TypeTagSet => NormalSet(v, UseTag) && Lower(rules, v) == v
       case TypeWord => Lower(rules, v) == v
       case TypeID => UseId(v)
       case TypeIDSet => NormalSet(v, UseId)
       case TypeTimestamp => rules.isTime(v)
       case TypeOther => true
  }

  predicate NormalPair(rules: Rules, key: string, v: string) {
    KeyIsValid(key) && key != KEY_ID && NormalValue(rules, TypeOf(rules, key), v)
  }

  ghost predicate Normal(rules: Rules, pairs: Pairs) {
    forall k :: k in pairs ==> NormalPair(rules, k, pairs[k])
  }

  lemma AddNormalSet(pairs: Pairs, key: string, v: string, use: string -> bool)
    ensures NormalSet(v, use) && key !in pairs ==> AddSet(pairs, key, v, use) == pairs[key := v]
  {
    if key !in pairs {
      assert Fields(Get(pairs, key)) == [];
      assert Elems(Fields(v), use) + Elems([], use) == Elems(Fields(v), use);
    }
  }

  lemma AddTypedNormal(rules: Rules, typ: Type, pairs: Pairs, key: string, v: string)
    requires NormalValue(rules, typ, v) && key !in pairs
    ensures AddTyped(rules, typ, pairs, key, v) == pairs[key := v]
  {
    TrimOfTrimmed(v);
    AddNormalSet(pairs, key, v, UseTag);
    AddNormalSet(pairs, key, v, UseId);
  }

  /** A pair in normal form is stored as it is. */
  lemma AddNormal(rules: Rules, pairs: Pairs, key: string, v: string)
    requires Lawful(rules) && NormalPair(rules, key, v) && key !in pairs
    ensures Added(rules, pairs, key, v) == pairs[key := v]
  {
    LowerFixed(rules, key);
    TrimOfTrimmed(v);
    AddTypedNormal(rules, TypeOf(rules, key), pairs, key, v);
  }

  lemma LowerTwice(rules: Rules, s: string)
    requires Lawful(rules)
    ensures Lower(rules, Lower(rules, s)) == Lower(rules, s)
    ensures OneLine(s) ==> OneLine(Lower(rules, s))
    ensures Trimmed(s) ==> Trimmed(Lower(rules, s))
  {
    BlankIsWhite();
    var low := Lower(rules, s);
    forall i | 0 <= i < |s|
      ensures IsLower(rules, low[i]) && (IsSpace(low[i]) <==> IsSpace(s[i])) && (IsEOL(low[i]) <==> IsEOL(s[i]))
    {
      assert IsWhite(rules.lower(s[i])) || IsWhite(s[i]) ==> IsLower(rules, s[i]);
      assert IsLower(rules, rules.lower(s[i]));
    }
    LowerFixed(rules, low);
  }

  lemma {:induction false} TrimWords(words: seq<string>)
    requires forall w :: w in words ==> IsWord(w)
    ensures TrimAll(words) == words
  {
    if words != [] {
      assert words[0] in words;
      assert IsWord(words[0]) && Trimmed(words[0]);
      TrimOfTrimmed(words[0]);
      TrimWords(words[1..]);
      assert words == [words[0]] + words[1..];
    }
  }

  lemma {:induction false} JoinShape(words: seq<string>)
    requires forall w :: w in words ==> IsWord(w)
    ensures OneLine(Join(words)) && Trimmed(Join(words))
    ensures words != [] ==> Join(words) != "" && Join(words)[0] == words[0][0]
  {
    if words != [] {
      assert words[0] in words;
      if |words| > 1 {
        JoinShape(words[1..]);
        assert words[1] in words;
      }
    }
  }

  lemma SetValueFields(elems: set<string>)
    requires forall w :: w in elems ==> IsWord(w)
    ensures SetValue(elems) == Join(SortedTexts(elems)) && Fields(SetValue(elems)) == SortedTexts(elems)
  {
    var words := SortedTexts(elems);
    TrimWords(words);
    forall i | 0 <= i < |words| ensures IsWord(words[i]) {
      assert words[i] in words;
    }
    FieldsJoin(words);
  }

  /** A usable new element joins the usable old ones; without one, and under other keys, nothing changes. */
  lemma AddSetExact(pairs: Pairs, key: string, val: string, use: string -> bool)
    ensures var after, any := AddSet(pairs, key, val, use), exists w :: w in Fields(val) && use(w);
      && (forall k :: k in after <==> k in pairs || (k == key && any))
      && (forall k :: k in pairs && (k != key || !any) ==> after[k] == pairs[k])
      && (any ==> forall w :: w in Fields(after[key]) <==>
                              use(w) && (w in Fields(val) || (key in pairs && w in Fields(pairs[key]))))
  {
    var news, olds := Elems(Fields(val), use), Elems(Fields(Get(pairs, key)), use);
    FieldsAreWords(val, "");
    FieldsAreWords(Get(pairs, key), "");
    assert forall w :: w in news <==> w in Fields(val) && use(w);
    SetValueFields(news + olds);
  }

  /** The value of a set of words is in normal form, and has just these words. */
  lemma SetValueNormal(elems: set<string>, use: string -> bool)
    requires elems != {} && forall w :: w in elems ==> IsWord(w) && use(w)
    ensures NormalSet(SetValue(elems), use) && Elems(Fields(SetValue(elems)), use) == elems
    ensures Trimmed(SetValue(elems)) && OneLine(SetValue(elems))
  {
    SetValueFields(elems);
    JoinShape(SortedTexts(elems));
    assert Elems(SortedTexts(elems), use) == elems;
  }

  lemma {:induction false} LowerJoin(rules: Rules, words: seq<string>)
    requires Lawful(rules) && forall w :: w in words ==> Lower(rules, w) == w
    ensures Lower(rules, Join(words)) == Join(words)
  {
    if words != [] {
      assert words[0] in words;
      BlankIsWhite();
      if |words| > 1 {
        LowerJoin(rules, words[1..]);
        var a, b := words[0] + " ", Join(words[1..]);
        forall i | 0 <= i < |a + b| ensures IsLower(rules, (a + b)[i]) {
          assert IsWhite(rules.lower(' ')) || !IsWhite(rules.lower(' '));
          if i < |words[0]| { assert Lower(rules, words[0])[i] == (a + b)[i]; }
          if i > |words[0]| { assert Lower(rules, b)[i - |a|] == (a + b)[i]; }
        }
        assert Join(words) == a + b;
        LowerFixed(rules, a + b);
      }
    }
  }

  predicate LowerOnly(rules: Rules, s: string) {
    forall i :: 0 <= i < |s| ==> IsLower(rules, s[i])
  }

  lemma LowerFixed(rules: Rules, s: string)
    ensures Lower(rules, s) == s <==> LowerOnly(rules, s)
  {
    if Lower(rules, s) == s {
      forall i | 0 <= i < |s| ensures rules.lower(s[i]) == s[i] {
        assert Lower(rules, s)[i] == s[i];
      }
    }
  }

  lemma {:induction false} FieldsLower(rules: Rules, s: string, word: string)
    requires LowerOnly(rules, s) && LowerOnly(rules, word)
    ensures forall w :: w in FieldsFrom(s, word) ==> LowerOnly(rules, w)
  {
    if s != "" {
      FieldsLower(rules, s[1..], if IsWhite(s[0]) then "" else word + [s[0]]);
    }
  }

  // ---------- Whatever is stored is in normal form ----------

  lemma ElemsOf(rules: Rules, val: string, use: string -> bool)
    ensures forall w :: w in Elems(Fields(val), use) ==> IsWord(w) && use(w)
    ensures LowerOnly(rules, val) ==> forall w :: w in Elems(Fields(val), use) ==> LowerOnly(rules, w)
  {
    FieldsAreWords(val, "");
    if LowerOnly(rules, val) { FieldsLower(rules, val, ""); }
  }

  /** At most the value of `key` is new, and then it is in normal form. */
  ghost predicate Stored(rules: Rules, typ: Type, pairs: Pairs, key: string, after: Pairs) {
    after == pairs || (key in after && after == pairs[key := after[key]] && NormalValue(rules, typ, after[key]))
  }

  lemma AddTagsNormal(rules: Rules, pairs: Pairs, key: string, val: string)
    requires Lawful(rules) && LowerOnly(rules, val) && LowerOnly(rules, Get(pairs, key))
    ensures Stored(rules, TypeTagSet, pairs, key, AddSet(pairs, key, val, UseTag))
  {
    var was := Get(pairs, key);
    ElemsOf(rules, val, UseTag);
    ElemsOf(rules, was, UseTag);
    var elems := Elems(Fields(val), UseTag) + Elems(Fields(was), UseTag);
    if AddSet(pairs, key, val, UseTag) != pairs {
      SetValueNormal(elems, UseTag);
      SetValueLower(rules, elems);
      assert AddSet(pairs, key, val, UseTag) == pairs[key := SetValue(elems)];
    }
  }

  lemma AddIdsNormal(rules: Rules, pairs: Pairs, key: string, val: string)
    ensures Stored(rules, TypeIDSet, pairs, key, AddSet(pairs, key, val, UseId))
  {
    var was := Get(pairs, key);
    ElemsOf(rules, val, UseId);
    ElemsOf(rules, was, UseId);
    var elems := Elems(Fields(val), UseId) + Elems(Fields(was), UseId);
    if AddSet(pairs, key, val, UseId) != pairs {
      SetValueNormal(elems, UseId);
      assert AddSet(pairs, key, val, UseId) == pairs[key := SetValue(elems)];
    }
  }

  lemma SetValueLower(rules: Rules, elems: set<string>)
    requires Lawful(rules) && forall w :: w in elems ==> IsWord(w) && LowerOnly(rules, w)
    ensures Lower(rules, SetValue(elems)) == SetValue(elems)
  {
    SetValueFields(elems);
    forall w | w in elems ensures Lower(rules, w) == w {
      LowerFixed(rules, w);
    }
    LowerJoin(rules, SortedTexts(elems));
  }

  lemma AddDataNormal(rules: Rules, pairs: Pairs, key: string, v: string)
    requires Trimmed(v) && OneLine(v) && Trimmed(Get(pairs, key)) && OneLine(Get(pairs, key))
    ensures Stored(rules, TypeOther, pairs, key, AddData(pairs, key, v))
  {
    var was := Get(pairs, key);
    var both := was + " " + v;
    TrimOfTrimmed(v);
    if was != "" && v != "" {
      assert both[0] == was[0] && both[|both| - 1] == v[|v| - 1];
      TrimOfTrimmed(both);
    }
  }

  lemma AddPlainNormal(rules: Rules, typ: Type, pairs: Pairs, key: string, v: string)
    requires Lawful(rules) && Trimmed(v) && OneLine(v) && typ in {TypeWord, TypeID, TypeTimestamp}
    ensures Stored(rules, typ, pairs, key, AddTyped(rules, typ, pairs, key, v))
  {
    TrimOfTrimmed(v);
    LowerTwice(rules, v);
    TrimOfTrimmed(Lower(rules, v));
  }

  lemma AddTypedStaysNormal(rules: Rules, typ: Type, pairs: Pairs, key: string, v: string)
    requires Lawful(rules) && Trimmed(v) && OneLine(v) && (key in pairs ==> NormalValue(rules, typ, pairs[key]))
    ensures Stored(rules, typ, pairs, key, AddTyped(rules, typ, pairs, key, v))
  {
    if typ == TypeTagSet {
      LowerTwice(rules, v);
      LowerFixed(rules, Get(pairs, key));
      LowerFixed(rules, Lower(rules, v));
      AddTagsNormal(rules, pairs, key, Lower(rules, v));
    } else if typ == TypeIDSet {
      AddIdsNormal(rules, pairs, key, v);
    } else if typ == TypeOther {
      AddDataNormal(rules, pairs, key, v);
    } else {
      AddPlainNormal(rules, typ, pairs, key, v);
    }
  }

  /** Whatever key and one-line value are added, metadata in normal form stays so. */
  lemma AddStaysNormal(rules: Rules, pairs: Pairs, key: string, val: string)
    requires Lawful(rules) && Normal(rules, pairs) && OneLine(val)
    ensures Normal(rules, Added(rules, pairs, key, val))
  {
    var k := Lower(rules, key);
    TrimOfTrimmed(val);
    if KeyIsValid(k) && k != KEY_ID {
      assert k in pairs ==> NormalPair(rules, k, pairs[k]);
      AddTypedStaysNormal(rules, TypeOf(rules, k), pairs, k, Trim(val));
    }
  }
}
