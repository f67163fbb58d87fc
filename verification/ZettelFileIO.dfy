/** Reading and writing zettel files step by step: a cursor over the text, and a writer that may fail. */
module ZettelFileIO {
  import opened Text
  import opened Zids
  import Ids
  import Metas
  import ZettelFiles

  type Rules = Metas.Rules

  /** Metadata that is filled pair by pair. */
  class Meta {
    const zid: Zid
    var pairs: Metas.Pairs
    var yamlSep: bool

    constructor (zid: Zid)
      ensures this.zid == zid && pairs == map[] && !yamlSep
    {
      this.zid, pairs, yamlSep := zid, map[], false;
    }

    ghost function Value(): (m: ZettelFiles.Meta)
      reads this
    {
      ZettelFiles.Meta(pairs, yamlSep)
    }

    method Set(key: string, value: string)
      modifies this`pairs
      ensures pairs == if key != Metas.KEY_ID then old(pairs)[key := Metas.Trim(value)] else old(pairs)
    {
      if key != Metas.KEY_ID { pairs := pairs[key := Metas.Trim(value)]; }
    }

    method SetList(key: string, values: seq<string>)
      requires key != Metas.KEY_ID
      modifies this`pairs
      ensures pairs == old(pairs)[key := Join(Metas.TrimAll(values))]
    {
      var trimmed: seq<string> := [];
      for i := 0 to |values|
        invariant trimmed + Metas.TrimAll(values[i..]) == Metas.TrimAll(values)
      {
        trimmed := trimmed + [Metas.Trim(values[i])];
      }
      assert trimmed + [] == trimmed;
      pairs := pairs[key := Join(trimmed)];
    }

    method AddSet(key: string, val: string, use: string -> bool)
      requires key != Metas.KEY_ID
      modifies this`pairs
      ensures pairs == Metas.AddSet(old(pairs), key, val, use)
      ensures if exists w :: w in Fields(val) && use(w) then
                && pairs.Keys == old(pairs).Keys + {key} && pairs == old(pairs)[key := pairs[key]]
                && forall w :: w in Fields(pairs[key]) <==>
                     use(w) && (w in Fields(val) || (key in old(pairs) && w in Fields(old(pairs)[key])))
              else pairs == old(pairs)
    {
      Metas.AddSetExact(pairs, key, val, use);
      var elems := AddToSet({}, Fields(val), use);
      if elems == {} { return; }
      if key in pairs {
        elems := AddToSet(elems, Fields(pairs[key]), use);
      }
      SetList(key, SortedTexts(elems));
      assert elems == Metas.Elems(Fields(val), use) + Metas.Elems(Fields(Metas.Get(old(pairs), key)), use);
    }

    method AddData(key: string, val: string)
      requires key != Metas.KEY_ID
      modifies this`pairs
      ensures pairs == Metas.AddData(old(pairs), key, val)
    {
      if key !in pairs || pairs[key] == "" {
        Set(key, val);
      } else if val != "" {
        Set(key, pairs[key] + " " + val);
      }
    }

    method AddToMeta(rules: Rules, key: string, val: string)
      modifies this`pairs
      ensures pairs == Metas.Added(rules, old(pairs), key, val)
    {
      var v := Metas.Trim(val);
      var k := Metas.Lower(rules, key);
      if !Metas.KeyIsValid(k) || k == Metas.KEY_ID { return; }
      match Metas.TypeOf(rules, k)
      case TypeTagSet => AddSet(k, Metas.Lower(rules, v), Metas.UseTag);
      case TypeWord => Set(k, Metas.Lower(rules, v));
      case TypeID => if Ids.Parse(v).Some? { Set(k, v); }
      case TypeIDSet => AddSet(k, v, Metas.UseId);
      case TypeTimestamp => if rules.isTime(v) { Set(k, v); }
      case TypeOther => AddData(k, v);
    }
  }

  method AddToSet(elems: set<string>, words: seq<string>, use: string -> bool) returns (r: set<string>)
    ensures r == elems + Metas.Elems(words, use)
  {
    r := elems;
    for i := 0 to |words|
      invariant r == elems + Metas.Elems(words[..i], use)
    {
      assert words[..i + 1] == words[..i] + [words[i]];
      if |words[i]| > 0 && use(words[i]) { r := r + {words[i]}; }
    }
    assert words[..|words|] == words;
  }

  // ---------- Reading ----------

  /** The continuation lines of a value, each after a blank. */
  ghost function Tail(s: string): (r: string) {
    if ZettelFiles.Continues(s) then " " + ZettelFiles.Value(s) else ""
  }

  ghost function DropTail(s: string): (r: string) {
    if ZettelFiles.Continues(s) then ZettelFiles.DropValue(s) else s
  }

  lemma ValueTail(s: string)
    ensures ZettelFiles.Value(s) == ZettelFiles.Line(ZettelFiles.DropSpace(s)) + Tail(ZettelFiles.NextLine(s))
    ensures ZettelFiles.DropValue(s) == DropTail(ZettelFiles.NextLine(s))
  {
    var line, rest := ZettelFiles.Line(ZettelFiles.DropSpace(s)), ZettelFiles.NextLine(s);
    if ZettelFiles.Continues(rest) {
      assert line + " " + ZettelFiles.Value(rest) == line + (" " + ZettelFiles.Value(rest));
    } else {
      assert line + "" == line;
    }
  }

  lemma TailStep(val: string, s: string)
    requires ZettelFiles.Continues(s)
    ensures val + Tail(s) == val + " " + ZettelFiles.Line(ZettelFiles.DropSpace(s)) + Tail(ZettelFiles.NextLine(s))
    ensures DropTail(s) == DropTail(ZettelFiles.NextLine(s))
  {
    ValueTail(s);
    Regroup(val, ZettelFiles.Line(ZettelFiles.DropSpace(s)), Tail(ZettelFiles.NextLine(s)));
  }

  lemma Regroup(val: string, line: string, rest: string)
    ensures val + (" " + (line + rest)) == val + " " + line + rest
  {}

  lemma KeyStep(read: string, s: string)
    requires s != "" && ZettelFiles.IsHeader(s[0])
    ensures read + ZettelFiles.Key(s) == read + [s[0]] + ZettelFiles.Key(s[1..])
    ensures ZettelFiles.DropKey(s) == ZettelFiles.DropKey(s[1..])
  {
    assert read + ([s[0]] + ZettelFiles.Key(s[1..])) == read + [s[0]] + ZettelFiles.Key(s[1..]);
  }

  /** A cursor over a text. */
  class Input {
    const src: string
    var pos: nat

    ghost predicate Valid()
      reads this
    {
      pos <= |src|
    }

    /** What is still to be read. */
    ghost function Rest(): (s: string)
      reads this
      requires Valid()
    {
      src[pos..]
    }

    constructor (src: string)
      ensures Valid() && this.src == src && Rest() == src
    {
      this.src, pos := src, 0;
    }

    predicate IsSpace()
      reads this
      requires Valid()
      ensures IsSpace() == ZettelFiles.Continues(Rest())
    {
      pos < |src| && Metas.IsSpace(src[pos])
    }

    predicate AtYamlSep()
      reads this
      requires Valid()
      ensures AtYamlSep() == ZettelFiles.IsYaml(Rest())
    {
      pos + 2 < |src| && src[pos] == '-' && src[pos + 1] == '-' && src[pos + 2] == '-'
    }

    method SkipSpace()
      requires Valid()
      modifies this
      ensures Valid() && Rest() == ZettelFiles.DropSpace(old(Rest())) && old(pos) <= pos
    {
      while IsSpace()
        invariant old(pos) <= pos && Valid()
        invariant ZettelFiles.DropSpace(Rest()) == ZettelFiles.DropSpace(old(Rest()))
        decreases |src| - pos
      {
        assert Rest()[1..] == src[pos + 1..];
        pos := pos + 1;
      }
    }

    method SkipToEOL() returns (line: string)
      requires Valid()
      modifies this
      ensures Valid() && old(pos) <= pos && line == ZettelFiles.Line(old(Rest()))
      ensures Rest() == ZettelFiles.DropLine(old(Rest()))
    {
      var start := pos;
      while pos < |src| && !Metas.IsEOL(src[pos])
        invariant start <= pos && Valid()
        invariant ZettelFiles.DropLine(Rest()) == ZettelFiles.DropLine(src[start..])
        invariant src[start..pos] + ZettelFiles.Line(Rest()) == ZettelFiles.Line(src[start..])
        decreases |src| - pos
      {
        assert Rest()[1..] == src[pos + 1..];
        assert src[start..pos + 1] == src[start..pos] + [src[pos]];
        pos := pos + 1;
      }
      line := src[start..pos];
      assert line + "" == line;
    }

    method EatEOL()
      requires Valid()
      modifies this
      ensures Valid() && Rest() == ZettelFiles.EatEOL(old(Rest())) && old(pos) <= pos
    {
      if pos < |src| {
        if src[pos] == '\r' && pos + 1 < |src| && src[pos + 1] == '\n' {
          pos := pos + 2;
        } else if Metas.IsEOL(src[pos]) {
          pos := pos + 1;
        }
      }
    }

    method ReadKey() returns (key: string)
      requires Valid()
      modifies this
      ensures Valid() && old(pos) <= pos && key == ZettelFiles.Key(old(Rest()))
      ensures Rest() == ZettelFiles.DropKey(old(Rest()))
    {
      var start := pos;
      ghost var s := Rest();
      while pos < |src| && ZettelFiles.IsHeader(src[pos])
        invariant start <= pos && Valid()
        invariant ZettelFiles.DropKey(Rest()) == ZettelFiles.DropKey(s)
        invariant src[start..pos] + ZettelFiles.Key(Rest()) == ZettelFiles.Key(s)
        decreases |src| - pos
      {
        KeyStep(src[start..pos], Rest());
        assert Rest()[1..] == src[pos + 1..];
        assert src[start..pos + 1] == src[start..pos] + [src[pos]];
        pos := pos + 1;
      }
      key := src[start..pos];
      assert key + "" == key;
    }

    method ReadValue() returns (val: string)
      requires Valid()
      modifies this
      ensures Valid() && val == ZettelFiles.Value(old(Rest())) && Rest() == ZettelFiles.DropValue(old(Rest()))
    {
      val := ReadFirstLine();
      while IsSpace()
        invariant Valid()
        invariant val + Tail(Rest()) == ZettelFiles.Value(old(Rest()))
        invariant DropTail(Rest()) == ZettelFiles.DropValue(old(Rest()))
        decreases |src| - pos
      {
        TailStep(val, Rest());
        var line := ReadFirstLine();
        val := val + " " + line;
      }
      assert val + "" == val;
    }

    /** The text of one line, without the white space before it. */
    method ReadFirstLine() returns (line: string)
      requires Valid()
      modifies this
      ensures Valid() && line == ZettelFiles.Line(ZettelFiles.DropSpace(old(Rest())))
      ensures Rest() == ZettelFiles.NextLine(old(Rest())) && old(pos) <= pos && (old(pos) < |src| ==> old(pos) < pos)
    {
      SkipSpace();
      line := SkipToEOL();
      EatEOL();
      assert |Rest()| == |src| - pos;
    }

    method ParseHeader(rules: Rules, m: Meta)
      requires Valid() && Rest() != "" && !Metas.IsSpace(Rest()[0]) && !Metas.IsEOL(Rest()[0])
      modifies this, m`pairs
      ensures Valid() && Rest() == ZettelFiles.DropHeader(old(Rest()))
      ensures m.pairs == Metas.Added(rules, old(m.pairs), ZettelFiles.Key(old(Rest())),
                                     ZettelFiles.Value(ZettelFiles.AfterKey(old(Rest()))))
    {
      var key := ReadKey();
      SkipSpace();
      if pos < |src| && src[pos] == ':' {
        assert Rest()[1..] == src[pos + 1..];
        pos := pos + 1;
      }
      assert Rest() == ZettelFiles.AfterKey(old(Rest()));
      var val := ReadValue();
      m.AddToMeta(rules, key, val);
    }
  }

  method NewFromInput(rules: Rules, zid: Zid, inp: Input) returns (m: Meta)
    requires inp.Valid()
    modifies inp
    ensures inp.Valid() && fresh(m) && (m.Value(), inp.Rest()) == ZettelFiles.ReadMeta(rules, old(inp.Rest()))
  {
    if inp.AtYamlSep() {
      var _ := inp.SkipToEOL();
      inp.EatEOL();
    }
    m := new Meta(zid);
    ParsePairs(rules, m, inp);
  }

  method ParsePairs(rules: Rules, m: Meta, inp: Input)
    requires inp.Valid()
    modifies inp, m
    ensures inp.Valid() && (m.Value(), inp.Rest()) == ZettelFiles.ReadPairs(rules, old(m.Value()), old(inp.Rest()))
  {
    while true
      invariant inp.Valid()
      invariant ZettelFiles.ReadPairs(rules, m.Value(), inp.Rest())
                == ZettelFiles.ReadPairs(rules, old(m.Value()), old(inp.Rest()))
      decreases |inp.src| - inp.pos
    {
      inp.SkipSpace();
      if inp.pos == |inp.src| { return; }
      if Metas.IsEOL(inp.src[inp.pos]) {
        inp.EatEOL();
        return;
      }
      if inp.src[inp.pos] == '%' {
        var _ := inp.SkipToEOL();
        inp.EatEOL();
      } else {
        inp.ParseHeader(rules, m);
        if inp.AtYamlSep() {
          var _ := inp.SkipToEOL();
          inp.EatEOL();
          m.yamlSep := true;
          return;
        }
      }
    }
  }

  method ParseMetaContentFile(rules: Rules, zid: Zid, src: string) returns (m: Meta, content: string)
    ensures fresh(m) && (m.Value(), content) == ZettelFiles.ReadMeta(rules, src)
  {
    var inp := new Input(src);
    m := NewFromInput(rules, zid, inp);
    content := src[inp.pos..];
  }

  // ---------- Writing ----------

  /** A destination for `room` more characters. */
  class Writer {
    var data: string
    var room: nat

    constructor (room: nat)
      ensures data == "" && this.room == room
    {
      data, this.room := "", room;
    }

    /** Writes as much as there is room for; it is an error if something is left. */
    method Write(s: string) returns (length: nat, ok: bool)
      modifies this
      ensures Wrote(old(data), old(room), s, length, ok, data, room)
    {
      length := if |s| <= room then |s| else room;
      data, room := data + s[..length], room - length;
      ok := length == |s|;
    }
  }

  /** Of `s` just what there was room for has been written, and this is what was reported. */
  ghost predicate Wrote(data: string, room: nat, s: string, length: nat, ok: bool, data': string, room': nat) {
    && length == (if |s| <= room then |s| else room)
    && data' == data + s[..length] && room' == room - length
    && (ok <==> |s| <= room)
  }

  lemma WroteMore(data: string, room: nat, a: string, n: nat, data': string, room': nat, b: string, k: nat, ok: bool,
                  data'': string, room'': nat)
    requires Wrote(data, room, a, n, true, data', room') && Wrote(data', room', b, k, ok, data'', room'')
    ensures Wrote(data, room, a + b, n + k, ok, data'', room'')
  {
    assert (a + b)[..n + k] == a + b[..k];
    assert a[..n] == a;
    assert data + a + b[..k] == data + (a + b[..k]);
  }

  lemma WroteNoMore(data: string, room: nat, a: string, n: nat, data': string, room': nat, b: string)
    requires Wrote(data, room, a, n, false, data', room')
    ensures Wrote(data, room, a + b, n, false, data', room')
  {
    assert (a + b)[..n] == a[..n];
  }

  method GetFirstKeys(pairs: Metas.Pairs) returns (r: seq<ZettelFiles.Pair>)
    ensures r == ZettelFiles.PairsOf(pairs, Metas.FIRST_KEYS)
  {
    r := AppendPairs(pairs, [], Metas.FIRST_KEYS);
    assert [] + ZettelFiles.PairsOf(pairs, Metas.FIRST_KEYS) == ZettelFiles.PairsOf(pairs, Metas.FIRST_KEYS);
  }

  method AppendPairs(pairs: Metas.Pairs, first: seq<ZettelFiles.Pair>, keys: seq<string>)
    returns (r: seq<ZettelFiles.Pair>)
    ensures r == first + ZettelFiles.PairsOf(pairs, keys)
  {
    r := first;
    for i := 0 to |keys|
      invariant r + ZettelFiles.PairsOf(pairs, keys[i..]) == first + ZettelFiles.PairsOf(pairs, keys)
    {
      assert keys[i..][1..] == keys[i + 1..];
      if keys[i] in pairs { r := r + [(keys[i], pairs[keys[i]])]; }
    }
    assert r + [] == r;
  }

  /** The keys that are not among the first ones, sorted. */
  method GetKeysRest(pairs: Metas.Pairs) returns (keys: seq<string>)
    ensures keys == SortedTexts(pairs.Keys - (set k | k in Metas.FIRST_KEYS))
  {
    var todo, rest := pairs.Keys, {};
    while todo != {}
      invariant todo <= pairs.Keys
      invariant rest == (pairs.Keys - todo) - (set k | k in Metas.FIRST_KEYS)
    {
      var k :| k in todo;
      todo := todo - {k};
      if k !in Metas.FIRST_KEYS { rest := rest + {k}; }
    }
    assert rest == pairs.Keys - (set k | k in Metas.FIRST_KEYS);
    keys := SortedTexts(rest);
  }

  method ComputedPairs(pairs: Metas.Pairs) returns (r: seq<ZettelFiles.Pair>)
    ensures r == ZettelFiles.ComputedPairs(pairs)
  {
    var first := GetFirstKeys(pairs);
    var keys := GetKeysRest(pairs);
    r := AppendPairs(pairs, first, keys);
  }

  /** The next piece of an output, unless there was an error before. */
  method WriteMore(w: Writer, ghost data: string, ghost room: nat, ghost done: string, length: nat, ok: bool, s: string)
    returns (length': nat, ok': bool)
    requires Wrote(data, room, done, length, ok, w.data, w.room)
    modifies w
    ensures Wrote(data, room, done + s, length', ok', w.data, w.room)
  {
    length', ok' := length, ok;
    if ok {
      var l;
      l, ok' := w.Write(s);
      length' := length + l;
      WroteMore(data, room, done, length, old(w.data), old(w.room), s, l, ok', w.data, w.room);
    } else {
      WroteNoMore(data, room, done, length, w.data, w.room, s);
    }
  }

  method WritePair(w: Writer, p: ZettelFiles.Pair) returns (length: nat, ok: bool)
    modifies w
    ensures Wrote(old(w.data), old(w.room), ZettelFiles.PairLine(p), length, ok, w.data, w.room)
  {
    length, ok := w.Write(p.0);
    length, ok := WriteMore(w, old(w.data), old(w.room), p.0, length, ok, ": ");
    length, ok := WriteMore(w, old(w.data), old(w.room), p.0 + ": ", length, ok, p.1);
    length, ok := WriteMore(w, old(w.data), old(w.room), p.0 + ": " + p.1, length, ok, "\n");
  }

  /** Writes all pairs but the properties, as far as the writer has room for them. */
  method WriteComputed(rules: Rules, m: Meta, w: Writer) returns (length: nat, ok: bool)
    modifies w
    ensures Wrote(old(w.data), old(w.room), PairsText(rules, m.pairs), length, ok, w.data, w.room)
  {
    var ps := ComputedPairs(m.pairs);
    length, ok := 0, true;
    ghost var done := "";
    ghost var text := PairsText(rules, m.pairs);
    assert ps[0..] == ps;
    for i := 0 to |ps|
      invariant Wrote(old(w.data), old(w.room), done, length, ok, w.data, w.room)
      invariant done + ZettelFiles.PairLines(ZettelFiles.Stored(rules, ps[i..])) == text
    {
      StoredRest(rules, done, ps, i);
      if Metas.IsProperty(rules, ps[i].0) { continue; }
      if !ok {
        WroteNoMore(old(w.data), old(w.room), done, length, w.data, w.room,
            ZettelFiles.PairLines(ZettelFiles.Stored(rules, ps[i..])));
        return;
      }
      length, ok := WriteLater(w, old(w.data), old(w.room), done, length, ps[i]);
      done := done + ZettelFiles.PairLine(ps[i]);
    }
    assert done + "" == done;
  }

  ghost function PairsText(rules: Rules, pairs: Metas.Pairs): (r: string) {
    ZettelFiles.PairLines(ZettelFiles.Stored(rules, ZettelFiles.ComputedPairs(pairs)))
  }

  lemma StoredRest(rules: Rules, done: string, ps: seq<ZettelFiles.Pair>, i: nat)
    requires i < |ps|
    ensures done + ZettelFiles.PairLines(ZettelFiles.Stored(rules, ps[i..])) ==
            (if Metas.IsProperty(rules, ps[i].0) then done else done + ZettelFiles.PairLine(ps[i]))
            + ZettelFiles.PairLines(ZettelFiles.Stored(rules, ps[i + 1..]))
  {
    assert ps[i..][1..] == ps[i + 1..];
    var rest := ZettelFiles.Stored(rules, ps[i + 1..]);
    assert ([ps[i]] + rest)[1..] == rest && [] + rest == rest;
  }

  method WriteLater(w: Writer, ghost data: string, ghost room: nat, ghost done: string, length: nat,
                    p: ZettelFiles.Pair)
    returns (length': nat, ok: bool)
    requires Wrote(data, room, done, length, true, w.data, w.room)
    modifies w
    ensures Wrote(data, room, done + ZettelFiles.PairLine(p), length', ok, w.data, w.room)
  {
    var l;
    l, ok := WritePair(w, p);
    length' := length + l;
    WroteMore(data, room, done, length, old(w.data), old(w.room), ZettelFiles.PairLine(p), l, ok, w.data, w.room);
  }

  method WriteFileZid(w: Writer, zid: Zid) returns (length: nat, ok: bool)
    modifies w
    ensures Wrote(old(w.data), old(w.room), ZettelFiles.PairLine((Metas.KEY_ID, Ids.String(zid))), length, ok, w.data,
            w.room)
  {
    var id := Ids.String(zid);
    length, ok := w.Write("id: ");
    length, ok := WriteMore(w, old(w.data), old(w.room), "id: ", length, ok, id);
    length, ok := WriteMore(w, old(w.data), old(w.room), "id: " + id, length, ok, "\n");
    assert "id" + ": " == "id: ";
  }

  method WriteMetaText(rules: Rules, m: Meta, w: Writer) returns (length: nat, ok: bool)
    modifies w
    ensures Wrote(old(w.data), old(w.room), ZettelFiles.MetaText(rules, m.zid, m.Value()), length, ok, w.data, w.room)
  {
    ghost var idLine := ZettelFiles.PairLine((Metas.KEY_ID, Ids.String(m.zid)));
    length, ok := WriteFileZid(w, m.zid);
    if !ok {
      WroteNoMore(old(w.data), old(w.room), idLine, length, w.data, w.room, PairsText(rules, m.pairs));
      return;
    }
    length, ok := WritePairsLater(rules, m, w, old(w.data), old(w.room), idLine, length);
  }

  method WritePairsLater(rules: Rules, m: Meta, w: Writer, ghost data: string, ghost room: nat, ghost done: string,
                         length: nat)
    returns (length': nat, ok: bool)
    requires Wrote(data, room, done, length, true, w.data, w.room)
    modifies w
    ensures Wrote(data, room, done + PairsText(rules, m.pairs), length', ok, w.data, w.room)
  {
    var l;
    l, ok := WriteComputed(rules, m, w);
    length' := length + l;
    WroteMore(data, room, done, length, old(w.data), old(w.room), PairsText(rules, m.pairs), l, ok, w.data, w.room);
  }

  method WriteMetaLater(rules: Rules, m: Meta, w: Writer, ghost data: string, ghost room: nat, ghost done: string,
                        length: nat, ok: bool)
    returns (length': nat, ok': bool)
    requires Wrote(data, room, done, length, ok, w.data, w.room)
    modifies w
    ensures Wrote(data, room, done + ZettelFiles.MetaText(rules, m.zid, m.Value()), length', ok', w.data, w.room)
  {
    length', ok' := length, ok;
    ghost var text := ZettelFiles.MetaText(rules, m.zid, m.Value());
    if ok {
      var l;
      l, ok' := WriteMetaText(rules, m, w);
      length' := length + l;
      WroteMore(data, room, done, length, old(w.data), old(w.room), text, l, ok', w.data, w.room);
    } else {
      WroteNoMore(data, room, done, length, w.data, w.room, text);
    }
  }

  /** Writes a zettel file; after an error nothing more is written. */
  method WriteZettelFile(rules: Rules, m: Meta, content: string, w: Writer) returns (length: nat, ok: bool)
    modifies w
    ensures Wrote(old(w.data), old(w.room), ZettelFiles.ZettelText(rules, m.zid, m.Value(), content), length, ok,
            w.data, w.room)
  {
    ghost var data, room := w.data, w.room;
    var start := if m.yamlSep then ZettelFiles.YAML_SEP else "";
    var end := if m.yamlSep then ZettelFiles.YAML_SEP else "\n";
    length, ok := w.Write(start);
    length, ok := WriteMetaLater(rules, m, w, data, room, start, length, ok);
    ghost var done := start + ZettelFiles.MetaText(rules, m.zid, m.Value());
    length, ok := WriteMore(w, data, room, done, length, ok, end);
    length, ok := WriteMore(w, data, room, done + end, length, ok, content);
  }

  /** A file that was written without an error is read with the same content and the same kept pairs. */
  method WriteThenRead(rules: Rules, m: Meta, content: string, w: Writer)
    returns (ok: bool, again: Meta, contentAgain: string)
    requires Metas.Lawful(rules) && Metas.Normal(rules, m.pairs) && w.data == ""
    modifies w
    ensures fresh(again)
    ensures ok <==> |ZettelFiles.ZettelText(rules, m.zid, m.Value(), content)| <= old(w.room)
    ensures ok ==> contentAgain == content && again.yamlSep == m.yamlSep
    ensures ok ==> again.pairs == ZettelFiles.Kept(rules, m.pairs)
  {
    var length;
    length, ok := WriteZettelFile(rules, m, content, w);
    again, contentAgain := ParseMetaContentFile(rules, m.zid, w.data);
    ZettelFiles.RoundTrip(rules, m.zid, m.Value(), content);
    ghost var text := ZettelFiles.ZettelText(rules, m.zid, m.Value(), content);
    assert ok ==> "" + text[..length] == text;
  }
}
