/** Literal text in Zettelmarkup: how it is escaped when written, and how it is read again. */
module Literals {
  import opened Text

  /** The characters that end a stretch of plain text, and may start something else. */
  const SPECIAL := "\n\r[]{}()|%_*>~^,\"#:'@`\U{02CB}$=\\-&"

  predicate HasChar(s: string, c: char)
    decreases |s|, c
  {
    s != "" && (s[0] == c || HasChar(s[1..], c))
  }

  lemma {:induction false} HasCharAt(s: string, i: nat)
    requires i < |s|
    ensures HasChar(s, s[i])
    decreases i
  {
    if i > 0 { HasCharAt(s[1..], i - 1); }
  }

  predicate IsSpecial(c: char) {
    HasChar(SPECIAL, c)
  }

  /** The characters that, when doubled, enclose the literal text the encoder writes. */
  predicate IsCode(c: char) {
    c == '@' || c == '`' || c == '\'' || c == '='
  }

  /** Both the characters that enclose literal text and the escape character end plain text. */
  lemma CodesAreSpecial(c: char)
    requires IsCode(c) || c == '\\'
    ensures IsSpecial(c)
  {
    assert SPECIAL[19] == '\'' && SPECIAL[20] == '@' && SPECIAL[21] == '`' && SPECIAL[24] == '=' && SPECIAL[25] == '\\';
    HasCharAt(SPECIAL,
              if c == '\'' then 19 else if c == '@' then 20 else if c == '`' then 21 else if c == '=' then 24 else 25);
  }

  // ---------- Writing ----------

  function Escape(s: string, code: char): (r: string) {
    if s == "" then ""
    else (if s[0] == code || s[0] == '\\' then ['\\', s[0]] else [s[0]]) + Escape(s[1..], code)
  }

  function LiteralText(content: string, code: char): (r: string) {
    [code, code] + Escape(content, code) + [code, code]
  }

  method WriteEscaped(s: string, toEscape: char) returns (out: string)
    ensures out == Escape(s, toEscape)
  {
    out := "";
    var last := 0;
    for i := 0 to |s|
      invariant last <= i
      invariant forall k :: last <= k < i ==> s[k] != toEscape && s[k] != '\\'
      invariant out + Escape(s[last..], toEscape) == Escape(s, toEscape)
    {
      var b := s[i];
      if b == toEscape || b == '\\' {
        EscapeStep(out, s, last, i, toEscape);
        out := out + s[last..i];
        out := out + ['\\', b];
        last := i + 1;
      }
    }
    PlainEnd(s[last..], toEscape);
    out := out + s[last..];
  }

  lemma PlainEnd(s: string, code: char)
    requires forall k :: 0 <= k < |s| ==> s[k] != code && s[k] != '\\'
    ensures Escape(s, code) == s
  {
    PlainStretch(s, code, |s|);
    assert s[..|s|] == s && s + "" == s;
  }

  lemma EscapeStep(out: string, s: string, last: nat, i: nat, code: char)
    requires last <= i < |s| && (forall k :: last <= k < i ==> s[k] != code && s[k] != '\\')
    requires s[i] == code || s[i] == '\\'
    ensures out + Escape(s[last..], code) == out + s[last..i] + ['\\', s[i]] + Escape(s[i + 1..], code)
  {
    PlainStretch(s[last..], code, i - last);
    assert s[last..][..i - last] == s[last..i] && s[last..][i - last..] == s[i..] && s[i..][1..] == s[i + 1..];
    var rest := Escape(s[i + 1..], code);
    assert out + (s[last..i] + (['\\', s[i]] + rest)) == out + s[last..i] + ['\\', s[i]] + rest;
  }

  /** Plain characters are not changed by escaping. */
  lemma {:induction false} PlainStretch(s: string, code: char, n: nat)
    requires n <= |s| && forall k :: 0 <= k < n ==> s[k] != code && s[k] != '\\'
    ensures Escape(s, code) == s[..n] + Escape(s[n..], code)
    decreases n
  {
    if n > 0 {
      PlainStretch(s[1..], code, n - 1);
      assert s[1..][..n - 1] == s[1..n] && s[1..][n - 1..] == s[n..];
      assert s[..n] == [s[0]] + s[1..n];
    }
  }

  method WriteLiteral(code: char, content: string) returns (out: string)
    ensures out == LiteralText(content, code)
  {
    var escaped := WriteEscaped(content, code);
    out := [code, code] + escaped + [code, code];
  }

  // ---------- Reading ----------

  function Run(s: string): (r: string) {
    if s == "" || IsSpecial(s[0]) then "" else [s[0]] + Run(s[1..])
  }

  function DropRun(s: string): (r: string)
    ensures |r| <= |s|
  {
    if s == "" || IsSpecial(s[0]) then s else DropRun(s[1..])
  }

  /** What follows a backslash: a blank stands for one that does not break. */
  function AfterBackslash(s: string): (r: (string, string))
    ensures |r.1| <= |s|
  {
    if s == "" || s[0] == '\n' || s[0] == '\r' then ("\\", s)
    else if s[0] == ' ' then ("\U{A0}", s[1..])
    else ([s[0]], s[1..])
  }

  /** A stretch of text, and what is left: at least one character is read. */
  function ReadText(s: string): (r: (string, string))
    requires s != ""
    ensures |r.1| < |s|
  {
    if s[0] == '\\' then AfterBackslash(s[1..]) else ([s[0]] + Run(s[1..]), DropRun(s[1..]))
  }

  function Prepend(t: string, r: Option<(string, string)>): (r': Option<(string, string)>) {
    if r.None? then None else Some((t + r.value.0, r.value.1))
  }

  /** The text up to the doubled character, and what is left. */
  function ReadRest(s: string, fch: char): (r: Option<(string, string)>)
    decreases |s|
  {
    if s == "" then None
    else if s[0] == fch then
      if |s| > 1 && s[1] == fch then Some(("", s[2..])) else Prepend([fch], ReadRest(s[1..], fch))
    else Prepend(ReadText(s).0, ReadRest(ReadText(s).1, fch))
  }

  function ReadLiteral(s: string, fch: char): (r: Option<(string, string)>) {
    if |s| > 1 && s[0] == fch && s[1] == fch then ReadRest(s[2..], fch) else None
  }

  lemma ReadPlain(s: string, fch: char)
    requires s != "" && s[0] != fch && s[0] != '\\'
    ensures ReadRest(s, fch) == Prepend([s[0]] + Run(s[1..]), ReadRest(DropRun(s[1..]), fch))
  {
    assert ReadText(s) == ([s[0]] + Run(s[1..]), DropRun(s[1..]));
  }

  lemma PrependTwice(a: string, b: string, r: Option<(string, string)>)
    ensures Prepend(a, Prepend(b, r)) == Prepend(a + b, r)
  {
    if r.Some? { assert a + (b + r.value.0) == a + b + r.value.0; }
  }

  /** It does not matter where a stretch of plain text is cut. */
  lemma PlainStep(s: string, fch: char)
    requires s != "" && s[0] != fch && s[0] != '\\' && IsSpecial(fch)
    ensures ReadRest(s, fch) == Prepend([s[0]], ReadRest(s[1..], fch))
  {
    var rest := s[1..];
    ReadPlain(s, fch);
    if rest != "" && !IsSpecial(rest[0]) {
      CodesAreSpecial('\\');
      ReadPlain(rest, fch);
      PrependTwice([s[0]], Run(rest), ReadRest(DropRun(rest), fch));
    } else {
      assert [s[0]] + "" == [s[0]];
    }
  }

  /** A backslash takes away the meaning of what follows it, but not that of the end of a line. */
  lemma ReadBackslash(c: char, rest: string, code: char)
    requires code != '\\'
    ensures var after := ReadRest(['\\', c] + rest, code);
            if c == '\n' || c == '\r' then after == Prepend("\\", ReadRest([c] + rest, code))
            else after == Prepend(if c == ' ' then "\U{A0}" else [c], ReadRest(rest, code))
    ensures ReadRest("\\", code) == None
  {
    var s := ['\\', c] + rest;
    assert s[1..] == [c] + rest && s[1..][1..] == rest;
  }

  lemma {:induction false} ReadEscaped(content: string, code: char, tail: string)
    requires IsCode(code)
    ensures ReadRest(Escape(content, code) + [code, code] + tail, code) == Some((content, tail))
  {
    if content == "" {
      assert ("" + [code, code] + tail)[2..] == tail;
    } else {
      var c, rest := content[0], Escape(content[1..], code) + [code, code] + tail;
      ReadEscaped(content[1..], code, tail);
      EscapeHead(content, code, [code, code], tail);
      ReadEscapedChar(c, rest, code);
      assert content == [c] + content[1..];
    }
  }

  lemma EscapeHead(content: string, code: char, close: string, tail: string)
    requires content != ""
    ensures var c := content[0];
      Escape(content, code) + close + tail ==
      (if c == code || c == '\\' then ['\\', c] else [c]) + (Escape(content[1..], code) + close + tail)
  {}

  lemma ReadEscapedChar(c: char, rest: string, code: char)
    requires IsCode(code)
    ensures ReadRest((if c == code || c == '\\' then ['\\', c] else [c]) + rest, code)
            == Prepend([c], ReadRest(rest, code))
  {
    if c == code || c == '\\' {
      ReadBackslash(c, rest, code);
    } else {
      assert ([c] + rest)[1..] == rest;
      CodesAreSpecial(code);
      PlainStep([c] + rest, code);
    }
  }

  /** Every content that is written as a literal is read as it was, and nothing after it is touched. */
  lemma LiteralRoundTrip(content: string, code: char, tail: string)
    requires IsCode(code)
    ensures ReadLiteral(LiteralText(content, code) + tail, code) == Some((content, tail))
  {
    var s := LiteralText(content, code) + tail;
    assert s[2..] == Escape(content, code) + [code, code] + tail;
    ReadEscaped(content, code, tail);
  }

  // ---------- Reading with a cursor ----------

  class Parser {
    const src: string
    var pos: nat

    ghost predicate Valid()
      reads this
    {
      pos <= |src|
    }

    ghost function Rest(): (s: string)
      reads this
      requires Valid()
    {
      src[pos..]
    }

    constructor (src: string)
      ensures Valid() && this.src == src && Rest() == src
    {
      this.src, pos := src, 0;
    }

    method ParseText() returns (text: string)
      requires Valid() && pos < |src|
      modifies this
      ensures Valid() && old(pos) < pos && (text, Rest()) == ReadText(old(Rest()))
    {
      var first := src[pos];
      pos := pos + 1;
      assert Rest() == old(Rest())[1..];
      if first == '\\' {
        text := ParseBackslashRest();
      } else {
        text := SkipPlain();
        text := [first] + text;
      }
    }

    /** Reads up to the next special character. */
    method SkipPlain() returns (text: string)
      requires Valid()
      modifies this
      ensures Valid() && old(pos) <= pos && text == Run(old(Rest())) && Rest() == DropRun(old(Rest()))
    {
      var start := pos;
      while pos < |src| && !IsSpecial(src[pos])
        invariant start <= pos <= |src|
        invariant DropRun(Rest()) == DropRun(src[start..])
        invariant src[start..pos] + Run(Rest()) == Run(src[start..])
        decreases |src| - pos
      {
        RunStep(src[start..pos], Rest());
        assert Rest()[1..] == src[pos + 1..];
        assert src[start..pos + 1] == src[start..pos] + [src[pos]];
        pos := pos + 1;
      }
      text := src[start..pos];
      assert text + "" == text;
    }

    method ParseBackslashRest() returns (text: string)
      requires Valid()
      modifies this
      ensures Valid() && old(pos) <= pos && (text, Rest()) == AfterBackslash(old(Rest()))
    {
      if pos == |src| || src[pos] == '\n' || src[pos] == '\r' { return "\\"; }
      var c := src[pos];
      pos := pos + 1;
      text := if c == ' ' then "\U{A0}" else [c];
    }

    /** `None` if the text is no literal; where the cursor then stands does not matter, as it is set back. */
    method ParseLiteral() returns (content: Option<string>)
      requires Valid() && pos < |src|
      modifies this
      ensures Valid() && content.Some? == ReadLiteral(old(Rest()), old(Rest())[0]).Some?
      ensures content.Some? ==> ReadLiteral(old(Rest()), old(Rest())[0]) == Some((content.value, Rest()))
    {
      var fch := src[pos];
      pos := pos + 1;
      if pos == |src| || src[pos] != fch { return None; }
      pos := pos + 1;
      assert Rest() == old(Rest())[2..];
      content := ParseContent(fch);
    }

    method ParseContent(fch: char) returns (content: Option<string>)
      requires Valid()
      modifies this
      ensures Valid() && content.Some? == ReadRest(old(Rest()), fch).Some?
      ensures content.Some? ==> ReadRest(old(Rest()), fch) == Some((content.value, Rest()))
    {
      var buf := "";
      PrependNothing(ReadRest(Rest(), fch));
      while pos < |src|
        invariant Valid()
        invariant Prepend(buf, ReadRest(Rest(), fch)) == ReadRest(old(Rest()), fch)
        decreases |src| - pos
      {
        ghost var rest := Rest();
        if src[pos] == fch {
          if pos + 1 < |src| && src[pos + 1] == fch {
            pos := pos + 2;
            assert Rest() == rest[2..] && buf + "" == buf;
            return Some(buf);
          }
          pos := pos + 1;
          assert Rest() == rest[1..];
          PrependTwice(buf, [fch], ReadRest(Rest(), fch));
          buf := buf + [fch];
        } else {
          var text := ParseText();
          PrependTwice(buf, text, ReadRest(Rest(), fch));
          buf := buf + text;
        }
      }
      content := None;
    }
  }

  lemma RunStep(read: string, s: string)
    requires s != "" && !IsSpecial(s[0])
    ensures read + Run(s) == read + [s[0]] + Run(s[1..]) && DropRun(s) == DropRun(s[1..])
  {
    assert read + ([s[0]] + Run(s[1..])) == read + [s[0]] + Run(s[1..]);
  }

  lemma PrependNothing(r: Option<(string, string)>)
    ensures Prepend("", r) == r
  {
    if r.Some? { assert "" + r.value.0 == r.value.0; }
  }
}
