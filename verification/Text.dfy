/** White space, fields and joins of texts; a `char` is one rune of the text. */
module Text {

  datatype Option<+T> = None | Some(value: T)

  /** The ranges of Unicode white space. */
  const WHITE: seq<(char, char)> := [
    ('\t', '\r'), (' ', ' '), ('\U{85}', '\U{85}'), ('\U{A0}', '\U{A0}'), ('\U{1680}', '\U{1680}'),
    ('\U{2000}', '\U{200A}'),
    ('\U{2028}', '\U{2029}'), ('\U{202F}', '\U{202F}'), ('\U{205F}', '\U{205F}'), ('\U{3000}', '\U{3000}')]

  predicate InRange(c: char, ranges: seq<(char, char)>)
    decreases |ranges|, c
  {
    ranges != [] && (ranges[0].0 <= c <= ranges[0].1 || InRange(c, ranges[1..]))
  }

  predicate IsWhite(c: char) {
    InRange(c, WHITE)
  }

  lemma BlankIsWhite()
    ensures IsWhite(' ') && IsWhite('\n') && IsWhite('\r')
  {
    assert WHITE[0] == ('\t', '\r') && WHITE[1..][0] == (' ', ' ');
  }

  lemma {:induction false} OutOfRanges(c: char, ranges: seq<(char, char)>)
    requires forall i :: 0 <= i < |ranges| ==> c < ranges[i].0 || ranges[i].1 < c
    ensures !InRange(c, ranges)
  {
    if ranges != [] { OutOfRanges(c, ranges[1..]); }
  }

  /** The printable characters of ASCII, but the blank, are not white. */
  lemma Graphic(c: char)
    requires '!' <= c <= '~'
    ensures !IsWhite(c)
  {
    OutOfRanges(c, WHITE);
  }

  predicate IsDigit(c: char) {
    '0' <= c <= '9'
  }

  /** The maximal runs of non-white characters; `word` is the run in progress. */
  function FieldsFrom(s: string, word: string): (r: seq<string>) {
    if s == "" then
      if word == "" then [] else [word]
    else if IsWhite(s[0]) then
      (if word == "" then [] else [word]) + FieldsFrom(s[1..], "")
    else
      FieldsFrom(s[1..], word + [s[0]])
  }

  function Fields(s: string): (r: seq<string>) {
    FieldsFrom(s, "")
  }

  function Join(words: seq<string>): (r: string) {
    if words == [] then "" else
    if |words| == 1 then words[0] else words[0] + " " + Join(words[1..])
  }

  predicate IsWord(w: string) {
    w != "" && forall i :: 0 <= i < |w| ==> !IsWhite(w[i])
  }

  lemma {:induction false} FieldsOfWord(w: string, pre: string, rest: string)
    requires forall i :: 0 <= i < |w| ==> !IsWhite(w[i])
    ensures FieldsFrom(w + rest, pre) == FieldsFrom(rest, pre + w)
  {
    if w == "" {
      assert w + rest == rest && pre + w == pre;
    } else {
      assert (w + rest)[1..] == w[1..] + rest;
      assert pre + [w[0]] + w[1..] == pre + w;
      FieldsOfWord(w[1..], pre + [w[0]], rest);
    }
  }

  /** Splitting undoes joining, for words without white space. */
  lemma {:induction false} FieldsJoin(words: seq<string>)
    requires forall i :: 0 <= i < |words| ==> IsWord(words[i])
    ensures Fields(Join(words)) == words
  {
    if |words| == 1 {
      var w := words[0];
      FieldsOfWord(w, "", "");
      assert w + "" == w && "" + w == w;
    } else if |words| > 1 {
      var w, rest := words[0], Join(words[1..]);
      assert Join(words) == w + (" " + rest);
      FieldsOfWord(w, "", " " + rest);
      assert (" " + rest)[1..] == rest;
      assert "" + w == w;
      FieldsJoin(words[1..]);
    }
  }

  lemma {:induction false} FieldsAreWords(s: string, word: string)
    requires word == "" || IsWord(word)
    ensures forall w :: w in FieldsFrom(s, word) ==> IsWord(w)
  {
    if s != "" {
      if IsWhite(s[0]) {
        FieldsAreWords(s[1..], "");
      } else {
        FieldsAreWords(s[1..], word + [s[0]]);
      }
    }
  }

  /** The order of texts by their first difference. */
  predicate Less(a: string, b: string) {
    b != "" && (a == "" || a[0] < b[0] || (a[0] == b[0] && Less(a[1..], b[1..])))
  }

  lemma {:induction false} LessOrder(a: string, b: string, c: string)
    ensures !Less(a, a) && !(Less(a, b) && Less(b, a))
    ensures a == b || Less(a, b) || Less(b, a)
    ensures Less(a, b) && Less(b, c) ==> Less(a, c)
  {
    if a != "" && b != "" {
      assert a == [a[0]] + a[1..] && b == [b[0]] + b[1..];
      LessOrder(a[1..], b[1..], if c == "" then c else c[1..]);
    } else if a != "" {
      LessOrder(a[1..], a[1..], a[1..]);
    }
  }

  lemma LeastExists(s: set<string>)
    requires s != {}
    ensures exists m :: m in s && forall x :: x in s ==> !Less(x, m)
  {
    var m :| m in s;
    LessOrder(m, m, m);
    if s != {m} {
      LeastExists(s - {m});
      var other :| other in s - {m} && forall x :: x in s - {m} ==> !Less(x, other);
      var least := if Less(other, m) then other else m;
      forall x | x in s ensures !Less(x, least) {
        LessOrder(x, m, other);
        LessOrder(m, x, other);
        LessOrder(m, other, x);
      }
      assert least in s;
    }
  }

  function Least(s: set<string>): (m: string)
    requires s != {}
    ensures m in s && forall x :: x in s ==> !Less(x, m)
  {
    LeastExists(s);
    assert forall x, y :: !Less(x, y) && !Less(y, x) ==> x == y by {
      forall x, y { LessOrder(x, y, x); }
    }
    var m :| m in s && forall x :: x in s ==> !Less(x, m);
    m
  }

  /** The elements of `s` in order. */
  function SortedTexts(s: set<string>): (r: seq<string>)
    ensures forall x :: x in r <==> x in s
  {
    if s == {} then [] else
    var m := Least(s);
    [m] + SortedTexts(s - {m})
  }

  ghost predicate Increasing(s: seq<string>) {
    forall i, j :: 0 <= i < j < |s| ==> Less(s[i], s[j])
  }

  lemma {:induction false} SortedTextsIncrease(s: set<string>)
    ensures Increasing(SortedTexts(s))
  {
    if s != {} {
      var m := Least(s);
      var rest := SortedTexts(s - {m});
      SortedTextsIncrease(s - {m});
      forall j | 0 <= j < |rest| ensures Less(m, rest[j]) {
        assert rest[j] in rest && rest[j] != m;
        LessOrder(m, rest[j], m);
      }
    }
  }
}
