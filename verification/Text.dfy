/** String primitives the portal relies on: Python's `strip`, `casefold`, `split`
    and `join`, for the Latin-1 range (see README, "Left out", for the rest of Unicode). */
module Text {

  datatype Option<+T> = None | Some(value: T)

  /** The characters for which Python's `str.isspace` holds, hence what `strip` removes. */
  predicate IsSpace(c: char) {
    || '\t' <= c <= '\r'
    || '\U{1c}' <= c <= ' '
    || c in {'\U{85}', '\U{a0}', '\U{1680}', '\U{2028}', '\U{2029}', '\U{202f}', '\U{205f}', '\U{3000}'}
    || '\U{2000}' <= c <= '\U{200a}'
  }

  function StripLeft(s: string): (r: string)
    ensures |r| <= |s|
    ensures r == s[|s| - |r|..]
    ensures r != "" ==> !IsSpace(r[0])
  {
    if s != "" && IsSpace(s[0]) then StripLeft(s[1..]) else s
  }

  function StripRight(s: string): (r: string)
    ensures r <= s
    ensures r != "" ==> !IsSpace(r[|r| - 1])
  {
    if s != "" && IsSpace(s[|s| - 1]) then StripRight(s[..|s| - 1]) else s
  }

  /** `str.strip()` */
  function Strip(s: string): string {
    StripRight(StripLeft(s))
  }

  predicate Stripped(s: string) {
    s == "" || (!IsSpace(s[0]) && !IsSpace(s[|s| - 1]))
  }

  lemma StripIsStripped(s: string)
    ensures Stripped(Strip(s))
  {
    var left := StripLeft(s);
    var r := StripRight(left);
    if r != "" {
      assert r[0] == left[0];
    }
  }

  /** A string with no space at either end is left alone by `strip`; so `strip` is idempotent. */
  lemma StripFixed(s: string)
    requires Stripped(s)
    ensures Strip(s) == s
  {}

  /** `str.casefold` on one character of the Latin-1 range. */
  function FoldChar(c: char): string {
    if 'A' <= c <= 'Z' then [(c as int + 32) as char]
    else if '\U{c0}' <= c <= '\U{de}' && c != '\U{d7}' then [(c as int + 32) as char]
    else if c == '\U{df}' then "ss"
    else if c == '\U{b5}' then ['\U{3bc}']
    else [c]
  }

  function CaseFold(s: string): string {
    if s == "" then "" else FoldChar(s[0]) + CaseFold(s[1..])
  }

  /** `lower()` of the database engine: ASCII letters only. */
  function SqlLower(s: string): (r: string)
    ensures |r| == |s|
  {
    seq(|s|, i requires 0 <= i < |s| => if 'A' <= s[i] <= 'Z' then (s[i] as int + 32) as char else s[i])
  }

  /** `" ".join(s.split())` on an already stripped string: runs of spaces become one space. */
  function Collapse(s: string): string {
    if s == "" then ""
    else if IsSpace(s[0]) then
      var rest := StripLeft(s);
      if rest == "" then "" else [' '] + Collapse(rest)
    else [s[0]] + Collapse(s[1..])
  }

  /** The language of the slug pattern shared by the catalogue and the proxy host parser. */
  predicate IsSlug(s: string) {
    s != "" && forall c | c in s :: 'a' <= c <= 'z' || '0' <= c <= '9' || c == '-'
  }

  // ---- split and join ----

  /** `s.split(sep)` */
  function Split(s: string, sep: char): (parts: seq<string>)
    ensures parts != []
  {
    if s == "" then [""]
    else
      var rest := Split(s[1..], sep);
      if s[0] == sep then [""] + rest else [[s[0]] + rest[0]] + rest[1..]
  }

  function Join(parts: seq<string>, glue: string): string {
    if parts == [] then ""
    else if |parts| == 1 then parts[0]
    else parts[0] + glue + Join(parts[1..], glue)
  }

  /** What precedes the first `sep`: `s.split(sep, 1)[0]`. */
  function Before(s: string, sep: char): string {
    if s == "" || s[0] == sep then "" else [s[0]] + Before(s[1..], sep)
  }

  lemma {:induction false} SplitAtFirst(p: string, t: string, sep: char)
    requires sep !in p
    ensures Split(p + [sep] + t, sep) == [p] + Split(t, sep)
    ensures Split(p, sep) == [p]
    decreases |p|
  {
    if p == "" {
      assert (p + [sep] + t)[1..] == t;
    } else {
      assert (p + [sep] + t)[1..] == p[1..] + [sep] + t;
      SplitAtFirst(p[1..], t, sep);
      assert [p[0]] + p[1..] == p;
      assert ([p[1..]] + Split(t, sep))[1..] == Split(t, sep);
    }
  }

  lemma {:induction false} SplitPiecesAreFree(s: string, sep: char)
    ensures forall i | 0 <= i < |Split(s, sep)| :: sep !in Split(s, sep)[i]
    decreases |s|
  {
    if s != "" {
      SplitPiecesAreFree(s[1..], sep);
    }
  }

  lemma StripWithin(s: string, c: char)
    requires c in Strip(s)
    ensures c in s
  {
    var left := StripLeft(s);
    var i :| 0 <= i < |Strip(s)| && Strip(s)[i] == c;
    assert left[i] == c;
    assert s[|s| - |left| + i] == c;
  }

  /** Lower-case letters, digits and hyphens fold to themselves. */
  lemma {:induction false} LowerCaseFolds(s: string)
    requires forall i | 0 <= i < |s| :: 'a' <= s[i] <= 'z' || '0' <= s[i] <= '9' || s[i] == '-'
    ensures CaseFold(s) == s
    decreases |s|
  {
    if s != "" {
      LowerCaseFolds(s[1..]);
      assert FoldChar(s[0]) == [s[0]];
    }
  }

  lemma {:induction false} FoldConcat(a: string, b: string)
    ensures CaseFold(a + b) == CaseFold(a) + CaseFold(b)
    decreases |a|
  {
    if a == "" {
      assert a + b == b;
    } else {
      assert (a + b)[1..] == a[1..] + b;
      FoldConcat(a[1..], b);
    }
  }

  lemma FoldOfChar(c: char)
    ensures CaseFold(FoldChar(c)) == FoldChar(c)
  {
    var f := FoldChar(c);
    if |f| == 1 {
      assert f[1..] == "";
      assert FoldChar(f[0]) == f;
    } else {
      assert f == "ss";
      assert f[1..] == "s" && f[1..][1..] == "";
      assert CaseFold(f[1..]) == "s";
    }
  }

  /** Folding is idempotent. */
  lemma {:induction false} FoldOfFold(s: string)
    ensures CaseFold(CaseFold(s)) == CaseFold(s)
    decreases |s|
  {
    if s != "" {
      FoldOfFold(s[1..]);
      FoldConcat(FoldChar(s[0]), CaseFold(s[1..]));
      FoldOfChar(s[0]);
    }
  }

  /** Lowering ASCII letters first makes no difference to the fold. */
  lemma {:induction false} FoldOfLower(s: string)
    ensures CaseFold(SqlLower(s)) == CaseFold(s)
    decreases |s|
  {
    if s != "" {
      FoldOfLower(s[1..]);
      assert SqlLower(s)[1..] == SqlLower(s[1..]);
    }
  }

  // ---- words ----

  function FirstWord(s: string): (r: string)
    ensures r <= s
  {
    if s == "" || IsSpace(s[0]) then "" else [s[0]] + FirstWord(s[1..])
  }

  /** `s.split()` */
  function Words(s: string): seq<string>
    decreases |s|
  {
    var text := StripLeft(s);
    if text == "" then [] else WordStarts(text); [FirstWord(text)] + Words(text[|FirstWord(text)|..])
  }

  lemma WordStarts(s: string)
    requires s != "" && !IsSpace(s[0])
    ensures FirstWord(s) != ""
  {}

  lemma {:induction false} CollapseWord(s: string)
    ensures Collapse(s) == FirstWord(s) + Collapse(s[|FirstWord(s)|..])
    decreases |s|
  {
    if s != "" && !IsSpace(s[0]) {
      CollapseWord(s[1..]);
      var word := FirstWord(s[1..]);
      assert FirstWord(s) == [s[0]] + word;
      assert s[1..][|word|..] == s[|FirstWord(s)|..];
      assert Collapse(s) == [s[0]] + (word + Collapse(s[1..][|word|..]));
    } else {
      assert FirstWord(s) == "" && s[0..] == s;
    }
  }

  lemma {:induction false} WordEnds(s: string)
    ensures var rest := s[|FirstWord(s)|..]; rest != "" ==> IsSpace(rest[0])
    decreases |s|
  {
    if s != "" && !IsSpace(s[0]) {
      WordEnds(s[1..]);
      assert s[1..][|FirstWord(s[1..])|..] == s[|FirstWord(s)|..];
    }
  }

  lemma WordsOf(s: string)
    requires s != "" && !IsSpace(s[0])
    ensures Words(s) == [FirstWord(s)] + Words(s[|FirstWord(s)|..])
    ensures |s[|FirstWord(s)|..]| < |s|
  {
    hide FirstWord;
    WordStarts(s);
  }

  lemma CollapseSpaces(s: string)
    requires s != "" ==> IsSpace(s[0])
    ensures Collapse(s) == if StripLeft(s) == "" then "" else " " + Collapse(StripLeft(s))
  {
    hide IsSpace;
  }

  lemma NoWords(s: string)
    ensures Words(s) == [] <==> StripLeft(s) == ""
  {}

  lemma JoinFirst(first: string, rest: seq<string>, glue: string)
    ensures Join([first] + rest, glue) == if rest == [] then first else first + glue + Join(rest, glue)
  {
    assert ([first] + rest)[1..] == rest;
  }

  /** Collapsing the runs of a text that starts with a word joins its words with single spaces. */
  lemma {:induction false} CollapseJoinsWords(s: string)
    requires s != "" ==> !IsSpace(s[0])
    ensures Collapse(s) == Join(Words(s), " ")
    decreases |s|
  {
    hide Collapse, Words, Join, FirstWord, StripLeft, IsSpace;
    if s == "" {
      NothingToCollapse();
    } else {
      var word := FirstWord(s);
      var rest := s[|word|..];
      var next := StripLeft(rest);
      CollapseWord(s);
      WordEnds(s);
      WordsOf(s);
      CollapseSpaces(rest);
      JoinFirst(word, Words(rest), " ");
      NoWords(rest);
      SameWords(rest);
      CollapseJoinsWords(next);
      Regroup(word, " ", Collapse(next));
    }
  }

  lemma NothingToCollapse()
    ensures Collapse("") == Join(Words(""), " ")
  {}

  lemma Regroup(a: string, b: string, c: string)
    ensures a + (b + c) == a + b + c && a + "" == a
  {}

  lemma SameWords(s: string)
    ensures Words(StripLeft(s)) == Words(s)
  {
    assert StripLeft(StripLeft(s)) == StripLeft(s);
  }
}
