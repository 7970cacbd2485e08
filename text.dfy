/**
  The handful of Python `str` operations the two scripts rely on:
  `isspace`, `strip`, `split()` on whitespace runs, `split(sep)` and `sep.join(parts)`.
  Strings are sequences of Unicode scalar values, as Python's `str` is.
 */
module Text {

  /** `str.isspace()` for one character, which is also what `\s` matches in a
      `str` regular expression: the ASCII controls TAB..CR and FS..US, the space,
      and the Unicode white-space characters NEL, NBSP, OGHAM SPACE MARK,
      EN QUAD..HAIR SPACE, LINE/PARAGRAPH SEPARATOR, NNBSP, MMSP and IDEOGRAPHIC SPACE. */
  predicate IsSpace(c: char) {
    ('\t' <= c <= '\r') || ('\U{1C}' <= c <= ' ')
    || c == '\U{85}' || c == '\U{A0}' || c == '\U{1680}'
    || ('\U{2000}' <= c <= '\U{200A}')
    || c == '\U{2028}' || c == '\U{2029}' || c == '\U{202F}' || c == '\U{205F}' || c == '\U{3000}'
  }

  /** A string that `strip()` reduces to the empty string. */
  predicate IsBlank(s: string) {
    forall i :: 0 <= i < |s| ==> IsSpace(s[i])
  }

  /** `s.lstrip()`: the suffix left after dropping every leading white-space character. */
  function LStrip(s: string): (r: string)
    ensures |r| <= |s| && r == s[|s| - |r|..]
    ensures r == [] || !IsSpace(r[0])
    ensures forall i :: 0 <= i < |s| - |r| ==> IsSpace(s[i])
  {
    if s != [] && IsSpace(s[0]) then LStrip(s[1..]) else s
  }

  /** `s.rstrip()`: the prefix left after dropping every trailing white-space character. */
  function RStrip(s: string): (r: string)
    ensures |r| <= |s| && r == s[..|r|]
    ensures r == [] || !IsSpace(r[|r| - 1])
    ensures forall i :: |r| <= i < |s| ==> IsSpace(s[i])
  {
    if s != [] && IsSpace(s[|s| - 1]) then RStrip(s[..|s| - 1]) else s
  }

  /** `r` is the slice of `s` at `i`, with only white space before and after it. */
  predicate MiddleAt(s: string, r: string, i: int) {
    && 0 <= i <= |s| - |r| && r == s[i..i + |r|]
    && (forall k :: 0 <= k < i ==> IsSpace(s[k]))
    && (forall k :: i + |r| <= k < |s| ==> IsSpace(s[k]))
  }

  /** `s.strip()`: the contiguous middle of `s` left between a leading and a
      trailing run of white space. */
  function Strip(s: string): (r: string)
    ensures r == [] <==> IsBlank(s)
    ensures r == [] || (!IsSpace(r[0]) && !IsSpace(r[|r| - 1]))
    ensures exists i :: MiddleAt(s, r, i)
  {
    var t := RStrip(s);
    var r := LStrip(t);
    StripBlank(s, t, r);
    StripMiddle(s, t, r);
    r
  }

  /** What is left of `s` after both strips is empty exactly when `s` is blank. */
  lemma StripBlank(s: string, t: string, r: string)
    requires |t| <= |s| && t == s[..|t|] && forall k :: |t| <= k < |s| ==> IsSpace(s[k])
    requires |r| <= |t| && r == t[|t| - |r|..] && forall k :: 0 <= k < |t| - |r| ==> IsSpace(t[k])
    requires r == [] || !IsSpace(r[0])
    ensures r == [] <==> IsBlank(s)
  {
    if r != [] {
      assert r[0] == s[|t| - |r|];
    } else {
      forall k | 0 <= k < |t| ensures IsSpace(s[k]) { assert s[k] == t[k]; }
    }
  }

  /** What is left of `s` after both strips is a slice of it with only white
      space around it. */
  lemma StripMiddle(s: string, t: string, r: string)
    requires |t| <= |s| && t == s[..|t|] && forall k :: |t| <= k < |s| ==> IsSpace(s[k])
    requires |r| <= |t| && r == t[|t| - |r|..] && forall k :: 0 <= k < |t| - |r| ==> IsSpace(t[k])
    ensures exists i :: MiddleAt(s, r, i)
  {
    var i := |t| - |r|;
    assert r == t[i..] == s[i..i + |r|];
    forall k | 0 <= k < i ensures IsSpace(s[k]) { assert s[k] == t[k]; }
    assert MiddleAt(s, r, i);
  }

  /** Right-stripping never touches a non-white-space first character. */
  lemma {:induction false} RStripCons(c: char, s: string)
    requires !IsSpace(c)
    ensures RStrip([c] + s) == [c] + RStrip(s)
    decreases |s|
  {
    if s != [] && IsSpace(s[|s| - 1]) {
      assert ([c] + s)[..|s|] == [c] + s[..|s| - 1];
      RStripCons(c, s[..|s| - 1]);
    }
  }

  /** Stripping a string that neither starts nor ends with white space changes nothing. */
  lemma StripTrimmed(s: string)
    requires s == [] || (!IsSpace(s[0]) && !IsSpace(s[|s| - 1]))
    ensures Strip(s) == s
  {
    assert RStrip(s) == s;
    assert LStrip(s) == s;
  }

  /** `strip()` is idempotent. */
  lemma StripIdempotent(s: string)
    ensures Strip(Strip(s)) == Strip(s)
  {
    StripTrimmed(Strip(s));
  }

  /** Index of the end of the run of characters satisfying `p` that starts at `i`. */
  function Span(s: string, i: nat, p: char -> bool): (e: nat)
    requires i <= |s|
    ensures i <= e <= |s|
    ensures forall k :: i <= k < e ==> p(s[k])
    ensures e == |s| || !p(s[e])
    decreases |s| - i
  {
    if i < |s| && p(s[i]) then Span(s, i + 1, p) else i
  }

  /** A non-empty run of non-white-space characters, as `split()` produces. */
  predicate IsWord(w: string) {
    w != [] && forall i :: 0 <= i < |w| ==> !IsSpace(w[i])
  }

  predicate IsWordChar(c: char) { !IsSpace(c) }

  /** A run is determined by where it starts and the character that stops it. */
  lemma {:induction false} SpanIs(s: string, i: nat, p: char -> bool, e: nat)
    requires i <= e <= |s|
    requires forall k :: i <= k < e ==> p(s[k])
    requires e == |s| || !p(s[e])
    ensures Span(s, i, p) == e
    decreases e - i
  {
    if i < e {
      SpanIs(s, i + 1, p, e);
    }
  }

  /** A run can be measured on the suffix where it starts. */
  lemma SpanShift(s: string, i: nat, p: char -> bool)
    requires i <= |s|
    ensures Span(s, i, p) == i + Span(s[i..], 0, p)
  {
    var e := Span(s[i..], 0, p);
    forall k | i <= k < i + e ensures p(s[k]) { assert s[k] == s[i..][k - i]; }
    if i + e < |s| { assert s[i + e] == s[i..][e]; }
    SpanIs(s, i, p, i + e);
  }

  /** A run over `w` stops where `t` starts, when `t` starts with a stopping character. */
  lemma SpanOverPrefix(w: string, t: string, p: char -> bool)
    requires forall k :: 0 <= k < |w| ==> p(w[k])
    requires t == [] || !p(t[0])
    ensures Span(w + t, 0, p) == |w|
  {
    forall k | 0 <= k < |w| ensures p((w + t)[k]) { assert (w + t)[k] == w[k]; }
    if t != [] { assert (w + t)[|w|] == t[0]; }
    SpanIs(w + t, 0, p, |w|);
  }

  /** `s.split()` with no argument: the maximal runs of non-white-space characters. */
  function Words(s: string): (ws: seq<string>)
    ensures ws == [] <==> IsBlank(s)
    ensures forall k :: 0 <= k < |ws| ==> IsWord(ws[k])
    decreases |s|
  {
    var t := LStrip(s);
    if t == [] then []
    else
      var n := Span(t, 0, IsWordChar);
      LeadingWord(s, t, n);
      var rest := Words(t[n..]);
      SnocWords(t[..n], rest);
      [t[..n]] + rest
  }

  lemma LeadingWord(s: string, t: string, n: nat)
    requires t == LStrip(s) && t != [] && n <= |t|
    requires n == Span(t, 0, IsWordChar)
    ensures !IsBlank(s) && 0 < n && IsWord(t[..n])
  {
    assert s[|s| - |t|] == t[0];
    assert IsWordChar(t[0]);
    forall i | 0 <= i < n ensures !IsSpace(t[..n][i]) { assert IsWordChar(t[i]); }
  }

  lemma SnocWords(w: string, rest: seq<string>)
    requires IsWord(w) && forall k :: 0 <= k < |rest| ==> IsWord(rest[k])
    ensures forall k :: 0 <= k < |[w] + rest| ==> IsWord(([w] + rest)[k])
  {
    forall k | 0 <= k < |[w] + rest| ensures IsWord(([w] + rest)[k]) {
      if k > 0 { assert ([w] + rest)[k] == rest[k - 1]; }
    }
  }

  /** A word followed by nothing or by white space splits off as the first word. */
  lemma WordsFront(w: string, x: string)
    requires IsWord(w) && (x == [] || IsSpace(x[0]))
    ensures Words(w + x) == [w] + Words(x)
  {
    assert (w + x)[0] == w[0];
    assert LStrip(w + x) == w + x;
    SpanOverPrefix(w, x, IsWordChar);
    assert (w + x)[..|w|] == w && (w + x)[|w|..] == x;
  }

  /** A leading space does not change the words. */
  lemma WordsSkipSpace(x: string)
    ensures Words(" " + x) == Words(x)
  {
    var s := " " + x;
    assert s[0] == ' ' && IsSpace(' ') && s[1..] == x;
    assert LStrip(s) == LStrip(x);
  }

  /** A word, a space and a text of words `rest` split as the word and `rest`. */
  lemma WordsStep(w: string, j: string, rest: seq<string>, s: string)
    requires IsWord(w) && Words(j) == rest && s == w + (" " + j)
    ensures Words(s) == [w] + rest
  {
    WordsFront(w, " " + j);
    WordsSkipSpace(j);
  }

  /** `" ".join(ws).split() == ws` for a list of words: joining words with single
      spaces and splitting the result again gives the words back. */
  lemma WordsOfJoin(ws: seq<string>)
    requires forall k :: 0 <= k < |ws| ==> IsWord(ws[k])
    ensures Words(Join(ws, " ")) == ws
  {
    if ws == [] {
      WordsOfBlank([]);
    } else {
      WordsTail(ws);
      WordsOfJoinCons(ws[0], ws[1..]);
      ConsParts(ws);
    }
  }

  lemma ConsParts<T>(xs: seq<T>)
    requires xs != []
    ensures [xs[0]] + xs[1..] == xs
  {
  }

  lemma InitLast<T>(xs: seq<T>)
    requires xs != []
    ensures xs[..|xs| - 1] + [xs[|xs| - 1]] == xs
  {
  }

  lemma {:induction false} WordsOfJoinCons(w: string, rest: seq<string>)
    requires IsWord(w) && forall k :: 0 <= k < |rest| ==> IsWord(rest[k])
    ensures Words(Join([w] + rest, " ")) == [w] + rest
    decreases |rest|
  {
    if rest == [] {
      WordsOfOne(w);
      assert [w] + rest == [w];
    } else {
      WordsTail(rest);
      WordsOfJoinCons(rest[0], rest[1..]);
      ConsParts(rest);
      WordsOfJoinStep([w] + rest, w, rest, Join(rest, " "), Join([w] + rest, " "));
    }
  }

  lemma WordsOfJoinStep(ws: seq<string>, w: string, rest: seq<string>, j: string, s: string)
    requires ws == [w] + rest && rest != [] && IsWord(w)
    requires j == Join(rest, " ") && s == Join(ws, " ") && Words(j) == rest
    ensures Words(s) == ws
  {
    JoinSpaceCons(w, rest);
    WordsStep(w, j, rest, s);
  }

  lemma WordsOfBlank(s: string)
    requires s == []
    ensures Words(s) == []
  {
    assert LStrip(s) == [];
  }

  lemma WordsOfOne(w: string)
    requires IsWord(w)
    ensures Words(Join([w], " ")) == [w]
  {
    WordsFront(w, []);
    WordsOfBlank([]);
    assert w + [] == w;
  }

  lemma WordsTail(ws: seq<string>)
    requires ws != [] && forall k :: 0 <= k < |ws| ==> IsWord(ws[k])
    ensures forall k :: 0 <= k < |ws[1..]| ==> IsWord(ws[1..][k])
  {
    forall k | 0 <= k < |ws[1..]| ensures IsWord(ws[1..][k]) { assert ws[1..][k] == ws[k + 1]; }
  }

  lemma JoinSpaceCons(w: string, rest: seq<string>)
    requires rest != []
    ensures Join([w] + rest, " ") == w + (" " + Join(rest, " "))
  {
    JoinCons(w, rest, " ");
  }

  /** `sep.join(parts)`. */
  function Join(parts: seq<string>, sep: string): (r: string)
  {
    if parts == [] then []
    else if |parts| == 1 then parts[0]
    else Join(parts[..|parts| - 1], sep) + sep + parts[|parts| - 1]
  }

  /** Joining one more part appends the separator and that part. */
  lemma JoinSnoc(parts: seq<string>, x: string, sep: string)
    requires parts != []
    ensures Join(parts + [x], sep) == Join(parts, sep) + sep + x
  {
    assert (parts + [x])[..|parts|] == parts;
  }

  /** Joining a part in front of a non-empty list prepends that part and the separator. */
  lemma {:induction false} JoinCons(x: string, parts: seq<string>, sep: string)
    requires parts != []
    ensures Join([x] + parts, sep) == x + sep + Join(parts, sep)
    decreases |parts|
  {
    var xs := [x] + parts;
    if |parts| == 1 {
      assert xs[..1] == [x];
      assert Join(xs, sep) == Join([x], sep) + sep + parts[0];
    } else {
      var init := parts[..|parts| - 1];
      JoinCons(x, init, sep);
      assert xs[..|xs| - 1] == [x] + init;
      calc {
        Join(xs, sep);
        Join([x] + init, sep) + sep + parts[|parts| - 1];
        x + sep + Join(init, sep) + sep + parts[|parts| - 1];
        x + sep + Join(parts, sep);
      }
    }
  }

  /** Two or more parts join as the first, the separator and the rest, and as
      all but the last, the separator and the last. */
  lemma JoinFirstAndLast(parts: seq<string>, sep: string)
    requires |parts| >= 2
    ensures Join(parts, sep) == parts[0] + sep + Join(parts[1..], sep)
    ensures Join(parts, sep) == Join(parts[..|parts| - 1], sep) + sep + parts[|parts| - 1]
  {
    assert parts == [parts[0]] + parts[1..];
    JoinCons(parts[0], parts[1..], sep);
  }

  /** Three parts joined. */
  lemma JoinThree(a: string, b: string, c: string, sep: string)
    ensures Join([a, b, c], sep) == a + sep + b + sep + c
  {
    JoinSnoc([a], b, sep);
    JoinSnoc([a, b], c, sep);
    assert [a] + [b] == [a, b] && [a, b] + [c] == [a, b, c];
  }

  /** The first part starts the joined string. */
  lemma {:induction false} JoinStartsWithFirst(parts: seq<string>, sep: string)
    requires parts != []
    ensures |parts[0]| <= |Join(parts, sep)| && Join(parts, sep)[..|parts[0]|] == parts[0]
    decreases |parts|
  {
    if |parts| > 1 {
      JoinStartsWithFirst(parts[..|parts| - 1], sep);
      var j := Join(parts[..|parts| - 1], sep);
      assert Join(parts, sep) == j + sep + parts[|parts| - 1];
      assert (j + sep + parts[|parts| - 1])[..|parts[0]|] == j[..|parts[0]|];
    }
  }

  /** A string with no occurrence of `sep` in it. */
  predicate Free(s: string, sep: char) {
    forall i :: 0 <= i < |s| ==> s[i] != sep
  }

  /** `s.split(sep)` for a one-character separator: every piece is free of `sep`,
      there is always at least one piece, and joining the pieces gives back `s`. */
  function Split(s: string, sep: char): (parts: seq<string>)
    ensures |parts| >= 1
    ensures forall k :: 0 <= k < |parts| ==> Free(parts[k], sep)
    ensures Join(parts, [sep]) == s
    decreases |s|
  {
    var i := Span(s, 0, c => c != sep);
    if i == |s| then [s]
    else
      var rest := Split(s[i + 1..], sep);
      JoinCons(s[..i], rest, [sep]);
      assert s == s[..i] + [sep] + s[i + 1..];
      [s[..i]] + rest
  }

  /** The first `j` elements of the first `j + 1` are the first `j`, and the
      last of those `j + 1` is element `j`. */
  lemma PrefixSnoc<T>(xs: seq<T>, j: nat)
    requires j < |xs|
    ensures xs[..j + 1][..j] == xs[..j] && xs[..j + 1][j] == xs[j]
    ensures xs[..j + 1] == xs[..j] + [xs[j]]
  {
  }
}
