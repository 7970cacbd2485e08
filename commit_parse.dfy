/**
  `parse_commit_line` of misc/factorio_changelog_generator.py together with the
  `CATEGORY_MAP` and `IGNORED_PREFIXES` tables it consults. The two regular
  expressions of the source are written out as character scanners.
 */
module CommitParse {
  import opened Wrappers
  import opened Text

  /** `CATEGORY_MAP`: conventional-commit prefix to Factorio changelog category,
      in the dictionary's insertion order. */
  const CategoryMap: seq<(string, string)> := [
    ("major", "Major Features"),
    ("feat", "Features"),
    ("minor", "Minor Features"),
    ("graphics", "Graphics"),
    ("sounds", "Sounds"),
    ("perf", "Optimizations"),
    ("balance", "Balancing"),
    ("combat", "Combat Balancing"),
    ("circuits", "Circuit Network"),
    ("change", "Changes"),
    ("fix", "Bugfixes"),
    ("modding", "Modding"),
    ("scripting", "Scripting"),
    ("gui", "Gui"),
    ("control", "Control"),
    ("translations", "Translation"),
    ("debug", "Debug"),
    ("info", "Info"),
    ("ease", "Ease of use"),
    ("locale", "Locale")
  ]

  /** `CATEGORY_MAP.values()`, in order. */
  const CategoryValues: seq<string> := ValuesOf(CategoryMap)

  /** The values of an insertion-ordered table, in order. */
  function ValuesOf(table: seq<(string, string)>): (values: seq<string>)
    ensures |values| == |table| && forall i :: 0 <= i < |table| ==> values[i] == table[i].1
  {
    seq(|table|, i requires 0 <= i < |table| => table[i].1)
  }

  /** `IGNORED_PREFIXES`. */
  const IgnoredPrefixes: set<string> := {"release"}

  /** The category used for a prefix the map does not know. */
  const DefaultCategory: string := "Changes"

  /** An insertion-ordered table whose keys are distinct, as a dictionary's are. */
  predicate KeysDistinct(table: seq<(string, string)>) {
    forall j, k :: 0 <= j < k < |table| ==> table[j].0 != table[k].0
  }

  /** `table.get(key, default)`. */
  function Lookup(table: seq<(string, string)>, key: string, default: string): (v: string)
    requires KeysDistinct(table)
    ensures forall k :: 0 <= k < |table| && table[k].0 == key ==> v == table[k].1
    ensures (forall k :: 0 <= k < |table| ==> table[k].0 != key) ==> v == default
  {
    if table == [] then default
    else if table[0].0 == key then table[0].1
    else
      var v := Lookup(table[1..], key, default);
      assert forall k :: 1 <= k < |table| ==> table[k] == table[1..][k - 1];
      v
  }

  /** The keys of `CATEGORY_MAP` are distinct. */
  lemma CategoryMapKeysDistinct()
    ensures KeysDistinct(CategoryMap)
  {
    KeysDistinctBetween(0, 10, 0, 10);
    KeysDistinctBetween(0, 10, 10, 20);
    KeysDistinctBetween(10, 20, 10, 20);
  }

  /** Distinctness of the keys, one block of index pairs at a time. */
  lemma KeysDistinctBetween(lo: nat, hi: nat, lo': nat, hi': nat)
    requires (lo, hi, lo', hi') in {(0, 10, 0, 10), (0, 10, 10, 20), (10, 20, 10, 20)}
    ensures forall j, k :: lo <= j < hi && lo' <= k < hi' && j < k ==> CategoryMap[j].0 != CategoryMap[k].0
  {
  }

  /** `CATEGORY_MAP.get(prefix, "Changes")`: the category of a known prefix, and
      `"Changes"` for any other; either way one of the map's values. */
  function CategoryOf(prefix: string): (category: string)
    ensures category in CategoryValues
    ensures forall k :: 0 <= k < |CategoryMap| && CategoryMap[k].0 == prefix ==> category == CategoryMap[k].1
    ensures (forall k :: 0 <= k < |CategoryMap| ==> CategoryMap[k].0 != prefix) ==> category == DefaultCategory
  {
    CategoryMapKeysDistinct();
    assert CategoryValues[9] == DefaultCategory;
    Lookup(CategoryMap, prefix, DefaultCategory)
  }

  /** One changelog item: its category and its description. */
  datatype Change = Change(category: string, description: string)

  predicate IsAsciiLetter(c: char) {
    'a' <= c <= 'z' || 'A' <= c <= 'Z'
  }

  /** `str.lower()` on a string of ASCII letters: each letter becomes its
      lower-case form and keeps its place. */
  function Lower(s: string): (r: string)
    ensures |r| == |s|
    ensures forall i :: 0 <= i < |s| && IsAsciiLetter(s[i]) ==>
      'a' <= r[i] <= 'z' && (r[i] == s[i] || r[i] as int == s[i] as int + 32)
  {
    seq(|s|, i requires 0 <= i < |s| => if 'A' <= s[i] <= 'Z' then (s[i] as int + 32) as char else s[i])
  }

  /** `re.sub(r"^-\s*", "", s)`: drop one leading dash and the white space after
      it. The result is a suffix of `s`; a line without a leading dash is kept whole. */
  function DropDash(s: string): (r: string)
    ensures |r| <= |s| && r == s[|s| - |r|..]
    ensures (s == [] || s[0] != '-') ==> r == s
    ensures s != [] && s[0] == '-' ==>
      |r| < |s| && (r == [] || !IsSpace(r[0])) && forall i :: 1 <= i < |s| - |r| ==> IsSpace(s[i])
  {
    if s != [] && s[0] == '-' then
      var r := LStrip(s[1..]);
      assert forall i :: 1 <= i < |s| - |r| ==> s[i] == s[1..][i - 1];
      r
    else s
  }

  predicate NotCloseParen(c: char) { c != ')' }

  predicate NotNewline(c: char) { c != '\n' }

  /** End of the optional `(?:\([^)]+\))` group that starts at `p`: past the
      first `)` when a `(` and at least one other character precede it, else `p`
      (the group is skipped). */
  function ScopeEnd(s: string, p: nat): (q: nat)
    requires p <= |s|
    ensures p <= q <= |s|
  {
    if p < |s| && s[p] == '(' then
      var close := Span(s, p + 1, NotCloseParen);
      if p + 1 < close < |s| then close + 1 else p
    else p
  }

  /** The scope group, when taken, is `(`, at least one character other than
      `)`, and the first `)` after it; and it is taken whenever such a `)` exists. */
  lemma ScopeGroup(s: string, p: nat)
    requires p <= |s|
    ensures ScopeEnd(s, p) > p ==>
      && s[p] == '(' && p + 3 <= ScopeEnd(s, p) && s[ScopeEnd(s, p) - 1] == ')'
      && forall k :: p < k < ScopeEnd(s, p) - 1 ==> s[k] != ')'
    ensures forall c :: (p + 1 < c < |s| && s[p] == '(' && s[c] == ')' && (forall k :: p < k < c ==> s[k] != ')'))
                     ==> ScopeEnd(s, p) == c + 1
  {
    if p < |s| && s[p] == '(' {
      var close := Span(s, p + 1, NotCloseParen);
      forall c | p + 1 < c < |s| && s[c] == ')' && (forall k :: p < k < c ==> s[k] != ')')
        ensures ScopeEnd(s, p) == c + 1
      {
        SpanIs(s, p + 1, NotCloseParen, c);
      }
    }
  }

  /** `(.+)$` at the start of `t`: `.` matches anything but a newline and `$`
      matches at the end or just before a final newline. */
  function DotsToEnd(t: string): (r: Option<string>)
    ensures r.Some? ==> r.value != [] && (forall i :: 0 <= i < |r.value| ==> r.value[i] != '\n')
    ensures r.Some? ==> r.value == t || t == r.value + "\n"
  {
    var k := Span(t, 0, NotNewline);
    if k == 0 then None
    else if k == |t| then Some(t)
    else if k == |t| - 1 then (assert t == t[..k] + "\n"; Some(t[..k]))
    else None
  }

  /** `\s*(.+)$` after the colon, with the engine's backtracking: the white-space
      run is tried longest first and given back one character at a time. The
      group is `(.+)$` at the latest start `i <= j` where it matches, and there is
      no match when it matches at no such start. */
  function TailFrom(a: string, j: nat): (r: Option<string>)
    requires j <= |a|
    ensures r.Some? ==> r.value != [] && (forall i :: 0 <= i < |r.value| ==> r.value[i] != '\n')
    ensures r.Some? ==> |r.value| <= |a| && (a[|a| - 1] != '\n' ==> r.value[|r.value| - 1] == a[|a| - 1])
    decreases j
  {
    match DotsToEnd(a[j..])
    case Some(g) => Some(g)
    case None => if j == 0 then None else TailFrom(a, j - 1)
  }

  /** `(.+)$` matches at the start of `t` exactly when `t` is non-empty, does
      not start with a newline and has no newline before its last character. */
  lemma DotsToEndIff(t: string)
    ensures DotsToEnd(t).Some? <==> t != [] && t[0] != '\n' && forall i :: 0 <= i < |t| - 1 ==> t[i] != '\n'
  {
  }

  /** The group `TailFrom` finds is `(.+)$` at the latest start `i <= j` where it
      matches, and there is none when it matches at no such start. */
  lemma {:induction false} TailFromLatest(a: string, j: nat)
    requires j <= |a|
    ensures TailFrom(a, j).None? <==> forall i :: 0 <= i <= j ==> DotsToEnd(a[i..]).None?
    ensures TailFrom(a, j).Some? ==> exists i :: (0 <= i <= j && DotsToEnd(a[i..]) == TailFrom(a, j)
                                                 && forall i' :: i < i' <= j ==> DotsToEnd(a[i'..]).None?)
    decreases j
  {
    if DotsToEnd(a[j..]).None? && j > 0 {
      TailFromLatest(a, j - 1);
    }
  }

  /** `\s*(.+)$` matches `a` with group `g`: a white-space run, then `g` running
      to the end of `a` or to a final newline. */
  predicate GroupAfter(a: string, g: string) {
    exists i :: 0 <= i <= |a| && IsBlank(a[..i]) && DotsToEnd(a[i..]) == Some(g)
  }

  /** Somewhere at or after `lo` in `s` there is a colon followed by what
      `\s*(.+)$` matches with group `g`. */
  predicate ColonThenGroup(s: string, lo: nat, g: string) {
    exists c :: lo <= c < |s| && s[c] == ':' && GroupAfter(s[c + 1..], g)
  }

  lemma ColonAt(s: string, lo: nat, c: nat, g: string)
    requires lo <= c < |s| && s[c] == ':' && GroupAfter(s[c + 1..], g)
    ensures ColonThenGroup(s, lo, g)
  {
  }

  /** The group `TailFrom` finds from the end of the leading white space is one
      that `\s*(.+)$` can match. */
  lemma TailFromGroup(a: string, j: nat, g: string)
    requires j <= |a| && forall k :: 0 <= k < j ==> IsSpace(a[k])
    requires TailFrom(a, j) == Some(g)
    ensures GroupAfter(a, g)
  {
    TailFromLatest(a, j);
    var i :| 0 <= i <= j && DotsToEnd(a[i..]) == Some(g);
    BlankPrefix(a, i, j);
  }

  lemma BlankPrefix(a: string, i: nat, j: nat)
    requires i <= j <= |a| && forall k :: 0 <= k < j ==> IsSpace(a[k])
    ensures IsBlank(a[..i])
  {
    assert forall k :: 0 <= k < i ==> a[..i][k] == a[k];
  }

  /** The regular expression `^([a-zA-Z]+)(?:\([^)]+\))?\s*:\s*(.+)$`, giving its
      two groups. Only the last white-space run can usefully backtrack: the letter
      run, the scope and the run before the colon are each followed by a character
      they cannot contain, so their first (longest) choice is the only one that
      can lead to a match. */
  function MatchLine(s: string): (r: Option<(string, string)>)
    ensures r.Some? ==> r.value.0 != [] && forall i :: 0 <= i < |r.value.0| ==> IsAsciiLetter(r.value.0[i])
    ensures r.Some? ==> r.value.1 != [] && (forall i :: 0 <= i < |r.value.1| ==> r.value.1[i] != '\n')
    ensures r.Some? ==> |r.value.1| <= |s| && (s[|s| - 1] != '\n' ==> r.value.1[|r.value.1| - 1] == s[|s| - 1])
  {
    var p := Span(s, 0, IsAsciiLetter);
    if p == 0 then None
    else
      var c := Span(s, ScopeEnd(s, p), IsSpace);
      if c < |s| && s[c] == ':' then
        var a := s[c + 1..];
        var j := Span(a, 0, IsSpace);
        var g := TailFrom(a, j);
        if g.Some? then Some((s[..p], g.value))
        else None
      else None
  }

  /** The first group is the whole leading letter run of the line, and the
      second is what `\s*(.+)$` matches after a colon further on. */
  lemma MatchLineGroups(s: string)
    ensures MatchLine(s).Some? ==>
      && |MatchLine(s).value.0| < |s|
      && s[..|MatchLine(s).value.0|] == MatchLine(s).value.0
      && !IsAsciiLetter(s[|MatchLine(s).value.0|])
    ensures MatchLine(s).Some? ==> ColonThenGroup(s, |MatchLine(s).value.0|, MatchLine(s).value.1)
  {
    var p := Span(s, 0, IsAsciiLetter);
    if p > 0 {
      var c := Span(s, ScopeEnd(s, p), IsSpace);
      if c < |s| && s[c] == ':' {
        var a := s[c + 1..];
        var j := Span(a, 0, IsSpace);
        var g := TailFrom(a, j);
        if g.Some? {
          assert MatchLine(s) == Some((s[..p], g.value));
          GroupsAt(s, p, c, g.value);
        } else {
          assert MatchLine(s).None?;
        }
      } else {
        assert MatchLine(s).None?;
      }
    } else {
      assert MatchLine(s).None?;
    }
  }

  /** The groups of a line that matches, once the colon is found at `c`. */
  lemma GroupsAt(s: string, p: nat, c: nat, g: string)
    requires 0 < p == Span(s, 0, IsAsciiLetter)
    requires c == Span(s, ScopeEnd(s, p), IsSpace) && c < |s| && s[c] == ':'
    requires TailFrom(s[c + 1..], Span(s[c + 1..], 0, IsSpace)) == Some(g)
    ensures p < |s| && !IsAsciiLetter(s[p]) && ColonThenGroup(s, p, g)
  {
    TailFromGroup(s[c + 1..], Span(s[c + 1..], 0, IsSpace), g);
    ColonAt(s, p, c, g);
  }

  /** `parse_commit_line(line)`: `None` for a blank line, a line that does not
      match, or an ignored prefix; otherwise the category of the lower-cased
      prefix (`"Changes"` when unknown) and the stripped description. */
  function ParseCommitLine(line: string): (r: Option<Change>)
    ensures IsBlank(line) ==> r.None?
    ensures r.Some? ==> r.value.category in CategoryValues
    ensures r.Some? ==> r.value.description != [] && Strip(r.value.description) == r.value.description
    ensures r.Some? ==> forall i :: 0 <= i < |r.value.description| ==> r.value.description[i] != '\n'
  {
    if line == [] || Strip(line) == [] then None
    else
      var s := DropDash(Strip(line));
      CleanedLineEnd(line, s);
      ParseCleaned(s)
  }

  /** The rest of `parse_commit_line` once the line is stripped and its dash
      dropped: match the regular expression, skip an ignored prefix, look up the
      category and strip the description. */
  function ParseCleaned(s: string): (r: Option<Change>)
    requires s == [] || !IsSpace(s[|s| - 1])
    ensures r.Some? ==> r.value.category in CategoryValues
    ensures r.Some? ==> r.value.description != [] && Strip(r.value.description) == r.value.description
    ensures r.Some? ==> forall i :: 0 <= i < |r.value.description| ==> r.value.description[i] != '\n'
  {
    match MatchLine(s)
    case None => None
    case Some((prefix, rest)) =>
      var key := Lower(prefix);
      if key in IgnoredPrefixes then None
      else
        DescriptionNotBlank(s, rest);
        StrippedDescription(rest);
        Some(Change(CategoryOf(key), Strip(rest)))
  }

  /** Stripping a one-line group gives a stripped one-line text. */
  lemma StrippedDescription(rest: string)
    requires forall i :: 0 <= i < |rest| ==> rest[i] != '\n'
    ensures Strip(Strip(rest)) == Strip(rest)
    ensures forall i :: 0 <= i < |Strip(rest)| ==> Strip(rest)[i] != '\n'
  {
    StripIdempotent(rest);
    var d := Strip(rest);
    forall i | 0 <= i < |d| ensures d[i] != '\n' {
      assert d[i] in d;
    }
  }

  /** Dropping the dash keeps a suffix of the line, so the line's last character. */
  lemma DropDashKeepsEnd(t: string)
    requires t != []
    ensures DropDash(t) == [] || DropDash(t)[|DropDash(t)| - 1] == t[|t| - 1]
  {
    if t[0] == '-' {
      var u := LStrip(t[1..]);
      if u != [] {
        assert u[|u| - 1] == t[1..][|t[1..]| - 1];
      }
    }
  }

  /** The line the regular expression sees ends in a non-white-space character. */
  lemma CleanedLineEnd(line: string, s: string)
    requires s == DropDash(Strip(line))
    ensures s == [] || !IsSpace(s[|s| - 1])
  {
    var t := Strip(line);
    if t != [] {
      DropDashKeepsEnd(t);
    }
  }

  /** The second group ends where that line ends, so it ends in a
      non-white-space character and survives `strip()`. */
  lemma DescriptionNotBlank(s: string, rest: string)
    requires s == [] || !IsSpace(s[|s| - 1])
    requires rest != [] && |rest| <= |s| && (s[|s| - 1] != '\n' ==> rest[|rest| - 1] == s[|s| - 1])
    ensures Strip(rest) != []
  {
    assert !IsBlank(rest);
  }

  // ---------------------------------------------------------------------------
  // Properties of the parser
  // ---------------------------------------------------------------------------

  /** A leading `-` (as on a body line) is dropped together with the white space
      after it, so `"- fix: x"` parses exactly like `"fix: x"`. Only one dash is
      dropped: the rest of the line must not start with another. */
  lemma DashPrefixIgnored(s: string)
    requires Strip(s) == [] || Strip(s)[0] != '-'
    ensures ParseCommitLine("-" + s) == ParseCommitLine(s)
  {
    DashStripped(s);
    ParseOfCleaned("-" + s);
    if Strip(s) == [] {
      assert MatchLine([]) == None;
    } else {
      ParseOfCleaned(s);
    }
  }

  /** A line that is not blank parses as its stripped, dash-dropped form. */
  lemma ParseOfCleaned(line: string)
    requires Strip(line) != []
    ensures DropDash(Strip(line)) == [] || !IsSpace(DropDash(Strip(line))[|DropDash(Strip(line))| - 1])
    ensures ParseCommitLine(line) == ParseCleaned(DropDash(Strip(line)))
  {
    CleanedLineEnd(line, DropDash(Strip(line)));
  }

  /** Stripping `"-" + s` and dropping its dash leaves `s` stripped. */
  lemma DashStripped(s: string)
    ensures Strip("-" + s) != [] && DropDash(Strip("-" + s)) == Strip(s)
  {
    var line := "-" + s;
    RStripCons('-', s);
    assert RStrip(line) == "-" + RStrip(s);
    assert Strip(line) == "-" + RStrip(s);
    assert ("-" + RStrip(s))[1..] == RStrip(s);
  }

  /** The text of a conventional-commit line `prefix(scope): description`. */
  function CommitLine(prefix: string, scope: Option<string>, description: string): string {
    prefix + ScopePart(scope) + ": " + description
  }

  /** What `CommitLine` asks of its pieces: a prefix of ASCII letters, an
      optional non-empty scope without `)`, and a one-line description with no
      white space at either end. */
  predicate ConventionalPieces(prefix: string, scope: Option<string>, description: string) {
    && prefix != [] && (forall i :: 0 <= i < |prefix| ==> IsAsciiLetter(prefix[i]))
    && (scope.Some? ==> scope.value != [] && forall i :: 0 <= i < |scope.value| ==> scope.value[i] != ')')
    && description != [] && !IsSpace(description[0]) && !IsSpace(description[|description| - 1])
    && (forall i :: 0 <= i < |description| ==> description[i] != '\n')
  }

  function ScopePart(scope: Option<string>): string {
    if scope.Some? then "(" + scope.value + ")" else ""
  }

  /** The optional scope group ends just before the colon. */
  lemma ScopeEndOfConventional(prefix: string, scope: Option<string>, description: string, line: string)
    requires ConventionalPieces(prefix, scope, description)
    requires line == CommitLine(prefix, scope, description)
    ensures ScopeEnd(line, |prefix|) == |prefix| + |ScopePart(scope)|
  {
    var n := |prefix|;
    if scope.Some? {
      var sc := scope.value;
      var close := n + 1 + |sc|;
      assert line == prefix + "(" + sc + ")" + ": " + description;
      assert line[n] == '(';
      assert line[close] == ')';
      forall k | n + 1 <= k < close ensures NotCloseParen(line[k]) {
        assert line[k] == sc[k - n - 1];
      }
      SpanIs(line, n + 1, NotCloseParen, close);
    } else {
      assert line == prefix + ": " + description;
      assert line[n] == ':';
    }
  }

  /** The regular expression splits a conventional line back into its prefix and
      its description. */
  lemma MatchConventional(prefix: string, scope: Option<string>, description: string)
    requires ConventionalPieces(prefix, scope, description)
    ensures MatchLine(CommitLine(prefix, scope, description)) == Some((prefix, description))
  {
    var line := CommitLine(prefix, scope, description);
    var n := |prefix|;
    var q := n + |ScopePart(scope)|;
    LettersOfConventional(prefix, scope, description, line);
    ScopeEndOfConventional(prefix, scope, description, line);
    ColonOfConventional(prefix, scope, description, line, q);
    TailOfConventional(description);
    MatchLineFrom(line, n, q, description);
  }

  /** The letter run of a conventional line is exactly its prefix. */
  lemma LettersOfConventional(prefix: string, scope: Option<string>, description: string, line: string)
    requires ConventionalPieces(prefix, scope, description)
    requires line == CommitLine(prefix, scope, description)
    ensures Span(line, 0, IsAsciiLetter) == |prefix| && line[..|prefix|] == prefix
  {
    assert line == prefix + (ScopePart(scope) + ": " + description);
    SpanOverPrefix(prefix, ScopePart(scope) + ": " + description, IsAsciiLetter);
  }

  /** The colon follows the scope with no white space before it. */
  lemma ColonOfConventional(prefix: string, scope: Option<string>, description: string, line: string, q: nat)
    requires line == CommitLine(prefix, scope, description)
    requires q == |prefix| + |ScopePart(scope)|
    ensures q + 1 < |line| && line[q] == ':' && Span(line, q, IsSpace) == q && line[q + 1..] == " " + description
  {
    SuffixAfter(prefix + ScopePart(scope), ": " + description, line);
    ColonThenSpace(line, q, description);
  }

  /** What follows a prefix of a concatenation is the rest of it. */
  lemma SuffixAfter(u: string, t: string, line: string)
    requires line == u + t
    ensures line[|u|..] == t
  {
  }

  /** A colon and a space at `q`: no white space precedes the colon, and the
      space and the description follow it. */
  lemma ColonThenSpace(line: string, q: nat, description: string)
    requires q <= |line| && line[q..] == ": " + description
    ensures q + 1 < |line| && line[q] == ':' && Span(line, q, IsSpace) == q && line[q + 1..] == " " + description
  {
    assert line[q] == line[q..][0];
    assert line[q + 1..] == line[q..][1..];
    SpanIs(line, q, IsSpace, q);
  }

  /** `MatchLine` in terms of its stages: the letter run, the scope, the colon
      and the group after it. */
  lemma MatchLineFrom(s: string, n: nat, q: nat, g: string)
    requires 0 < n && Span(s, 0, IsAsciiLetter) == n
    requires ScopeEnd(s, n) == q && Span(s, q, IsSpace) == q
    requires q < |s| && s[q] == ':'
    requires TailFrom(s[q + 1..], Span(s[q + 1..], 0, IsSpace)) == Some(g)
    ensures MatchLine(s) == Some((s[..n], g))
  {
  }

  /** After the colon, the single space is skipped and the description is the group. */
  lemma TailOfConventional(description: string)
    requires description != [] && !IsSpace(description[0])
    requires forall i :: 0 <= i < |description| ==> description[i] != '\n'
    ensures TailFrom(" " + description, Span(" " + description, 0, IsSpace)) == Some(description)
  {
    var a := " " + description;
    SpanOverPrefix(" ", description, IsSpace);
    assert a[1..] == description;
    SpanOverPrefix(description, [], NotNewline);
    assert description + [] == description;
    assert DotsToEnd(description) == Some(description);
  }

  /** A conventional line parses back to its description and the category of its
      prefix, whatever the prefix's case and whatever the scope, and to nothing
      for a `release` prefix. */
  lemma ParseConventionalLine(prefix: string, scope: Option<string>, description: string)
    requires ConventionalPieces(prefix, scope, description)
    ensures ParseCommitLine(CommitLine(prefix, scope, description))
         == if Lower(prefix) in IgnoredPrefixes then None
            else Some(Change(CategoryOf(Lower(prefix)), description))
  {
    var line := CommitLine(prefix, scope, description);
    assert line[0] == prefix[0];
    assert line[|line| - 1] == description[|description| - 1];
    StripTrimmed(line);
    assert DropDash(line) == line;
    MatchConventional(prefix, scope, description);
    StripTrimmed(description);
  }

  /** Lower-casing any casing of `release` (`Release`, `RELEASE`, ...) gives `release`. */
  lemma LowerOfCasing(prefix: string)
    requires |prefix| == |"release"|
    requires forall i :: 0 <= i < |prefix| ==>
      prefix[i] == "release"[i] || prefix[i] as int + 32 == "release"[i] as int
    ensures Lower(prefix) == "release"
  {
    var r := Lower(prefix);
    forall i | 0 <= i < |prefix| ensures r[i] == "release"[i] {
      assert IsAsciiLetter(prefix[i]);
    }
  }

  /** A conventional line whose prefix is `release` in any case is ignored. */
  lemma ReleaseInAnyCaseIgnored(prefix: string, scope: Option<string>, description: string)
    requires ConventionalPieces(prefix, scope, description)
    requires |prefix| == |"release"|
    requires forall i :: 0 <= i < |prefix| ==>
      prefix[i] == "release"[i] || prefix[i] as int + 32 == "release"[i] as int
    ensures ParseCommitLine(CommitLine(prefix, scope, description)) == None
  {
    LowerOfCasing(prefix);
    ParseConventionalLine(prefix, scope, description);
  }
}
