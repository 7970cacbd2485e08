/**
  `categorize_commits` of misc/factorio_changelog_generator.py: every line of
  every commit that parses contributes its description to the list of its
  category, in a dictionary that keeps its keys in insertion order.
 */
module Categorize {
  import opened Wrappers
  import opened Text
  import opened CommitParse

  /** The `Commit` record of misc/git_utils.py. */
  datatype Commit = Commit(hash: string, subject: string, body: string, date: string)

  /** A dictionary from category to its descriptions; `keys` is its insertion order. */
  datatype Groups = Groups(keys: seq<string>, lists: map<string, seq<string>>)

  /** What a dictionary is: its keys, each once, in insertion order, are its domain. */
  ghost predicate WellFormed(g: Groups) {
    && (forall k :: k in g.lists <==> k in g.keys)
    && (forall i, j :: 0 <= i < j < |g.keys| ==> g.keys[i] != g.keys[j])
  }

  /** A fresh `defaultdict(list)`. */
  const Empty: Groups := Groups([], map[])

  /** `categorized[category].append(description)` on a `defaultdict(list)`: the
      category's list, created empty when missing, grows by the description;
      a new category goes last in the key order; nothing else changes. */
  function Add(g: Groups, c: Change): (r: Groups)
    requires WellFormed(g)
    ensures WellFormed(r)
    ensures c.category in r.lists
    ensures r.lists[c.category] == (if c.category in g.lists then g.lists[c.category] else []) + [c.description]
    ensures r.keys == if c.category in g.lists then g.keys else g.keys + [c.category]
    ensures forall k :: k != c.category ==> (k in r.lists <==> k in g.lists)
    ensures forall k :: k != c.category && k in g.lists ==> r.lists[k] == g.lists[k]
  {
    if c.category in g.lists then
      Groups(g.keys, g.lists[c.category := g.lists[c.category] + [c.description]])
    else
      Groups(g.keys + [c.category], g.lists[c.category := [c.description]])
  }

  /** The lines of one commit that are parsed: its subject, then every line of
      its body when the body is not empty. */
  function CommitLines(c: Commit): seq<string> {
    [c.subject] + (if c.body != [] then Split(c.body, '\n') else [])
  }

  /** The subject comes first; the body lines, one line each, join back into
      the body, and an empty body adds none. */
  lemma CommitLinesShape(c: Commit)
    ensures |CommitLines(c)| >= 1 && CommitLines(c)[0] == c.subject
    ensures c.body == [] ==> |CommitLines(c)| == 1
    ensures c.body != [] ==> Join(CommitLines(c)[1..], "\n") == c.body
    ensures forall k :: 1 <= k < |CommitLines(c)| ==> Free(CommitLines(c)[k], '\n')
  {
    var body := if c.body != [] then Split(c.body, '\n') else [];
    assert CommitLines(c)[1..] == body;
    forall k | 1 <= k < |CommitLines(c)| ensures Free(CommitLines(c)[k], '\n') {
      assert CommitLines(c)[k] == body[k - 1];
    }
  }

  /** The parsed lines of all commits, commit after commit. */
  function AllLines(commits: seq<Commit>): (r: seq<string>)
    ensures |r| >= |commits|
  {
    if commits == [] then []
    else AllLines(commits[..|commits| - 1]) + CommitLines(commits[|commits| - 1])
  }

  /** The changes of the lines that parse, in line order; each one has a known
      category and a stripped, non-empty, one-line description. */
  function ParsedLines(lines: seq<string>): (ps: seq<Change>)
    ensures |ps| <= |lines|
    ensures forall i :: 0 <= i < |ps| ==> Parsed(ps[i])
  {
    if lines == [] then []
    else
      var init := ParsedLines(lines[..|lines| - 1]);
      var r := ParseCommitLine(lines[|lines| - 1]);
      if r.Some? then SnocParsed(init, r.value); init + AsList(r) else init + AsList(r)
  }

  /** The lines of two runs of commits are the lines of the first run, then
      those of the second. */
  lemma {:induction false} AllLinesAppend(a: seq<Commit>, b: seq<Commit>)
    ensures AllLines(a + b) == AllLines(a) + AllLines(b)
  {
    if b == [] {
      assert a + b == a;
    } else {
      var init := b[..|b| - 1];
      var last := b[|b| - 1];
      AllLinesAppend(a, init);
      SnocParts(a, b, init, last);
      AllLinesSnoc(a + b, a + init, last);
      AllLinesSnoc(b, init, last);
      AppendAssoc(AllLines(a), AllLines(init), CommitLines(last));
    }
  }

  lemma AppendAssoc<T>(x: seq<T>, y: seq<T>, z: seq<T>)
    ensures (x + y) + z == x + (y + z)
  {
  }

  lemma SnocParts<T>(a: seq<T>, b: seq<T>, init: seq<T>, last: T)
    requires b != [] && init == b[..|b| - 1] && last == b[|b| - 1]
    ensures (a + b)[..|a + b| - 1] == a + init && (a + b)[|a + b| - 1] == last
  {
  }

  lemma AllLinesSnoc(commits: seq<Commit>, init: seq<Commit>, last: Commit)
    requires commits != [] && init == commits[..|commits| - 1] && last == commits[|commits| - 1]
    ensures AllLines(commits) == AllLines(init) + CommitLines(last)
  {
  }

  /** `ys` is what is left of `xs` once `f` is applied to every element and the
      elements it maps to nothing are dropped: `idx` lists, in increasing order,
      the elements that `f` maps to something, and `ys[j]` is what `f` maps
      element `idx[j]` to. */
  ghost predicate Picks<A, B>(xs: seq<A>, ys: seq<B>, idx: seq<int>, f: A -> Option<B>) {
    && |idx| == |ys|
    && (forall j :: 0 <= j < |idx| ==> 0 <= idx[j] < |xs| && f(xs[idx[j]]) == Some(ys[j]))
    && (forall j, k :: 0 <= j < k < |idx| ==> idx[j] < idx[k])
    && (forall i :: 0 <= i < |xs| && f(xs[i]).Some? ==> i in idx)
  }

  /** The changes are those of the lines that parse, each once, in line order,
      and no line that parses is skipped. */
  lemma ParsedLinesPicks(lines: seq<string>)
    ensures exists idx :: Picks(lines, ParsedLines(lines), idx, ParseCommitLine)
  {
    ParsedLinesIsFilterMap(lines);
    FilterMapPicks(lines, ParseCommitLine);
    var idx :| Picks(lines, FilterMap(lines, ParseCommitLine), idx, ParseCommitLine);
    assert Picks(lines, ParsedLines(lines), idx, ParseCommitLine);
  }

  /** `f` applied to every element, keeping what it maps to. */
  function FilterMap<A, B>(xs: seq<A>, f: A -> Option<B>): seq<B> {
    if xs == [] then [] else FilterMap(xs[..|xs| - 1], f) + AsList(f(xs[|xs| - 1]))
  }

  /** Parsing the lines is the filter-map of the parser. */
  lemma {:induction false} ParsedLinesIsFilterMap(lines: seq<string>)
    ensures ParsedLines(lines) == FilterMap(lines, ParseCommitLine)
  {
    if lines != [] {
      ParsedLinesIsFilterMap(lines[..|lines| - 1]);
    }
  }

  /** A filter-map keeps, in order, exactly the elements that `f` maps to something. */
  lemma {:induction false} FilterMapPicks<A, B>(xs: seq<A>, f: A -> Option<B>)
    ensures exists idx :: Picks(xs, FilterMap(xs, f), idx, f)
  {
    if xs == [] {
      assert Picks(xs, FilterMap(xs, f), [], f);
    } else {
      var init := xs[..|xs| - 1];
      var x := xs[|xs| - 1];
      FilterMapPicks(init, f);
      var idx :| Picks(init, FilterMap(init, f), idx, f);
      InitLast(xs);
      var idx' := PicksSnoc(init, x, xs, FilterMap(init, f), FilterMap(xs, f), idx, f);
    }
  }

  /** One more element: what `f` maps it to, if anything, is picked at its index. */
  lemma PicksSnoc<A, B>(xs: seq<A>, x: A, xs': seq<A>, ys: seq<B>, ys': seq<B>, idx: seq<int>, f: A -> Option<B>)
    returns (idx': seq<int>)
    requires Picks(xs, ys, idx, f)
    requires xs' == xs + [x] && ys' == ys + AsList(f(x))
    ensures Picks(xs', ys', idx', f)
  {
    assert forall i :: 0 <= i < |xs| ==> xs'[i] == xs[i];
    assert xs'[|xs|] == x;
    if f(x).Some? {
      idx' := idx + [|xs|];
      assert forall j :: 0 <= j < |idx| ==> idx'[j] == idx[j];
      assert forall j :: 0 <= j < |ys| ==> (ys + [f(x).value])[j] == ys[j];
    } else {
      idx' := idx;
      assert ys + [] == ys;
    }
  }

  /** The change of a parsed line as a list of zero or one change. */
  function AsList<T>(r: Option<T>): seq<T> {
    if r.Some? then [r.value] else []
  }

  lemma SnocParsed(ps: seq<Change>, p: Change)
    requires forall i :: 0 <= i < |ps| ==> Parsed(ps[i])
    requires Parsed(p)
    ensures forall i :: 0 <= i < |ps + [p]| ==> Parsed((ps + [p])[i])
  {
    assert forall i :: 0 <= i < |ps| ==> (ps + [p])[i] == ps[i];
  }

  /** What `parse_commit_line` promises of a change it returns. */
  predicate Parsed(p: Change) {
    p.category in CategoryValues && p.description != [] && Strip(p.description) == p.description
  }

  /** The dictionary built by appending every change in turn. */
  function GroupAll(ps: seq<Change>): (g: Groups)
    ensures WellFormed(g)
  {
    if ps == [] then Empty else Add(GroupAll(ps[..|ps| - 1]), ps[|ps| - 1])
  }

  /** `categorize_commits(commits)`: the loop over commits, parsing each
      subject and then, when the body is not empty, each line of the body. */
  method CategorizeCommits(commits: seq<Commit>) returns (categorized: Groups)
    ensures categorized == GroupAll(ParsedLines(AllLines(commits)))
  {
    categorized := Empty;
    ghost var seen: seq<string> := [];
    for i := 0 to |commits|
      invariant seen == AllLines(commits[..i])
      invariant categorized == GroupAll(ParsedLines(seen))
    {
      categorized := CategorizeCommit(categorized, commits[i], seen);
      seen := seen + CommitLines(commits[i]);
      AllLinesStep(commits, i);
    }
    assert commits[..|commits|] == commits;
  }

  /** The body of the loop of `categorize_commits` for one commit: its subject
      is parsed, then, when its body is not empty, each line of its body. */
  method CategorizeCommit(categorized0: Groups, commit: Commit, ghost seen0: seq<string>)
    returns (categorized: Groups)
    requires categorized0 == GroupAll(ParsedLines(seen0))
    ensures categorized == GroupAll(ParsedLines(seen0 + CommitLines(commit)))
  {
    categorized := categorized0;
    var result := ParseCommitLine(commit.subject);
    LineStep(seen0, commit.subject);
    GroupStep(ParsedLines(seen0), result, categorized);
    if result.Some? {
      categorized := Add(categorized, result.value);
    }
    ghost var seen := seen0 + [commit.subject];
    if commit.body != [] {
      categorized := CategorizeLines(categorized, Split(commit.body, '\n'), seen);
      seen := seen + Split(commit.body, '\n');
    } else {
      assert seen == seen + [];
    }
    SeenAfterCommit(seen0, commit, seen);
  }

  /** The inner loop of `categorize_commits` over the lines of one body: each
      line that parses is appended to the dictionary built from `seen`. */
  method CategorizeLines(categorized0: Groups, lines: seq<string>, ghost seen0: seq<string>)
    returns (categorized: Groups)
    requires categorized0 == GroupAll(ParsedLines(seen0))
    ensures categorized == GroupAll(ParsedLines(seen0 + lines))
  {
    categorized := categorized0;
    ghost var seen := seen0;
    for j := 0 to |lines|
      invariant seen == seen0 + lines[..j]
      invariant categorized == GroupAll(ParsedLines(seen))
    {
      var result := ParseCommitLine(lines[j]);
      LineStep(seen, lines[j]);
      GroupStep(ParsedLines(seen), result, categorized);
      if result.Some? {
        categorized := Add(categorized, result.value);
      }
      PrefixStep(seen0, lines, j);
      seen := seen + [lines[j]];
    }
    assert lines[..|lines|] == lines;
  }

  /** Parsing one more line appends its change, if any. */
  lemma LineStep(seen: seq<string>, x: string)
    ensures ParsedLines(seen + [x]) == ParsedLines(seen) + AsList(ParseCommitLine(x))
  {
    assert (seen + [x])[..|seen|] == seen;
  }

  /** Grouping one more change, if any, adds it to the dictionary. */
  lemma GroupStep(ps: seq<Change>, r: Option<Change>, g: Groups)
    requires g == GroupAll(ps)
    ensures GroupAll(ps + AsList(r)) == if r.Some? then Add(g, r.value) else g
  {
    if r.Some? {
      assert (ps + [r.value])[..|ps|] == ps;
    } else {
      assert ps + [] == ps;
    }
  }

  /** One more element of `xs` after `base`. */
  lemma PrefixStep(base: seq<string>, xs: seq<string>, j: nat)
    requires j < |xs|
    ensures base + xs[..j] + [xs[j]] == base + xs[..j + 1]
  {
    PrefixSnoc(xs, j);
  }

  /** Having gone through the subject and the body lines of a commit. */
  lemma SeenAfterCommit(before: seq<string>, c: Commit, seen: seq<string>)
    requires seen == before + [c.subject] + if c.body != [] then Split(c.body, '\n') else []
    ensures seen == before + CommitLines(c)
  {
  }

  /** The lines of the first `i + 1` commits. */
  lemma AllLinesStep(commits: seq<Commit>, i: nat)
    requires i < |commits|
    ensures AllLines(commits[..i + 1]) == AllLines(commits[..i]) + CommitLines(commits[i])
  {
    PrefixSnoc(commits, i);
  }

  // ---------------------------------------------------------------------------
  // What the dictionary holds, stated against the list of changes
  // ---------------------------------------------------------------------------

  /** The descriptions of the changes in one category, in order. */
  function DescriptionsOf(ps: seq<Change>, category: string): (ds: seq<string>)
    ensures |ds| <= |ps|
    ensures ds == [] <==> forall i :: 0 <= i < |ps| ==> ps[i].category != category
  {
    if ps == [] then []
    else
      var init := DescriptionsOf(ps[..|ps| - 1], category);
      assert forall i :: 0 <= i < |ps| - 1 ==> ps[..|ps| - 1][i] == ps[i];
      if ps[|ps| - 1].category == category then init + [ps[|ps| - 1].description] else init
  }

  /** A category is a key exactly when some change has it, and its list is the
      descriptions of that category's changes in their original order; so no
      list is empty. */
  lemma {:induction false} GroupAllLists(ps: seq<Change>)
    ensures forall c :: c in GroupAll(ps).lists <==> DescriptionsOf(ps, c) != []
    ensures forall c :: c in GroupAll(ps).lists ==> GroupAll(ps).lists[c] == DescriptionsOf(ps, c)
  {
    if ps != [] {
      GroupAllLists(ps[..|ps| - 1]);
    }
  }

  /** The index of the first change in a category, or `|ps|` when there is none. */
  function FirstIndex(ps: seq<Change>, category: string): (r: nat)
    ensures r <= |ps|
    ensures r < |ps| ==> ps[r].category == category
    ensures forall i :: 0 <= i < r ==> ps[i].category != category
  {
    if ps == [] then 0
    else if ps[0].category == category then 0
    else 1 + FirstIndex(ps[1..], category)
  }

  /** One more change leaves the first index of every earlier category alone. */
  lemma FirstIndexSnoc(ps: seq<Change>, p: Change, category: string)
    requires FirstIndex(ps, category) < |ps|
    ensures FirstIndex(ps + [p], category) == FirstIndex(ps, category)
  {
    var r := FirstIndex(ps, category);
    var s := FirstIndex(ps + [p], category);
    assert (ps + [p])[r] == ps[r];
  }

  /** The keys are in the order in which their categories first occur. */
  lemma {:induction false} KeysInFirstOccurrenceOrder(ps: seq<Change>)
    ensures FirstOccurrenceOrdered(ps, GroupAll(ps).keys)
  {
    if ps != [] {
      var init := ps[..|ps| - 1];
      var p := ps[|ps| - 1];
      assert ps == init + [p];
      KeysInFirstOccurrenceOrder(init);
      GroupAllLists(init);
      KeysOrderStep(init, p, GroupAll(init), ps);
    }
  }

  /** Every key occurs in `ps`, and the keys are ordered by their first occurrence. */
  ghost predicate FirstOccurrenceOrdered(ps: seq<Change>, keys: seq<string>) {
    && (forall i :: 0 <= i < |keys| ==> FirstIndex(ps, keys[i]) < |ps|)
    && (forall i, j :: 0 <= i < j < |keys| ==> FirstIndex(ps, keys[i]) < FirstIndex(ps, keys[j]))
  }

  /** Adding one change keeps the keys ordered by first occurrence. */
  lemma KeysOrderStep(ps: seq<Change>, p: Change, g: Groups, ps': seq<Change>)
    requires WellFormed(g) && FirstOccurrenceOrdered(ps, g.keys)
    requires forall c :: c !in g.lists ==> forall i :: 0 <= i < |ps| ==> ps[i].category != c
    requires ps' == ps + [p]
    ensures FirstOccurrenceOrdered(ps', Add(g, p).keys)
  {
    forall i | 0 <= i < |g.keys|
      ensures FirstIndex(ps + [p], g.keys[i]) == FirstIndex(ps, g.keys[i])
    {
      FirstIndexSnoc(ps, p, g.keys[i]);
    }
    if p.category !in g.lists {
      FirstIndexNew(ps, p);
      var keys := g.keys + [p.category];
      assert forall i :: 0 <= i < |g.keys| ==> keys[i] == g.keys[i];
    }
  }

  /** A category that first occurs in the last change has that change's index. */
  lemma FirstIndexNew(ps: seq<Change>, p: Change)
    requires forall i :: 0 <= i < |ps| ==> ps[i].category != p.category
    ensures FirstIndex(ps + [p], p.category) == |ps|
  {
    assert (ps + [p])[|ps|] == p;
    assert forall i :: 0 <= i < |ps| ==> (ps + [p])[i] == ps[i];
  }

  /** Sum of the list lengths over some keys. */
  function SumLengths(keys: seq<string>, lists: map<string, seq<string>>): nat
    requires forall k :: k in keys ==> k in lists
  {
    if keys == [] then 0
    else SumLengths(keys[..|keys| - 1], lists) + |lists[keys[|keys| - 1]]|
  }

  /** The number of descriptions the dictionary holds. */
  function Size(g: Groups): nat
    requires WellFormed(g)
  {
    SumLengths(g.keys, g.lists)
  }

  /** Changing the lists outside some keys does not change their sum. */
  lemma {:induction false} SumLengthsFrame(keys: seq<string>, m: map<string, seq<string>>, m': map<string, seq<string>>)
    requires forall k :: k in keys ==> k in m && k in m' && m[k] == m'[k]
    ensures SumLengths(keys, m) == SumLengths(keys, m')
  {
    if keys != [] {
      SumLengthsFrame(keys[..|keys| - 1], m, m');
    }
  }

  /** One more element in the list of a key that occurs once adds one to the sum. */
  lemma {:induction false} SumLengthsBump(keys: seq<string>, m: map<string, seq<string>>, c: string, d: string)
    requires forall k :: k in keys ==> k in m
    requires forall i, j :: 0 <= i < j < |keys| ==> keys[i] != keys[j]
    requires c in keys
    ensures SumLengths(keys, m[c := m[c] + [d]]) == SumLengths(keys, m) + 1
  {
    var init := keys[..|keys| - 1];
    var m' := m[c := m[c] + [d]];
    if keys[|keys| - 1] == c {
      assert c !in init;
      SumLengthsFrame(init, m, m');
    } else {
      assert c in init;
      SumLengthsBump(init, m, c, d);
    }
  }

  /** The dictionary holds exactly as many descriptions as there are changes. */
  lemma {:induction false} SizeIsCount(ps: seq<Change>)
    ensures Size(GroupAll(ps)) == |ps|
  {
    if ps != [] {
      var init := ps[..|ps| - 1];
      var p := ps[|ps| - 1];
      SizeIsCount(init);
      var g := GroupAll(init);
      if p.category in g.lists {
        SumLengthsBump(g.keys, g.lists, p.category, p.description);
      } else {
        var m' := g.lists[p.category := [p.description]];
        SumLengthsFrame(g.keys, g.lists, m');
        assert (g.keys + [p.category])[..|g.keys|] == g.keys;
      }
    }
  }

  /** What `categorize_commits` returns: one non-empty list per category that
      occurs, holding that category's descriptions in line order (every
      commit's subject before its body lines), as many descriptions in all as
      there are lines that parse, keyed only by `CATEGORY_MAP` values. */
  lemma CategorizedCommits(commits: seq<Commit>)
    ensures var ps := ParsedLines(AllLines(commits));
      var g := GroupAll(ps);
      && Size(g) == |ps|
      && (forall c :: c in g.lists ==> g.lists[c] != [] && g.lists[c] == DescriptionsOf(ps, c))
      && (forall c :: c in g.lists ==> c in CategoryValues)
  {
    var ps := ParsedLines(AllLines(commits));
    SizeIsCount(ps);
    GroupAllLists(ps);
    forall c | c in GroupAll(ps).lists ensures c in CategoryValues {
      var i :| 0 <= i < |ps| && ps[i].category == c;
      assert Parsed(ps[i]);
    }
  }
}
