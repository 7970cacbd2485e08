/**
  `format_changelog_entry` of misc/factorio_changelog_generator.py: the header
  of one changelog version, then every category in canonical order with its
  entries word-wrapped at 80 columns, joined by newlines. Also the version
  string derived from a release tag.
 */
module ChangelogEntry {
  import opened Wrappers
  import opened Text
  import opened CommitParse
  import opened Categorize

  // ---------------------------------------------------------------------------
  // Header
  // ---------------------------------------------------------------------------

  /** The separator line, `"-" * 99`. */
  const Rule: string := Dashes(99)

  /** `"-" * n`. */
  function Dashes(n: nat): string {
    seq(n, _ => '-')
  }

  /** The date as the header shows it: `datetime.fromisoformat` of the first
      word of the date and `strftime("%d.%m.%Y")` are the parameter `parseDate`,
      `None` where they raise; a blank date raises `IndexError`. */
  function ShownDate(date: string, parseDate: string -> Option<string>): Option<string> {
    if date == [] then None
    else
      var ws := Words(date);
      if ws == [] then None else parseDate(ws[0])
  }

  /** The header: the rule, the version, the date when there is one, a blank line. */
  function HeaderLines(version: string, date: string, parseDate: string -> Option<string>): seq<string> {
    [Rule, "Version: " + version]
    + (match ShownDate(date, parseDate) case Some(d) => ["Date: " + d] case None => [])
    + [""]
  }

  // ---------------------------------------------------------------------------
  // Category order
  // ---------------------------------------------------------------------------

  /** No string occurs twice. */
  predicate Distinct(xs: seq<string>) {
    forall i, j :: 0 <= i < j < |xs| ==> xs[i] != xs[j]
  }

  /** The elements of `xs` that satisfy `keep`, in order. */
  function Filter(xs: seq<string>, keep: string -> bool): (r: seq<string>)
    ensures |r| <= |xs|
    ensures forall i :: 0 <= i < |r| ==> r[i] in xs && keep(r[i])
    ensures forall x :: x in xs && keep(x) ==> x in r
  {
    if xs == [] then []
    else
      var init := Filter(xs[..|xs| - 1], keep);
      assert xs == xs[..|xs| - 1] + [xs[|xs| - 1]];
      if keep(xs[|xs| - 1]) then init + [xs[|xs| - 1]] else init
  }

  /** The order the categories are written in: the values of `CATEGORY_MAP`
      that are keys, in the map's order, then the other keys in insertion order. */
  function CategoryOrder(g: Groups): seq<string> {
    Filter(CategoryValues, IsKey(g)) + Filter(g.keys, IsUnlisted)
  }

  /** Whether a category is a key of the dictionary. */
  function IsKey(g: Groups): string -> bool {
    c => c in g.lists
  }

  /** Whether a category is not a value of `CATEGORY_MAP`. */
  predicate IsUnlisted(c: string) {
    c !in CategoryValues
  }

  /** The two loops that build `sorted_categories`: the values of
      `CATEGORY_MAP` that are keys, then every key not yet in the list (the
      second loop tests membership in the list built so far, as the source
      does). */
  method SortCategories(categories: Groups) returns (sorted: seq<string>)
    requires WellFormed(categories)
    ensures sorted == CategoryOrder(categories)
  {
    sorted := ListedCategories(categories);
    ghost var first := sorted;
    for i := 0 to |categories.keys|
      invariant sorted == first + Filter(categories.keys[..i], IsUnlisted)
    {
      var cat := categories.keys[i];
      FilterStep(categories.keys, IsUnlisted, i);
      SeenIffKnown(categories, first, i, sorted);
      Associative(first, Filter(categories.keys[..i], IsUnlisted), [cat]);
      if cat !in sorted {
        sorted := sorted + [cat];
      }
    }
    assert categories.keys[..|categories.keys|] == categories.keys;
  }

  /** The first loop of the sort: the values of `CATEGORY_MAP`, in order, that
      are keys of the dictionary. */
  method ListedCategories(categories: Groups) returns (sorted: seq<string>)
    ensures sorted == Filter(CategoryValues, IsKey(categories))
  {
    sorted := [];
    for i := 0 to |CategoryValues|
      invariant sorted == Filter(CategoryValues[..i], IsKey(categories))
    {
      var cat := CategoryValues[i];
      FilterStep(CategoryValues, IsKey(categories), i);
      if cat in categories.lists {
        sorted := sorted + [cat];
      }
    }
    assert CategoryValues[..|CategoryValues|] == CategoryValues;
  }

  /** One more element of `xs` considered by a filter. */
  lemma FilterStep(xs: seq<string>, keep: string -> bool, i: nat)
    requires i < |xs|
    ensures keep(xs[i]) ==> Filter(xs[..i + 1], keep) == Filter(xs[..i], keep) + [xs[i]]
    ensures !keep(xs[i]) ==> Filter(xs[..i + 1], keep) == Filter(xs[..i], keep)
  {
    PrefixSnoc(xs, i);
  }

  /** In the second loop, the key at hand is already in the list exactly when
      it is one of the map's values: keys are distinct, so it cannot have been
      added by the second loop. */
  lemma SeenIffKnown(g: Groups, first: seq<string>, i: nat, sorted: seq<string>)
    requires WellFormed(g) && i < |g.keys|
    requires first == Filter(CategoryValues, IsKey(g))
    requires sorted == first + Filter(g.keys[..i], IsUnlisted)
    ensures g.keys[i] in sorted <==> g.keys[i] in CategoryValues
  {
    var k := g.keys[i];
    if k in CategoryValues {
      assert k in first;
    }
  }

  /** The first position of `x` in `xs`. */
  function IndexOf(xs: seq<string>, x: string): (i: nat)
    requires x in xs
    ensures i < |xs| && xs[i] == x
    ensures forall k :: 0 <= k < i ==> xs[k] != x
  {
    if xs[0] == x then 0 else 1 + IndexOf(xs[1..], x)
  }

  /** One more element leaves the position of an earlier one alone. */
  lemma IndexOfSnoc(xs: seq<string>, x: string, y: string)
    requires y in xs
    ensures IndexOf(xs + [x], y) == IndexOf(xs, y)
  {
    assert (xs + [x])[IndexOf(xs, y)] == y;
  }

  /** A filter of distinct elements keeps their order. */
  lemma {:induction false} FilterOrder(xs: seq<string>, keep: string -> bool)
    requires Distinct(xs)
    ensures forall i, j :: 0 <= i < j < |Filter(xs, keep)| ==>
      IndexOf(xs, Filter(xs, keep)[i]) < IndexOf(xs, Filter(xs, keep)[j])
  {
    if xs != [] {
      var init := xs[..|xs| - 1];
      var x := xs[|xs| - 1];
      assert xs == init + [x];
      assert Distinct(init);
      FilterOrder(init, keep);
      var r0 := Filter(init, keep);
      var r := Filter(xs, keep);
      assert r == if keep(x) then r0 + [x] else r0;
      forall i, j | 0 <= i < j < |r| ensures IndexOf(xs, r[i]) < IndexOf(xs, r[j]) {
        assert r[i] == r0[i] && r0[i] in init;
        IndexOfSnoc(init, x, r0[i]);
        if j < |r0| {
          assert r[j] == r0[j] && r0[j] in init;
          IndexOfSnoc(init, x, r0[j]);
          assert IndexOf(init, r0[i]) < IndexOf(init, r0[j]);
        } else {
          assert r[j] == x;
          assert x !in init;
          assert IndexOf(xs, x) == |init|;
        }
      }
    }
  }

  /** The values of `CATEGORY_MAP` are distinct. */
  lemma CategoryValuesDistinct()
    ensures Distinct(CategoryValues)
  {
    ValuesDistinctBetween(0, 10, 0, 10);
    ValuesDistinctBetween(0, 10, 10, 20);
    ValuesDistinctBetween(10, 20, 10, 20);
  }

  /** Distinctness of the values, one block of index pairs at a time. */
  lemma ValuesDistinctBetween(lo: nat, hi: nat, lo': nat, hi': nat)
    requires (lo, hi, lo', hi') in {(0, 10, 0, 10), (0, 10, 10, 20), (10, 20, 10, 20)}
    ensures forall j, k :: lo <= j < hi && lo' <= k < hi' && j < k ==> CategoryMap[j].1 != CategoryMap[k].1
  {
  }

  /** Where a category goes: a value of `CATEGORY_MAP` by its position in the
      map, any other key after all of them, by its insertion position. */
  function Rank(g: Groups, c: string): nat
    requires c in CategoryValues || c in g.keys
  {
    if c in CategoryValues then IndexOf(CategoryValues, c) else |CategoryValues| + IndexOf(g.keys, c)
  }

  /** Every category of the dictionary is written exactly once and nothing else
      is: the order lists the keys by strictly increasing rank, so values of
      `CATEGORY_MAP` come first in the map's order and the rest follow in
      insertion order. */
  lemma CategoryOrderRanked(g: Groups)
    requires WellFormed(g)
    ensures forall c :: c in CategoryOrder(g) <==> c in g.lists
    ensures forall i :: 0 <= i < |CategoryOrder(g)| ==> CategoryOrder(g)[i] in g.keys
    ensures forall i, j :: 0 <= i < j < |CategoryOrder(g)| ==>
      Rank(g, CategoryOrder(g)[i]) < Rank(g, CategoryOrder(g)[j])
    ensures Distinct(CategoryOrder(g))
  {
    var known := Filter(CategoryValues, IsKey(g));
    var unknown := Filter(g.keys, IsUnlisted);
    var order := known + unknown;
    KnownRanks(g, known);
    UnknownRanks(g, unknown);
    forall c ensures c in order <==> c in g.lists {
      if c in g.lists && c !in CategoryValues {
        assert c in unknown;
      }
    }
    RankedConcat(g, known, unknown);
  }

  /** Listing the known categories, ranked below every other, before the others
      keeps the ranks strictly increasing. */
  lemma RankedConcat(g: Groups, known: seq<string>, unknown: seq<string>)
    requires forall i :: 0 <= i < |known| ==> known[i] in g.keys && Rank(g, known[i]) < |CategoryValues|
    requires forall i, j :: 0 <= i < j < |known| ==> Rank(g, known[i]) < Rank(g, known[j])
    requires forall i :: 0 <= i < |unknown| ==> unknown[i] in g.keys && Rank(g, unknown[i]) >= |CategoryValues|
    requires forall i, j :: 0 <= i < j < |unknown| ==> Rank(g, unknown[i]) < Rank(g, unknown[j])
    ensures forall i :: 0 <= i < |known + unknown| ==> (known + unknown)[i] in g.keys
    ensures forall i, j :: 0 <= i < j < |known + unknown| ==>
      Rank(g, (known + unknown)[i]) < Rank(g, (known + unknown)[j])
  {
    var order := known + unknown;
    forall i | 0 <= i < |order| ensures order[i] in g.keys {
      ConcatAt(known, unknown, i);
    }
    forall i, j | 0 <= i < j < |order| ensures Rank(g, order[i]) < Rank(g, order[j]) {
      ConcatAt(known, unknown, i);
      ConcatAt(known, unknown, j);
    }
  }

  /** An element of a concatenation comes from one of its two parts. */
  lemma ConcatAt(a: seq<string>, b: seq<string>, i: nat)
    requires i < |a| + |b|
    ensures (a + b)[i] == if i < |a| then a[i] else b[i - |a|]
  {
  }

  /** The values of `CATEGORY_MAP` that are keys come in the map's order, and
      rank below every other key. */
  lemma KnownRanks(g: Groups, known: seq<string>)
    requires WellFormed(g) && known == Filter(CategoryValues, IsKey(g))
    ensures && (forall i :: 0 <= i < |known| ==> known[i] in g.keys && Rank(g, known[i]) < |CategoryValues|)
      && (forall i, j :: 0 <= i < j < |known| ==> Rank(g, known[i]) < Rank(g, known[j]))
  {
    CategoryValuesDistinct();
    FilterOrder(CategoryValues, IsKey(g));
  }

  /** The other keys come in insertion order, ranked after the values. */
  lemma UnknownRanks(g: Groups, unknown: seq<string>)
    requires WellFormed(g) && unknown == Filter(g.keys, IsUnlisted)
    ensures && (forall i :: 0 <= i < |unknown| ==> unknown[i] in g.keys && Rank(g, unknown[i]) >= |CategoryValues|)
      && (forall i, j :: 0 <= i < j < |unknown| ==> Rank(g, unknown[i]) < Rank(g, unknown[j]))
  {
    FilterOrder(g.keys, IsUnlisted);
    forall i | 0 <= i < |unknown| ensures Rank(g, unknown[i]) == |CategoryValues| + IndexOf(g.keys, unknown[i]) {
      assert IsUnlisted(unknown[i]);
    }
  }

  // ---------------------------------------------------------------------------
  // Word wrap
  // ---------------------------------------------------------------------------

  /** The width of a line holding these words after its six-character prefix. */
  function Width(line: seq<string>): nat {
    6 + |Join(line, " ")|
  }

  /** The greedy wrap of the words: each word joins the last line while that
      line stays within 80 columns, and starts a new line otherwise. */
  function Wrap(words: seq<string>): (lines: seq<seq<string>>)
    ensures lines == [] <==> words == []
  {
    if words == [] then [] else Place(Wrap(words[..|words| - 1]), words[|words| - 1])
  }

  /** One step of the greedy wrap: `w` joins the last line when the line stays
      within 80 columns, and starts a new line otherwise. */
  function Place(lines: seq<seq<string>>, w: string): (r: seq<seq<string>>)
    ensures r != []
  {
    if lines == [] then [[w]]
    else if Width(lines[|lines| - 1]) + |w| + 1 <= 80 then lines[..|lines| - 1] + [lines[|lines| - 1] + [w]]
    else lines + [[w]]
  }

  /** The prefix of the line at index `k` of an entry. */
  function Prefix(k: nat): string {
    if k == 0 then "    - " else "      "
  }

  /** The text lines of a wrapped entry. */
  function Render(lines: seq<seq<string>>): seq<string> {
    seq(|lines|, k requires 0 <= k < |lines| => Prefix(k) + Join(lines[k], " "))
  }

  /** The lines of one entry: `entry.split()` wrapped and rendered. */
  function EntryText(entry: string): seq<string> {
    Render(Wrap(Words(entry)))
  }

  /** The wrap loop of `format_changelog_entry` for one entry. `currentLength`
      is the width of the line being built. */
  method WrapEntry(entry: string) returns (out: seq<string>)
    ensures out == EntryText(entry)
  {
    var words := Words(entry);
    var currentLine: seq<string> := [];
    var currentLength := 0;
    var isFirstLine := true;
    out := [];
    ghost var done: seq<seq<string>> := [];
    for i := 0 to |words|
      invariant Wrap(words[..i]) == Pending(done, currentLine)
      invariant currentLine == [] ==> done == []
      invariant currentLine != [] ==> currentLength == Width(currentLine)
      invariant isFirstLine <==> done == []
      invariant out == Render(done)
    {
      WrapSnoc(words, i);
      currentLine, currentLength, isFirstLine, out, done :=
        AddWord(words[i], currentLine, currentLength, isFirstLine, out, done);
    }
    assert words[..|words|] == words;
    if currentLine != [] {
      RenderSnoc(done, currentLine);
      if isFirstLine {
        out := out + ["    - " + Join(currentLine, " ")];
      } else {
        out := out + ["      " + Join(currentLine, " ")];
      }
      done := done + [currentLine];
    }
  }

  /** One iteration of the wrap loop: the word joins the line being built when it
      fits within 80 columns; otherwise the line is written out, with the `- `
      marker if it is the entry's first, and the word starts the next line. */
  method AddWord(word: string, currentLine: seq<string>, currentLength: int, isFirstLine: bool,
                 out: seq<string>, ghost done: seq<seq<string>>)
    returns (currentLine': seq<string>, currentLength': int, isFirstLine': bool,
             out': seq<string>, ghost done': seq<seq<string>>)
    requires currentLine == [] ==> done == []
    requires currentLine != [] ==> currentLength == Width(currentLine)
    requires isFirstLine <==> done == []
    requires out == Render(done)
    ensures Pending(done', currentLine') == Place(Pending(done, currentLine), word)
    ensures currentLine' != [] && currentLength' == Width(currentLine')
    ensures isFirstLine' <==> done' == []
    ensures out' == Render(done')
  {
    var wordLength := |word| + 1;
    currentLine', currentLength', isFirstLine', out', done' := currentLine, currentLength, isFirstLine, out, done;
    if currentLine == [] {
      currentLine' := [word];
      if isFirstLine {
        currentLength' := 6 + |word|;
      } else {
        currentLength' := 6 + |word|;
      }
    } else if currentLength + wordLength <= 80 {
      PlaceFitting(done, currentLine, word);
      currentLine' := currentLine + [word];
      currentLength' := currentLength + wordLength;
    } else {
      PlaceOverflowing(done, currentLine, word);
      RenderSnoc(done, currentLine);
      if isFirstLine {
        out' := out + ["    - " + Join(currentLine, " ")];
        isFirstLine' := false;
      } else {
        out' := out + ["      " + Join(currentLine, " ")];
      }
      done' := done + [currentLine];
      currentLine' := [word];
      currentLength' := 6 + |word|;
    }
  }

  /** The finished lines followed by the line being built, if it has a word. */
  ghost function Pending(done: seq<seq<string>>, current: seq<string>): seq<seq<string>> {
    done + if current == [] then [] else [current]
  }

  /** The wrap of one more word is one more `Place` step. */
  lemma WrapSnoc(words: seq<string>, i: nat)
    requires i < |words|
    ensures Wrap(words[..i + 1]) == Place(Wrap(words[..i]), words[i])
  {
    PrefixSnoc(words, i);
  }

  /** A word that fits joins the line being built. */
  lemma PlaceFitting(done: seq<seq<string>>, current: seq<string>, w: string)
    requires current != [] && Width(current) + |w| + 1 <= 80
    ensures Place(Pending(done, current), w) == Pending(done, current + [w])
    ensures Width(current + [w]) == Width(current) + |w| + 1
  {
    var lines := done + [current];
    assert lines[..|lines| - 1] == done;
    JoinSnoc(current, w, " ");
  }

  /** A word that does not fit finishes the line being built and starts the next. */
  lemma PlaceOverflowing(done: seq<seq<string>>, current: seq<string>, w: string)
    requires current != [] && Width(current) + |w| + 1 > 80
    ensures Place(Pending(done, current), w) == Pending(done + [current], [w])
  {
  }

  /** Rendering one more line appends it with the prefix of its position. */
  lemma RenderSnoc(lines: seq<seq<string>>, line: seq<string>)
    ensures Render(lines + [line]) == Render(lines) + [Prefix(|lines|) + Join(line, " ")]
  {
  }

  /** All the words of the lines, in order. */
  function Flatten(lines: seq<seq<string>>): seq<string> {
    if lines == [] then [] else Flatten(lines[..|lines| - 1]) + lines[|lines| - 1]
  }

  /** The words of the wrapped lines are the words of the entry, in order. */
  lemma {:induction false} WrapKeepsWords(words: seq<string>)
    ensures Flatten(Wrap(words)) == words
  {
    if words != [] {
      var init := words[..|words| - 1];
      WrapKeepsWords(init);
      PlaceKeepsWords(Wrap(init), words[|words| - 1]);
      assert init + [words[|words| - 1]] == words;
    }
  }

  lemma PlaceKeepsWords(lines: seq<seq<string>>, w: string)
    ensures Flatten(Place(lines, w)) == Flatten(lines) + [w]
  {
    if lines != [] {
      var last := lines[|lines| - 1];
      var front := lines[..|lines| - 1];
      assert lines == front + [last];
      if Width(last) + |w| + 1 <= 80 {
        assert (front + [last + [w]])[..|front|] == front;
      } else {
        assert (lines + [[w]])[..|lines|] == lines;
      }
    }
  }

  /** No line is empty, and a line of two or more words fits in 80 columns. */
  ghost predicate Fits(lines: seq<seq<string>>) {
    forall k :: 0 <= k < |lines| ==> lines[k] != [] && (|lines[k]| >= 2 ==> Width(lines[k]) <= 80)
  }

  /** No wrapped line is empty, and a line of two or more words fits in 80
      columns (a single word longer than that gets a line of its own). */
  lemma {:induction false} WrapFits(words: seq<string>)
    ensures forall k :: 0 <= k < |Wrap(words)| ==> Wrap(words)[k] != []
    ensures forall k :: 0 <= k < |Wrap(words)| && |Wrap(words)[k]| >= 2 ==> Width(Wrap(words)[k]) <= 80
  {
    if words != [] {
      var init := words[..|words| - 1];
      WrapFits(init);
      PlaceFits(Wrap(init), words[|words| - 1]);
    }
  }

  lemma PlaceFits(lines: seq<seq<string>>, w: string)
    requires Fits(lines)
    ensures Fits(Place(lines, w))
  {
    if lines != [] {
      var last := lines[|lines| - 1];
      if Width(last) + |w| + 1 <= 80 {
        JoinSnoc(last, w, " ");
      }
    }
  }

  /** The wrap is greedy: the first word of every line after the first would
      not have fitted on the line before it. */
  lemma {:induction false} WrapGreedy(words: seq<string>)
    ensures forall k :: 0 < k < |Wrap(words)| ==>
      Wrap(words)[k] != [] && Width(Wrap(words)[k - 1]) + |Wrap(words)[k][0]| + 1 > 80
  {
    if words != [] {
      var init := words[..|words| - 1];
      WrapGreedy(init);
      WrapFits(init);
      PlaceGreedy(Wrap(init), words[|words| - 1]);
    }
  }

  /** Every line after the first starts with a word that did not fit on the line before. */
  ghost predicate Greedy(lines: seq<seq<string>>) {
    forall k :: 0 < k < |lines| ==> lines[k] != [] && Width(lines[k - 1]) + |lines[k][0]| + 1 > 80
  }

  lemma PlaceGreedy(lines: seq<seq<string>>, w: string)
    requires Greedy(lines) && forall k :: 0 <= k < |lines| ==> lines[k] != []
    ensures Greedy(Place(lines, w))
  {
  }

  /** Every line of a wrapped entry starts with its prefix, `"    - "` on the
      first line and `"      "` after it, and a line holding two or more words
      is at most 80 characters long. */
  lemma WrappedLayout(words: seq<string>)
    ensures forall k :: 0 <= k < |Render(Wrap(words))| ==> Render(Wrap(words))[k][..6] == Prefix(k)
    ensures forall k :: 0 <= k < |Wrap(words)| && |Wrap(words)[k]| >= 2 ==> |Render(Wrap(words))[k]| <= 80
  {
    var lines := Wrap(words);
    WrapFits(words);
    forall k | 0 <= k < |lines| ensures Render(lines)[k][..6] == Prefix(k) {
      assert Render(lines)[k] == Prefix(k) + Join(lines[k], " ");
    }
  }

  /** A text line without its six-character prefix. */
  function AfterPrefix(line: string): string {
    if |line| >= 6 then line[6..] else line
  }

  /** The words of one text line after its prefix. */
  function LineWords(line: string): seq<string> {
    Words(AfterPrefix(line))
  }

  /** Reading text back: the words of its lines after their prefixes, line
      after line. */
  function TextWords(text: seq<string>): seq<string> {
    if text == [] then [] else TextWords(text[..|text| - 1]) + LineWords(text[|text| - 1])
  }

  /** Every word of every line is a word of the whole. */
  ghost predicate AllWords(lines: seq<seq<string>>) {
    forall k, j :: 0 <= k < |lines| && 0 <= j < |lines[k]| ==> IsWord(lines[k][j])
  }

  /** Reading back rendered lines of words gives their words: rendering loses,
      adds and reorders nothing. */
  lemma {:induction false} TextWordsOfRender(lines: seq<seq<string>>)
    requires AllWords(lines)
    ensures TextWords(Render(lines)) == Flatten(lines)
  {
    if lines != [] {
      var init := lines[..|lines| - 1];
      var last := lines[|lines| - 1];
      AllWordsInit(lines, init, last);
      TextWordsOfRender(init);
      InitLast(lines);
      RenderSnoc(init, last);
      var x := Prefix(|init|) + Join(last, " ");
      TextWordsSnoc(Render(init), x);
      RenderedLineWords(|init|, last);
    }
  }

  lemma AllWordsInit(lines: seq<seq<string>>, init: seq<seq<string>>, last: seq<string>)
    requires AllWords(lines) && lines != [] && init == lines[..|lines| - 1] && last == lines[|lines| - 1]
    ensures AllWords(init) && forall j :: 0 <= j < |last| ==> IsWord(last[j])
  {
    forall k, j | 0 <= k < |init| && 0 <= j < |init[k]| ensures IsWord(init[k][j]) {
      assert init[k] == lines[k];
    }
  }

  lemma TextWordsSnoc(text: seq<string>, x: string)
    ensures TextWords(text + [x]) == TextWords(text) + LineWords(x)
  {
    assert (text + [x])[..|text|] == text;
  }

  /** The words of a rendered line after its prefix are the words it was made of. */
  lemma RenderedLineWords(k: nat, line: seq<string>)
    requires forall j :: 0 <= j < |line| ==> IsWord(line[j])
    ensures LineWords(Prefix(k) + Join(line, " ")) == line
  {
    assert AfterPrefix(Prefix(k) + Join(line, " ")) == Join(line, " ");
    WordsOfJoin(line);
  }

  /** A word of one line is among the words of all lines. */
  lemma {:induction false} InFlatten(lines: seq<seq<string>>, k: nat, j: nat)
    requires k < |lines| && j < |lines[k]|
    ensures lines[k][j] in Flatten(lines)
  {
    var init := lines[..|lines| - 1];
    if k < |init| {
      InFlatten(init, k, j);
    } else {
      assert lines[k][j] in lines[|lines| - 1];
    }
  }

  /** The wrapped lines hold only words of the entry. */
  lemma WrapAllWords(words: seq<string>)
    requires forall i :: 0 <= i < |words| ==> IsWord(words[i])
    ensures AllWords(Wrap(words))
  {
    var lines := Wrap(words);
    WrapKeepsWords(words);
    forall k, j | 0 <= k < |lines| && 0 <= j < |lines[k]| ensures IsWord(lines[k][j]) {
      InFlatten(lines, k, j);
    }
  }

  /** The words an entry's lines show after their prefixes are the words of the
      entry, in order: wrapping and rendering drop, add and reorder nothing. */
  lemma EntryTextWords(entry: string)
    ensures TextWords(EntryText(entry)) == Words(entry)
  {
    WrapAllWords(Words(entry));
    TextWordsOfRender(Wrap(Words(entry)));
    WrapKeepsWords(Words(entry));
  }

  /** An entry gets no lines exactly when it is blank. */
  lemma BlankEntryHasNoLines(entry: string)
    ensures IsBlank(entry) <==> EntryText(entry) == []
  {
  }

  // ---------------------------------------------------------------------------
  // The whole entry
  // ---------------------------------------------------------------------------

  /** The lines of a list of entries, one entry after the other. */
  function EntriesText(entries: seq<string>): seq<string> {
    if entries == [] then [] else EntriesText(entries[..|entries| - 1]) + EntryText(entries[|entries| - 1])
  }

  /** The lines of the categories in `order`: for each, `"  category:"` and
      then its entries. */
  function CategoriesText(order: seq<string>, lists: map<string, seq<string>>): seq<string>
    requires forall c :: c in order ==> c in lists
  {
    if order == [] then []
    else
      var c := order[|order| - 1];
      CategoriesText(order[..|order| - 1], lists) + ["  " + c + ":"] + EntriesText(lists[c])
  }

  /** All the lines of a changelog entry. */
  function EntryLines(version: string, date: string, categories: Groups, parseDate: string -> Option<string>): seq<string>
    requires WellFormed(categories)
  {
    CategoryOrderRanked(categories);
    HeaderLines(version, date, parseDate) + CategoriesText(CategoryOrder(categories), categories.lists)
  }

  /** `format_changelog_entry(version, date, categories)`: the header, the
      categories in their order, and the lines joined with newlines. */
  method FormatChangelogEntry(version: string, date: string, categories: Groups, parseDate: string -> Option<string>)
    returns (text: string)
    requires WellFormed(categories)
    ensures text == Join(EntryLines(version, date, categories, parseDate), "\n")
  {
    var lines := Header(version, date, parseDate);
    var sorted := SortCategories(categories);
    CategoryOrderRanked(categories);
    lines := AppendCategories(lines, sorted, categories.lists);
    text := Join(lines, "\n");
  }

  /** The header lines of `format_changelog_entry`, appended one by one. */
  method Header(version: string, date: string, parseDate: string -> Option<string>) returns (lines: seq<string>)
    ensures lines == HeaderLines(version, date, parseDate)
  {
    lines := [Rule];
    lines := lines + ["Version: " + version];
    if date != [] {
      var ws := Words(date);
      if ws != [] {
        var formatted := parseDate(ws[0]);
        if formatted.Some? {
          lines := lines + ["Date: " + formatted.value];
        }
      }
    }
    lines := lines + [""];
  }

  /** The loop over the sorted categories: a `"  category:"` line, then the
      wrapped entries of the category. */
  method AppendCategories(header: seq<string>, sorted: seq<string>, lists: map<string, seq<string>>)
    returns (lines: seq<string>)
    requires forall c :: c in sorted ==> c in lists
    ensures lines == header + CategoriesText(sorted, lists)
  {
    lines := header;
    for i := 0 to |sorted|
      invariant lines == header + CategoriesText(sorted[..i], lists)
    {
      var category := sorted[i];
      var entries := lists[category];
      CategoriesStep(header, sorted, lists, i, lines);
      lines := lines + ["  " + category + ":"];
      lines := AppendEntries(lines, entries);
    }
    assert sorted[..|sorted|] == sorted;
  }

  /** One more category written. */
  lemma CategoriesStep(header: seq<string>, order: seq<string>, lists: map<string, seq<string>>, i: nat, lines: seq<string>)
    requires forall c :: c in order ==> c in lists
    requires i < |order|
    requires lines == header + CategoriesText(order[..i], lists)
    ensures lines + ["  " + order[i] + ":"] + EntriesText(lists[order[i]]) == header + CategoriesText(order[..i + 1], lists)
  {
    PrefixSnoc(order, i);
    var title := ["  " + order[i] + ":"];
    assert CategoriesText(order[..i + 1], lists) == CategoriesText(order[..i], lists) + title + EntriesText(lists[order[i]]);
    Associative(header, CategoriesText(order[..i], lists), title);
    Associative(header, CategoriesText(order[..i], lists) + title, EntriesText(lists[order[i]]));
  }

  /** The loop over the entries of one category, appending the wrapped lines
      of each. */
  method AppendEntries(lines0: seq<string>, entries: seq<string>) returns (lines: seq<string>)
    ensures lines == lines0 + EntriesText(entries)
  {
    lines := lines0;
    for j := 0 to |entries|
      invariant lines == lines0 + EntriesText(entries[..j])
    {
      var wrapped := WrapEntry(entries[j]);
      EntriesStep(lines0, entries, j, lines, wrapped);
      lines := lines + wrapped;
    }
    assert entries[..|entries|] == entries;
  }

  /** One more entry written. */
  lemma EntriesStep(lines0: seq<string>, entries: seq<string>, j: nat, lines: seq<string>, wrapped: seq<string>)
    requires j < |entries|
    requires lines == lines0 + EntriesText(entries[..j]) && wrapped == EntryText(entries[j])
    ensures lines + wrapped == lines0 + EntriesText(entries[..j + 1])
  {
    PrefixSnoc(entries, j);
    assert EntriesText(entries[..j + 1]) == EntriesText(entries[..j]) + EntryText(entries[j]);
    Associative(lines0, EntriesText(entries[..j]), wrapped);
  }

  /** Concatenation of lists of lines is associative. */
  lemma Associative(a: seq<string>, b: seq<string>, c: seq<string>)
    ensures a + b + c == a + (b + c)
  {
  }

  /** The header: 99 dashes, then `Version: {version}`, then a `Date:` line
      exactly when the date is non-empty and its first word parses, then a
      blank line before the categories. */
  lemma HeaderLayout(version: string, date: string, parseDate: string -> Option<string>)
    ensures |HeaderLines(version, date, parseDate)| in {3, 4}
    ensures HeaderLines(version, date, parseDate)[0] == Rule
    ensures |Rule| == 99 && forall k :: 0 <= k < |Rule| ==> Rule[k] == '-'
    ensures HeaderLines(version, date, parseDate)[1] == "Version: " + version
    ensures |HeaderLines(version, date, parseDate)[2]| >= 6 && HeaderLines(version, date, parseDate)[2][..6] == "Date: "
        <==> date != [] && Words(date) != [] && parseDate(Words(date)[0]).Some?
    ensures HeaderLines(version, date, parseDate)[|HeaderLines(version, date, parseDate)| - 1] == ""
  {
    var h := HeaderLines(version, date, parseDate);
    match ShownDate(date, parseDate)
    case Some(d) =>
      assert h[2] == "Date: " + d;
      assert ("Date: " + d)[..6] == "Date: ";
    case None =>
      assert h[2] == "";
  }

  // ---------------------------------------------------------------------------
  // Layout of the whole entry
  // ---------------------------------------------------------------------------

  /** A filter of a concatenation is the concatenation of the filters. */
  lemma {:induction false} FilterAppend(a: seq<string>, b: seq<string>, keep: string -> bool)
    ensures Filter(a + b, keep) == Filter(a, keep) + Filter(b, keep)
  {
    if b == [] {
      assert a + b == a;
    } else {
      var init := b[..|b| - 1];
      FilterAppend(a, init, keep);
      assert (a + b)[..|a + b| - 1] == a + init;
      assert (a + b)[|a + b| - 1] == b[|b| - 1];
      Associative(Filter(a, keep), Filter(init, keep), [b[|b| - 1]]);
    }
  }

  /** A filter that keeps the first element only. */
  lemma {:induction false} FilterFirstOnly(xs: seq<string>, keep: string -> bool)
    requires xs != [] && keep(xs[0])
    requires forall k :: 1 <= k < |xs| ==> !keep(xs[k])
    ensures Filter(xs, keep) == [xs[0]]
  {
    var init := xs[..|xs| - 1];
    if |xs| > 1 {
      FilterFirstOnly(init, keep);
    } else {
      assert init == [];
    }
  }

  /** A filter that keeps nothing. */
  lemma {:induction false} FilterNone(xs: seq<string>, keep: string -> bool)
    requires forall k :: 0 <= k < |xs| ==> !keep(xs[k])
    ensures Filter(xs, keep) == []
  {
    if xs != [] {
      var init := xs[..|xs| - 1];
      assert forall k :: 0 <= k < |init| ==> init[k] == xs[k];
      FilterNone(init, keep);
    }
  }

  /** The first line of an entry: its `- ` bullet. */
  predicate IsBullet(line: string) {
    |line| >= 6 && line[..6] == "    - "
  }

  /** A category's heading line, `"  category:"`. */
  function HeadingOf(c: string): string {
    "  " + c + ":"
  }

  /** A line indented by exactly two spaces, as headings are and entry lines
      are not. */
  predicate IsHeading(line: string) {
    |line| >= 3 && line[0] == ' ' && line[1] == ' ' && line[2] != ' '
  }

  /** The headings of the categories, in order. */
  function Headings(order: seq<string>): (r: seq<string>)
    ensures |r| == |order|
  {
    seq(|order|, i requires 0 <= i < |order| => HeadingOf(order[i]))
  }

  /** A category whose heading is told apart from entry lines. */
  predicate Headable(c: string) {
    c == [] || c[0] != ' '
  }

  /** Whether an entry has a word. */
  predicate IsFilled(entry: string) {
    !IsBlank(entry)
  }

  /** A non-blank entry has exactly one bullet line, its first; a blank one
      has none. */
  lemma EntryBullets(entry: string)
    ensures Filter(EntryText(entry), IsBullet) == if IsBlank(entry) then [] else [EntryText(entry)[0]]
    ensures |Filter(EntryText(entry), IsBullet)| == if IsFilled(entry) then 1 else 0
  {
    var text := EntryText(entry);
    WrappedLayout(Words(entry));
    if !IsBlank(entry) {
      forall k | 1 <= k < |text| ensures !IsBullet(text[k]) {
        assert text[k][..6] == "      ";
        assert "      "[4] != "    - "[4];
      }
      assert text[0][..6] == "    - ";
      FilterFirstOnly(text, IsBullet);
    }
  }

  /** Every line of an entry is indented by at least four spaces, so none of
      them is a heading. */
  lemma EntryNoHeadings(entry: string)
    ensures Filter(EntryText(entry), IsHeading) == []
  {
    var text := EntryText(entry);
    WrappedLayout(Words(entry));
    forall k | 0 <= k < |text| ensures !IsHeading(text[k]) {
      IndentedNotHeading(text[k], Prefix(k));
    }
    FilterNone(text, IsHeading);
  }

  lemma IndentedNotHeading(line: string, prefix: string)
    requires |prefix| == 6 && prefix[2] == ' '
    requires |line| >= 6 && line[..6] == prefix
    ensures !IsHeading(line)
  {
    assert line[2] == line[..6][2];
  }

  /** The lines of a list of entries hold one bullet per non-blank entry. */
  lemma {:induction false} EntriesBullets(entries: seq<string>)
    ensures |Filter(EntriesText(entries), IsBullet)| == |Filter(entries, IsFilled)|
  {
    if entries != [] {
      var init := entries[..|entries| - 1];
      var e := entries[|entries| - 1];
      EntriesBullets(init);
      EntryBullets(e);
      InitLast(entries);
      BulletCountStep(EntriesText(entries), EntriesText(init), EntryText(e), entries, init, e);
    }
  }

  lemma BulletCountStep(text: seq<string>, textInit: seq<string>, t: seq<string>,
                        entries: seq<string>, init: seq<string>, e: string)
    requires text == textInit + t && entries == init + [e]
    requires |Filter(textInit, IsBullet)| == |Filter(init, IsFilled)|
    requires |Filter(t, IsBullet)| == if IsFilled(e) then 1 else 0
    ensures |Filter(text, IsBullet)| == |Filter(entries, IsFilled)|
  {
    FilterAppend(textInit, t, IsBullet);
    FilterAppend(init, [e], IsFilled);
    assert [e][..0] == [];
  }

  /** No line of a list of entries is a heading. */
  lemma {:induction false} EntriesNoHeadings(entries: seq<string>)
    ensures Filter(EntriesText(entries), IsHeading) == []
  {
    if entries != [] {
      var init := entries[..|entries| - 1];
      var e := entries[|entries| - 1];
      EntriesNoHeadings(init);
      EntryNoHeadings(e);
      FilterAppend(EntriesText(init), EntryText(e), IsHeading);
    }
  }

  /** The words of a list of entries, one entry after the other. */
  function EntriesWords(entries: seq<string>): seq<string> {
    if entries == [] then [] else EntriesWords(entries[..|entries| - 1]) + Words(entries[|entries| - 1])
  }

  lemma {:induction false} TextWordsAppend(a: seq<string>, b: seq<string>)
    ensures TextWords(a + b) == TextWords(a) + TextWords(b)
  {
    if b == [] {
      assert a + b == a;
    } else {
      var init := b[..|b| - 1];
      TextWordsAppend(a, init);
      InitLast(b);
      Associative(a, init, [b[|b| - 1]]);
      TextWordsSnoc(a + init, b[|b| - 1]);
      TextWordsSnoc(init, b[|b| - 1]);
      Associative(TextWords(a), TextWords(init), LineWords(b[|b| - 1]));
    }
  }

  /** The words the lines of a category's entries show after their prefixes
      are the words of the entries, in order. */
  lemma {:induction false} EntriesTextWords(entries: seq<string>)
    ensures TextWords(EntriesText(entries)) == EntriesWords(entries)
  {
    if entries != [] {
      var init := entries[..|entries| - 1];
      var e := entries[|entries| - 1];
      EntriesTextWords(init);
      TextWordsAppend(EntriesText(init), EntryText(e));
      EntryTextWords(e);
    }
  }

  /** The heading lines of the categories' text are the headings of the
      categories, each once, in the given order. */
  lemma {:induction false} CategoriesHeadings(order: seq<string>, lists: map<string, seq<string>>)
    requires forall c :: c in order ==> c in lists && Headable(c)
    ensures Filter(CategoriesText(order, lists), IsHeading) == Headings(order)
  {
    if order != [] {
      var init := order[..|order| - 1];
      var c := order[|order| - 1];
      assert c in order;
      CategoriesHeadings(init, lists);
      var head := CategoriesText(init, lists) + [HeadingOf(c)];
      FilterAppend(CategoriesText(init, lists), [HeadingOf(c)], IsHeading);
      FilterAppend(head, EntriesText(lists[c]), IsHeading);
      EntriesNoHeadings(lists[c]);
      assert IsHeading(HeadingOf(c));
      assert Filter([HeadingOf(c)], IsHeading) == [HeadingOf(c)] by {
        FilterFirstOnly([HeadingOf(c)], IsHeading);
      }
      HeadingsSnoc(order, init, c);
    }
  }

  lemma HeadingsSnoc(order: seq<string>, init: seq<string>, c: string)
    requires order != [] && init == order[..|order| - 1] && c == order[|order| - 1]
    ensures Headings(order) == Headings(init) + [HeadingOf(c)]
  {
  }

  /** The lines of a changelog entry start with its header; after the header,
      the heading lines are the headings of the dictionary's categories, each
      once, in the canonical order. */
  lemma EntryLinesLayout(version: string, date: string, categories: Groups, parseDate: string -> Option<string>)
    requires WellFormed(categories)
    requires forall c :: c in categories.lists ==> Headable(c)
    ensures var h := HeaderLines(version, date, parseDate);
      var e := EntryLines(version, date, categories, parseDate);
      && |h| <= |e| && e[..|h|] == h
      && Filter(e[|h|..], IsHeading) == Headings(CategoryOrder(categories))
  {
    var h := HeaderLines(version, date, parseDate);
    CategoryOrderRanked(categories);
    var body := CategoriesText(CategoryOrder(categories), categories.lists);
    assert EntryLines(version, date, categories, parseDate) == h + body;
    assert (h + body)[..|h|] == h && (h + body)[|h|..] == body;
    CategoriesHeadings(CategoryOrder(categories), categories.lists);
  }

  /** Every category the parser gives has a heading told apart from entry lines. */
  lemma CategoryValuesHeadable()
    ensures forall c :: c in CategoryValues ==> Headable(c)
  {
  }

  // ---------------------------------------------------------------------------
  // Version of a tag
  // ---------------------------------------------------------------------------

  /** `tag.lstrip("v")`: every leading `v` removed. */
  function VersionOfTag(tag: string): (version: string)
    ensures |version| <= |tag| && version == tag[|tag| - |version|..]
    ensures version == [] || version[0] != 'v'
    ensures forall i :: 0 <= i < |tag| - |version| ==> tag[i] == 'v'
  {
    if tag != [] && tag[0] == 'v' then VersionOfTag(tag[1..]) else tag
  }

  /** A tag is its run of `v`s followed by the version, and the version is the
      only suffix of that form. */
  lemma {:induction false} VersionOfTagIs(vs: string, version: string)
    requires forall i :: 0 <= i < |vs| ==> vs[i] == 'v'
    requires version == [] || version[0] != 'v'
    ensures VersionOfTag(vs + version) == version
  {
    if vs != [] {
      assert (vs + version)[1..] == vs[1..] + version;
      VersionOfTagIs(vs[1..], version);
    } else {
      assert vs + version == version;
    }
  }
}
