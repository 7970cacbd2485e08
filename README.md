# Prettier-style JSON and Factorio changelog text, in Dafny

This project models two text builders from the `misc/` scripts of a small
utility repository and proves what they promise.

* **JSON formatter** (`misc/format_json.py`, module `JsonFormat`). It models
  `format_json_prettier` and its recursive helper `format_value`.
  * A JSON tree is a datatype. Objects keep their entries in insertion order.
  * Empty containers print as `{}` and `[]`.
  * An array of scalars stays on one line when its compact `json.dumps` form
    fits in `max_line_length`.
  * Every other container is expanded one entry per line, indenting each level
    by `indent`.
  * Keys are encoded with ASCII escaping. Values are encoded without it.
  * The scalar encoding of `json.dumps` is written out: string escapes, with
    surrogate pairs under ASCII escaping, and integers in decimal.
* **Factorio changelog text** (`misc/factorio_changelog_generator.py`):
  * `CATEGORY_MAP`, `IGNORED_PREFIXES` and `parse_commit_line` (module
    `CommitParse`). The two regular expressions of the parser are written out
    as character scanners. For the main pattern, the scanner reproduces the
    backtracking of the regular-expression engine on the one white-space run
    where it matters.
  * `categorize_commits` (module `Categorize`). It is a method with the
    source's nested loops over commits and body lines, appending into a
    dictionary that keeps its keys in insertion order. The method is proved
    against a specification function; the properties of the grouping are
    lemmas about that function.
  * `format_changelog_entry` (module `ChangelogEntry`). It is a method that
    appends lines step by step:
    * the header;
    * the two loops that order the categories;
    * the greedy 80-column word wrap, whose loop keeps `current_length` equal
      to the width of the line being built.

    The header is a straight run of appends, proved against `HeaderLines`.
    Each loop is proved against a specification function (`CategoryOrder`,
    `Wrap`/`Render`, `EntriesText`, `CategoriesText`), and lemmas state the
    layout that those functions guarantee.
  * The version string derived from a tag, `tag.lstrip("v")`.
* **Shared helpers** (module `Text`). The Python `str` operations the scripts
  use: `isspace`, `strip`, `split()`, `split("\n")` and `"\n".join`.

The loop bodies of `format_changelog_entry` and `categorize_commits` are split
into small methods:
* `Header`, `ListedCategories`, `AppendCategories` and `AppendEntries`;
* `WrapEntry` and `AddWord`, where `AddWord` is one iteration of the wrap loop;
* `CategorizeCommit` and `CategorizeLines`, one commit and its body lines.

Each of these small methods carries its own contract, and the statements
inside them follow the source's order and branches.

## Model

| member | source | states |
|---|---|---|
| Text.LStrip | misc/factorio_changelog_generator.py:61 | the result is a suffix of the input; it does not start with white space; every dropped character is white space |
| Text.RStrip | misc/factorio_changelog_generator.py:59 | the result is a prefix of the input; it does not end with white space; every dropped character is white space |
| Text.Strip | misc/factorio_changelog_generator.py:56-59 | `strip()` is empty exactly when the line is blank; otherwise it neither starts nor ends with white space; it is one contiguous slice of the input with only white space before and after it |
| Text.StripTrimmed | misc/factorio_changelog_generator.py:73 | stripping a text with no white space at either end leaves it unchanged |
| Text.StripIdempotent | misc/factorio_changelog_generator.py:73 | `strip()` applied twice equals `strip()` applied once |
| Text.Span | misc/factorio_changelog_generator.py:64 | a scanned run holds only matching characters and stops at the end or at the first character that does not match |
| Text.Words | misc/factorio_changelog_generator.py:152 | `split()` gives no words exactly for a blank text; every word is non-empty and free of white space |
| Text.WordsOfJoin | misc/factorio_changelog_generator.py:174 | splitting words that were joined with single spaces gives back exactly those words, so `' '.join` loses nothing that `split()` can see |
| Text.Split | misc/factorio_changelog_generator.py:95 | `split("\n")` gives at least one piece; no piece holds a newline; joining the pieces with `"\n"` gives back the text |
| JsonFormat.EscapeChar | misc/format_json.py:31 | an escaped character is non-empty and holds no newline; under ASCII escaping it is printable ASCII only; a printable ASCII character other than `"` and `\` stands for itself |
| JsonFormat.EscapeString | misc/format_json.py:57 | an encoded string body never holds a raw newline, and it is pure printable ASCII under `ensure_ascii` |
| JsonFormat.EncodeString | misc/format_json.py:31 | `json.dumps` of a string is quoted at both ends, holds no raw newline, and under `ensure_ascii` is printable ASCII only |
| JsonFormat.EncodeScalar | misc/format_json.py:57 | a scalar's `json.dumps` text is non-empty and fits on one line |
| JsonFormat.CompactArray | misc/format_json.py:42 | the compact encoding of a scalar array is one line, starting with `[` and ending with `]` |
| JsonFormat.EmptyContainers | misc/format_json.py:12-38 | an empty object prints as exactly `{}` and an empty array as exactly `[]`, at any indent |
| JsonFormat.FormatValue | misc/format_json.py:11-57 | every formatted value is non-empty and never ends with a comma; an object's text starts with `{` and ends with `}`, an array's with `[` and `]` |
| JsonFormat.EntryValue | misc/format_json.py:19-28 | the key-aware inline check never changes an entry's value text: the value is always the recursive result at the deeper indent |
| JsonFormat.ArrayLines | misc/format_json.py:47-54 | the lines of an expanded array are two more than its items, `[` first and `]` at `current_indent` last |
| JsonFormat.ArrayFrame | misc/format_json.py:47-55 | an expanded array's text is its lines joined by newlines, framed by `[` and `]` at `current_indent` |
| JsonFormat.ItemLine | misc/format_json.py:50-53 | item line i is the deeper indent, the item formatted at that indent, and a comma unless it is the last |
| JsonFormat.ArrayCommas | misc/format_json.py:50-53 | an item line ends with a comma if and only if it is not the last item line |
| JsonFormat.ScalarArrayInlineIff | misc/format_json.py:41-44 | a non-empty array of scalars prints as its compact encoding if and only if that encoding's length is at most `max_line_length` |
| JsonFormat.ArrayLayout | misc/format_json.py:47-55 | an expanded array has `[`; one line per item at indent `current_indent + indent`, formatted at that indent, with a comma after all but the last; then `]` at `current_indent` |
| JsonFormat.ContainerArrayExpanded | misc/format_json.py:41-55 | an array holding an object or array is always expanded and spans several lines, however short |
| JsonFormat.ObjectLayout | misc/format_json.py:16-34 | a non-empty object has `{`; one line per entry in insertion order, at indent `current_indent + indent`, with the ASCII-escaped key, `": "`, the value formatted at the deeper indent and a comma after all but the last; then `}` at `current_indent` |
| JsonFormat.ObjectLines | misc/format_json.py:16-33 | the collected lines of an object are two more than its entries, `{` first and `}` at `current_indent` last |
| JsonFormat.EntryLine | misc/format_json.py:20-32 | entry line i is the deeper indent, the ASCII-escaped key, `": "`, the value formatted at the deeper indent, and a comma unless it is the last |
| JsonFormat.ObjectCommas | misc/format_json.py:20-32 | an entry line ends with a comma if and only if it is not the last entry line |
| JsonFormat.ObjectFrame | misc/format_json.py:16-33 | a non-empty object's text is its lines joined by newlines: two more lines than entries, `{` first and `}` at `current_indent` last |
| JsonFormat.EscapeCharAgreeIff | misc/format_json.py:26-31 | a character is escaped alike with and without ASCII escaping exactly when its code is at most U+007E; otherwise the ASCII form is longer |
| JsonFormat.KeyAndValueEscapingAgreeIff | misc/format_json.py:26-31 | a string is encoded alike as a key and as a value if and only if all its characters are at most U+007E; otherwise the key form is longer |
| JsonFormat.KeyAndValueEscapingDiffer | misc/format_json.py:26-31 | the same text `é` is written `"\u00e9"` as a key and `"é"` as a value |
| JsonFormat.TopLevelLayout | misc/format_json.py:59 | the top-level call uses indent 0, so a non-empty object opens with `{` and a newline and closes with a newline and `}` in column 0 |
| JsonFormat.FormatJsonPrettier | misc/format_json.py:59 | the top-level text is non-empty, and an object or array at the top is framed by its own brackets |
| JsonFormat.CompactOneTwoThree | misc/format_json.py:42 | the compact encoding of `[1, 2, 3]` is `[1, 2, 3]` |
| JsonFormat.LineOfKeyA | misc/format_json.py:31 | the entry line for key `a` with value `[1, 2, 3]` at depth one is `  "a": [1, 2, 3]` |
| JsonFormat.ShortArrayUnderKeyLines | misc/format_json.py:16-33 | `{"a": [1, 2, 3]}` collects exactly the lines `{`, `  "a": [1, 2, 3]` and `}` |
| JsonFormat.ShortArrayUnderKey | misc/format_json.py:23-32 | `{"a": [1, 2, 3]}` prints as three lines, with the short array kept on its key's line |
| CommitParse.Lookup | misc/factorio_changelog_generator.py:76 | `get(key, default)` on a table with distinct keys gives the value of the matching entry, and the default when no key matches |
| CommitParse.CategoryMapKeysDistinct | misc/factorio_changelog_generator.py:25-46 | the twenty keys of `CATEGORY_MAP` are pairwise distinct, as a dictionary's keys must be |
| CommitParse.CategoryOf | misc/factorio_changelog_generator.py:76 | a known prefix gets its mapped category and any other gets `"Changes"`; either way the result is a value of `CATEGORY_MAP` |
| CommitParse.Lower | misc/factorio_changelog_generator.py:67 | lower-casing keeps the length and turns every ASCII letter into a lower-case letter: itself when already lower case, else the letter 32 code points up |
| CommitParse.LowerOfCasing | misc/factorio_changelog_generator.py:67-70 | every upper/lower-case spelling of `release` lower-cases to `release` |
| CommitParse.ReleaseInAnyCaseIgnored | misc/factorio_changelog_generator.py:67-71 | a conventional line whose prefix is `release` in any mix of cases is skipped |
| CommitParse.DropDash | misc/factorio_changelog_generator.py:61 | removing `^-\s*` keeps a suffix of the line; a line not starting with `-` is kept whole; otherwise the dash and the white-space run after it, and nothing else, are dropped, and what remains does not start with white space |
| CommitParse.ScopeEnd | misc/factorio_changelog_generator.py:64 | the optional `(scope)` group ends at or after where it starts, within the line |
| CommitParse.ScopeGroup | misc/factorio_changelog_generator.py:64 | `(?:\([^)]+\))?` takes something exactly when the line has `(`, at least one non-`)` character and then `)`; it then ends just after the first `)`, which is the only choice that can lead to a match |
| CommitParse.DotsToEnd | misc/factorio_changelog_generator.py:64 | `(.+)$` captures a non-empty newline-free group: either the whole rest, or the rest without one final newline |
| CommitParse.DotsToEndIff | misc/factorio_changelog_generator.py:64 | `(.+)$` matches a rest exactly when it is non-empty, does not start with a newline and holds no newline before its last character |
| CommitParse.TailFrom | misc/factorio_changelog_generator.py:64 | with backtracking, `\s*(.+)$` captures a non-empty, newline-free group that ends with the line's last character unless that character is a newline |
| CommitParse.TailFromLatest | misc/factorio_changelog_generator.py:64 | the backtracking `\s*(.+)$` fails exactly when `(.+)$` fails at every start the white-space run allows; otherwise its group is the one at the longest white-space run that leads to a match |
| CommitParse.TailFromGroup | misc/factorio_changelog_generator.py:64 | a group found by the backtracking tail is one that white space followed by `(.+)$` matches |
| CommitParse.MatchLine | misc/factorio_changelog_generator.py:64 | a match gives a non-empty prefix of ASCII letters and a non-empty one-line description that ends where the line ends |
| CommitParse.MatchLineGroups | misc/factorio_changelog_generator.py:64 | a match's letter group is the longest run of letters at the start of the line, and after it the line has a colon followed by white space and `(.+)$` capturing the description group |
| CommitParse.ParseCommitLine | misc/factorio_changelog_generator.py:52-79 | an empty or blank line gives `None`; a result's category is a `CATEGORY_MAP` value; its description is non-empty, already stripped and on one line |
| CommitParse.ParseCleaned | misc/factorio_changelog_generator.py:64-77 | after the strip and the dash removal, a successful parse has a `CATEGORY_MAP` category and a non-empty, stripped, one-line description |
| CommitParse.ParseOfCleaned | misc/factorio_changelog_generator.py:56-61 | a non-blank line parses as its stripped, dash-removed text, which is empty or ends in a non-white-space character |
| CommitParse.StrippedDescription | misc/factorio_changelog_generator.py:73 | the stripped description of a one-line group is stripped and still holds no newline |
| CommitParse.DropDashKeepsEnd | misc/factorio_changelog_generator.py:61 | removing `^-\s*` never changes the last character of a non-empty line |
| CommitParse.CleanedLineEnd | misc/factorio_changelog_generator.py:59-61 | the text the pattern sees is empty or ends in a non-white-space character |
| CommitParse.DescriptionNotBlank | misc/factorio_changelog_generator.py:64-73 | the description group is never blank, so the returned description is never empty |
| CommitParse.DashPrefixIgnored | misc/factorio_changelog_generator.py:59-61 | `"-" + s` parses exactly like `s` when `s` does not itself start, after stripping, with a dash; so `- fix: x` parses as `fix: x` |
| CommitParse.DashStripped | misc/factorio_changelog_generator.py:59-61 | stripping `"-" + s` and dropping the dash leaves `s` stripped |
| CommitParse.LettersOfConventional | misc/factorio_changelog_generator.py:64 | in `prefix(scope): description`, the letter group is exactly the prefix |
| CommitParse.ScopeEndOfConventional | misc/factorio_changelog_generator.py:64 | in `prefix(scope): description`, the optional scope group ends just before the colon |
| CommitParse.ColonOfConventional | misc/factorio_changelog_generator.py:64 | in `prefix(scope): description`, the colon follows the scope directly and `" " + description` follows the colon |
| CommitParse.MatchLineFrom | misc/factorio_changelog_generator.py:64 | the match result is determined by the stages of the pattern: the letters, the scope, the colon and the tail |
| CommitParse.TailOfConventional | misc/factorio_changelog_generator.py:64 | after `": "`, the description group is exactly the description |
| CommitParse.MatchConventional | misc/factorio_changelog_generator.py:64 | the pattern splits a conventional line back into its prefix and its description, with or without a scope |
| CommitParse.ParseConventionalLine | misc/factorio_changelog_generator.py:64-77 | a conventional line gives `None` for a `release` prefix in any case; otherwise it gives the category of its lower-cased prefix and its description |
| Categorize.Add | misc/factorio_changelog_generator.py:91 | appending to a `defaultdict(list)` grows only that category's list (created empty if missing), adds a new category last in key order and keeps the dictionary well-formed |
| Categorize.ParsedLines | misc/factorio_changelog_generator.py:88-99 | the parsed changes of the lines are no more than the lines, and each has a known category and a stripped, non-empty description |
| Categorize.ParsedLinesPicks | misc/factorio_changelog_generator.py:88-99 | the parsed changes are exactly the results of the lines that parse, one per such line, in line order: no line that parses is skipped |
| Categorize.ParsedLinesIsFilterMap | misc/factorio_changelog_generator.py:88-99 | parsing the lines in turn is the filter-map of `parse_commit_line` over them |
| Categorize.FilterMapPicks | misc/factorio_changelog_generator.py:88-99 | a filter-map keeps one result per element that has one, in order, and no others |
| Categorize.PicksSnoc | misc/factorio_changelog_generator.py:96-99 | one more element keeps the filter-map picking exactly the elements that have a result |
| Categorize.CommitLinesShape | misc/factorio_changelog_generator.py:86-99 | a commit's lines are its subject first and then its body split on newlines: an empty body adds none, and the body lines hold no newline and join back into the body |
| Categorize.AllLines | misc/factorio_changelog_generator.py:84-99 | every commit contributes at least its subject line |
| Categorize.AllLinesAppend | misc/factorio_changelog_generator.py:84-99 | the lines of two runs of commits are the lines of the first followed by those of the second |
| Categorize.GroupAll | misc/factorio_changelog_generator.py:84-101 | appending every change in turn gives a well-formed dictionary, with distinct keys that are exactly its domain |
| Categorize.CategorizeCommits | misc/factorio_changelog_generator.py:82-101 | the nested loops build the dictionary of the parsed lines of all commits, in line order, with subject before body |
| Categorize.CategorizeCommit | misc/factorio_changelog_generator.py:86-99 | one iteration of the outer loop extends the dictionary by the changes of the commit's subject and then of its body lines |
| Categorize.CategorizeLines | misc/factorio_changelog_generator.py:94-99 | the loop over body lines appends the changes of those lines to the dictionary |
| Categorize.LineStep | misc/factorio_changelog_generator.py:96-99 | parsing one more line appends its change, if it has one |
| Categorize.GroupStep | misc/factorio_changelog_generator.py:97-99 | grouping one more optional change is one `Add`, or nothing |
| Categorize.DescriptionsOf | misc/factorio_changelog_generator.py:91 | the descriptions of a category, in order, are empty exactly when no change has that category |
| Categorize.GroupAllLists | misc/factorio_changelog_generator.py:84-101 | a category is a key if and only if some change has it, and its list holds that category's descriptions in their original order |
| Categorize.KeysInFirstOccurrenceOrder | misc/factorio_changelog_generator.py:84-91 | the keys are ordered by the first occurrence of their category among the changes |
| Categorize.KeysOrderStep | misc/factorio_changelog_generator.py:91 | one more append keeps the keys in first-occurrence order |
| Categorize.SizeIsCount | misc/factorio_changelog_generator.py:84-101 | the dictionary holds exactly as many descriptions as there were changes |
| Categorize.CategorizedCommits | misc/factorio_changelog_generator.py:82-101 | the lists hold as many descriptions in all as there are parsed lines; each list is non-empty and in line order; every key is a `CATEGORY_MAP` value |
| ChangelogEntry.Filter | misc/factorio_changelog_generator.py:133-135 | the kept elements are the elements that satisfy the test, and no others |
| ChangelogEntry.SortCategories | misc/factorio_changelog_generator.py:129-140 | the two loops produce the canonical category order |
| ChangelogEntry.ListedCategories | misc/factorio_changelog_generator.py:132-135 | the first loop keeps the values of `CATEGORY_MAP` that are keys, in the map's order |
| ChangelogEntry.SeenIffKnown | misc/factorio_changelog_generator.py:138-140 | in the second loop, the `not in sorted_categories` test fails exactly for the values of `CATEGORY_MAP` |
| ChangelogEntry.FilterOrder | misc/factorio_changelog_generator.py:133-135 | filtering distinct elements keeps their relative order |
| ChangelogEntry.CategoryValuesDistinct | misc/factorio_changelog_generator.py:25-46 | the twenty category names of `CATEGORY_MAP` are distinct |
| ChangelogEntry.KnownRanks | misc/factorio_changelog_generator.py:132-135 | the listed categories are keys, in `CATEGORY_MAP` order, ranked below every other category |
| ChangelogEntry.UnknownRanks | misc/factorio_changelog_generator.py:138-140 | the other categories are keys, in insertion order, ranked after the listed ones |
| ChangelogEntry.RankedConcat | misc/factorio_changelog_generator.py:137-140 | appending the other categories after the listed ones keeps the ranks strictly increasing |
| ChangelogEntry.CategoryOrderRanked | misc/factorio_changelog_generator.py:129-140 | every category of the input appears once and nothing else appears: first the `CATEGORY_MAP` values in the map's order, then the rest in insertion order |
| ChangelogEntry.Wrap | misc/factorio_changelog_generator.py:157-179 | the greedy wrap has no lines exactly when there are no words |
| ChangelogEntry.Place | misc/factorio_changelog_generator.py:160-179 | placing a word always leaves at least one line |
| ChangelogEntry.WrapEntry | misc/factorio_changelog_generator.py:150-186 | the wrap loop writes exactly the rendered greedy wrap of `entry.split()` |
| ChangelogEntry.AddWord | misc/factorio_changelog_generator.py:157-179 | one iteration performs one greedy placement step and keeps `current_length` equal to the built line's width, with `is_first_line` true exactly while no line has been written |
| ChangelogEntry.PlaceFitting | misc/factorio_changelog_generator.py:167-170 | a word that fits joins the current line, and the width grows by the word's length plus one |
| ChangelogEntry.PlaceOverflowing | misc/factorio_changelog_generator.py:171-179 | a word that does not fit finishes the current line and starts the next |
| ChangelogEntry.RenderSnoc | misc/factorio_changelog_generator.py:172-177 | writing one more line appends it with the prefix of its position |
| ChangelogEntry.WrapKeepsWords | misc/factorio_changelog_generator.py:152-186 | the words of the wrapped lines, in order, are exactly the entry's words |
| ChangelogEntry.TextWordsOfRender | misc/factorio_changelog_generator.py:172-186 | reading the words back from rendered lines, after their six-column prefix, gives all the wrapped words in order |
| ChangelogEntry.WrapAllWords | misc/factorio_changelog_generator.py:157-179 | every word the wrap places is a word of the entry |
| ChangelogEntry.EntryTextWords | misc/factorio_changelog_generator.py:150-186 | the words read back from an entry's written lines are exactly `entry.split()`: nothing is lost, added or reordered |
| ChangelogEntry.EntriesTextWords | misc/factorio_changelog_generator.py:150-186 | the words read back from a category's written lines are the words of its entries, entry after entry |
| ChangelogEntry.PlaceKeepsWords | misc/factorio_changelog_generator.py:157-179 | a placement step adds exactly its word at the end of the words |
| ChangelogEntry.WrapFits | misc/factorio_changelog_generator.py:167-170 | no wrapped line is empty, and any line of two or more words is at most 80 columns wide |
| ChangelogEntry.PlaceFits | misc/factorio_changelog_generator.py:167-170 | a placement step keeps every line non-empty and every line of two or more words within 80 columns |
| ChangelogEntry.WrapGreedy | misc/factorio_changelog_generator.py:167-179 | the wrap is greedy: the first word of each line after the first would not have fitted on the previous line |
| ChangelogEntry.PlaceGreedy | misc/factorio_changelog_generator.py:167-179 | a placement step keeps the wrap greedy |
| ChangelogEntry.WrappedLayout | misc/factorio_changelog_generator.py:172-186 | the first line of an entry starts with `"    - "` and the later lines with `"      "`; a line of two or more words is at most 80 characters long |
| ChangelogEntry.BlankEntryHasNoLines | misc/factorio_changelog_generator.py:152-186 | an entry writes no lines exactly when it is blank |
| ChangelogEntry.EntryBullets | misc/factorio_changelog_generator.py:172-186 | an entry writes one `"    - "` line, its first, unless it is blank, when it writes none |
| ChangelogEntry.EntryNoHeadings | misc/factorio_changelog_generator.py:172-186 | no line of an entry looks like a category heading |
| ChangelogEntry.EntriesBullets | misc/factorio_changelog_generator.py:150-186 | a category's text has one `"    - "` line per non-blank entry |
| ChangelogEntry.EntriesNoHeadings | misc/factorio_changelog_generator.py:150-186 | no line of a category's entries looks like a category heading |
| ChangelogEntry.CategoriesHeadings | misc/factorio_changelog_generator.py:143-186 | the heading lines of the category section are `"  {category}:"` for each category, in the given order, and nothing else |
| ChangelogEntry.EntryLinesLayout | misc/factorio_changelog_generator.py:104-188 | the entry's lines start with the header, and after it the heading lines are exactly those of the canonical category order |
| ChangelogEntry.CategoryValuesHeadable | misc/factorio_changelog_generator.py:25-46 | no `CATEGORY_MAP` value starts with a space, so each value's heading line is recognisable as one |
| ChangelogEntry.FormatChangelogEntry | misc/factorio_changelog_generator.py:104-188 | the text is the header followed by each category line and its wrapped entries, in the canonical order, joined with newlines |
| ChangelogEntry.Header | misc/factorio_changelog_generator.py:108-126 | the appended header lines are the rule, the version, the optional date and a blank line |
| ChangelogEntry.AppendCategories | misc/factorio_changelog_generator.py:143-186 | the category loop appends `"  {category}:"` and the wrapped entries of each category in order |
| ChangelogEntry.AppendEntries | misc/factorio_changelog_generator.py:150-186 | the entry loop appends the wrapped lines of each entry in order |
| ChangelogEntry.HeaderLayout | misc/factorio_changelog_generator.py:110-126 | the header is 99 dashes, then `Version: {version}`, then a `Date:` line exactly when the date is non-empty and its first word parses, then a blank line |
| ChangelogEntry.VersionOfTag | misc/factorio_changelog_generator.py:209 | `lstrip("v")` removes exactly the leading run of `v`s: the result is a suffix of the tag that does not start with `v` |
| ChangelogEntry.VersionOfTagIs | misc/factorio_changelog_generator.py:209 | for any run of `v`s followed by a version not starting with `v`, the version is what `lstrip("v")` gives |

## Left out

- JsonFormat.FormatValue: the round trip (parsing the formatted text gives back the value) and idempotence (formatting the re-parsed text again changes nothing) are not stated, because no JSON parser is modelled. The layout lemmas (`ObjectLayout`, `ArrayLayout`, `EntryLine`, `ItemLine`, the comma lemmas and the frames) state the text structure that such a parser would read instead.
- ChangelogEntry.EntryLinesLayout: this lemma requires that no category name starts with a space, because a heading line `"  " + category + ":"` for such a name has the indent of an entry line. Every `CATEGORY_MAP` value meets this requirement (`CategoryValuesHeadable`), so only a category name that `parse_commit_line` cannot produce is excluded.
- Floating-point numbers: JSON numbers are integers, so `json.dumps` float formatting is not modelled.
- `format_json_prettier` is modelled only with its default `indent` of 2 and `max_line_length` of 80 at the top level. `FormatValue` accepts any non-negative indent and any line budget. A negative `indent` is not modelled.
- Non-string dictionary keys are not modelled. `json.dumps(k)` of an integer or boolean key is outside the model; keys are strings.
- The recursion depth of `format_value` is not stated as a lemma. Dafny checks that the recursion terminates on every tree, with the tree as the decreasing measure.
- `datetime.fromisoformat(...).strftime("%d.%m.%Y")` is the parameter `parseDate`, with `None` where Python raises `ValueError`. Only "a `Date:` line appears exactly when parsing succeeds" is captured.
- A commit whose `body` key is missing is modelled as one with an empty body. Both skip the body loop.
- `generate_changelog`, `create_release_commit`, `update_info_json_version` and `main` in misc/factorio_changelog_generator.py are not modelled. They run git, read and write files, read the clock, print and parse arguments; `tag.lstrip("v")` at line 209 is the one piece of them modelled.
- misc/git_utils.py is not part of this model beyond its `Commit` record: every other function there runs `git` through a subprocess.
- dampol-image-watermark/script.py is not part of this model: it walks directories and composites images with a foreign library, using floating-point scale factors.
- Regular-expression matching is modelled as hand-written scanners for the two patterns, not as a general engine.
  - For `^([a-zA-Z]+)(?:\([^)]+\))?\s*:\s*(.+)$`, only the white-space run after the colon backtracks. Each earlier group is followed by a character it cannot contain, so its longest choice is the only one that can lead to a match.
  - `\s` is taken to match the characters for which `str.isspace()` holds.
- Python `str` is modelled as a sequence of Unicode scalar values. `len` counts those, as Python does for the key length at misc/format_json.py:27.
