/**
  The prettier-style JSON formatter of misc/format_json.py: `format_json_prettier`
  and its recursive helper `format_value`, together with the scalar encoding of
  Python's `json.dumps` that both rely on.
 */
module JsonFormat {
  import opened Text

  /** A parsed JSON document. Objects keep their entries in insertion order, as a
      Python `dict` does; numbers are integers. */
  datatype Json =
    | Null
    | Bool(b: bool)
    | Num(n: int)
    | Str(s: string)
    | Obj(entries: seq<(string, Json)>)
    | Arr(items: seq<Json>)

  /** The values the source tests with `isinstance(x, (str, int, float, bool, type(None)))`. */
  predicate IsScalar(v: Json) {
    !v.Obj? && !v.Arr?
  }

  predicate AllScalar(items: seq<Json>) {
    forall i :: 0 <= i < |items| ==> IsScalar(items[i])
  }

  // ---------------------------------------------------------------------------
  // Scalar encoding (`json.dumps`)
  // ---------------------------------------------------------------------------

  /** Lower-case hexadecimal digit, as the encoder writes `\uXXXX` escapes. */
  function HexDigit(d: nat): (c: char)
    requires d < 16
    ensures '0' <= c <= '9' || 'a' <= c <= 'f'
  {
    if d < 10 then (48 + d) as char else (87 + d) as char
  }

  /** Four lower-case hexadecimal digits of a UTF-16 code unit. */
  function Hex4(n: nat): (r: string)
    requires n < 0x1_0000
    ensures |r| == 4
    ensures forall i :: 0 <= i < 4 ==> '0' <= r[i] <= '9' || 'a' <= r[i] <= 'f'
  {
    [HexDigit(n / 0x1000), HexDigit(n / 0x100 % 0x10), HexDigit(n / 0x10 % 0x10), HexDigit(n % 0x10)]
  }

  /** A printable ASCII character, the only kind `ensure_ascii=True` output may hold. */
  predicate IsPrintableAscii(c: char) {
    ' ' <= c <= '~'
  }

  /** How the encoder writes one character of a string. With `ensureAscii` it
      escapes everything outside printable ASCII, using a UTF-16 surrogate pair
      above U+FFFF; without it only `"`, `\` and the C0 controls are escaped. */
  function EscapeChar(c: char, ensureAscii: bool): (r: string)
    ensures r != []
    ensures forall i :: 0 <= i < |r| ==> r[i] != '\n'
    ensures ensureAscii ==> forall i :: 0 <= i < |r| ==> IsPrintableAscii(r[i])
    ensures (IsPrintableAscii(c) && c != '"' && c != '\\') ==> r == [c]
  {
    if c == '"' then "\\\""
    else if c == '\\' then "\\\\"
    else if c == '\n' then "\\n"
    else if c == '\r' then "\\r"
    else if c == '\t' then "\\t"
    else if c as int == 0x08 then "\\b"
    else if c as int == 0x0C then "\\f"
    else if c as int < 0x20 then "\\u" + Hex4(c as int)
    else if ensureAscii && c as int > 0x7E then
      if c as int < 0x1_0000 then "\\u" + Hex4(c as int)
      else
        var n := c as int - 0x1_0000;
        "\\u" + Hex4(0xD800 + n / 0x400) + "\\u" + Hex4(0xDC00 + n % 0x400)
    else [c]
  }

  /** The body of an encoded string: every character escaped in turn. */
  function EscapeString(s: string, ensureAscii: bool): (r: string)
    ensures forall i :: 0 <= i < |r| ==> r[i] != '\n'
    ensures ensureAscii ==> forall i :: 0 <= i < |r| ==> IsPrintableAscii(r[i])
  {
    if s == [] then [] else EscapeString(s[..|s| - 1], ensureAscii) + EscapeChar(s[|s| - 1], ensureAscii)
  }

  /** `json.dumps(s, ensure_ascii=...)` for a string `s`: a quoted literal on one
      line, and pure printable ASCII when `ensureAscii` holds. */
  function EncodeString(s: string, ensureAscii: bool): (r: string)
    ensures |r| >= 2 && r[0] == '"' && r[|r| - 1] == '"'
    ensures NoNewline(r)
    ensures ensureAscii ==> forall i :: 0 <= i < |r| ==> IsPrintableAscii(r[i])
  {
    "\"" + EscapeString(s, ensureAscii) + "\""
  }

  /** The decimal digits of a natural number, most significant first. */
  function NatToDecimal(n: nat): (r: string)
    ensures r != []
    ensures forall i :: 0 <= i < |r| ==> '0' <= r[i] <= '9'
  {
    if n < 10 then ["0123456789"[n]] else NatToDecimal(n / 10) + ["0123456789"[n % 10]]
  }

  /** `json.dumps(v, ensure_ascii=False)` for a scalar `v`. */
  function EncodeScalar(v: Json): (r: string)
    requires IsScalar(v)
    ensures r != [] && r[|r| - 1] != ','
    ensures forall i :: 0 <= i < |r| ==> r[i] != '\n'
  {
    match v
    case Null => "null"
    case Bool(b) => if b then "true" else "false"
    case Num(n) => if n < 0 then "-" + NatToDecimal(-n) else NatToDecimal(n)
    case Str(s) => EncodeString(s, false)
  }

  /** `json.dumps(items, ensure_ascii=False)` for a list of scalars: the
      encodings separated by `", "` inside brackets, on one line. */
  function CompactArray(items: seq<Json>): (r: string)
    requires AllScalar(items)
    ensures forall i :: 0 <= i < |r| ==> r[i] != '\n'
    ensures |r| >= 2 && r[0] == '[' && r[|r| - 1] == ']'
  {
    var encoded := seq(|items|, i requires 0 <= i < |items| => EncodeScalar(items[i]));
    var body := Join(encoded, ", ");
    NoNewlineJoin(encoded, ", ");
    "[" + body + "]"
  }

  predicate NoNewline(s: string) {
    forall i :: 0 <= i < |s| ==> s[i] != '\n'
  }

  lemma {:induction false} NoNewlineJoin(parts: seq<string>, sep: string)
    requires NoNewline(sep)
    requires forall k :: 0 <= k < |parts| ==> NoNewline(parts[k])
    ensures NoNewline(Join(parts, sep))
    decreases |parts|
  {
    if |parts| > 1 {
      NoNewlineJoin(parts[..|parts| - 1], sep);
    }
  }

  // ---------------------------------------------------------------------------
  // The formatter (`format_value`)
  // ---------------------------------------------------------------------------

  /** `' ' * n`. */
  function Spaces(n: nat): (r: string) {
    seq(n, _ => ' ')
  }

  /** `format_value(value, current_indent)` inside `format_json_prettier(obj, indent,
      max_line_length)`: empty containers print as `{}` and `[]`, an array of scalars
      whose compact encoding fits in `maxLineLength` stays on one line, and every
      other container is expanded one entry per line. */
  function FormatValue(v: Json, currentIndent: nat, indent: nat, maxLineLength: int): (r: string)
    ensures r != [] && r[|r| - 1] != ','
    ensures v.Obj? ==> r[0] == '{' && r[|r| - 1] == '}'
    ensures v.Arr? ==> r[0] == '[' && r[|r| - 1] == ']'
    decreases v, 1
  {
    match v
    case Obj(entries) =>
      if entries == [] then "{}"
      else
        var lines := ObjectLines(v, currentIndent, indent, maxLineLength);
        JoinEnds(lines, "\n");
        Join(lines, "\n")
    case Arr(items) =>
      if items == [] then "[]"
      else if AllScalar(items) && |CompactArray(items)| <= maxLineLength then CompactArray(items)
      else
        var lines := ArrayLines(v, currentIndent, indent, maxLineLength);
        JoinEnds(lines, "\n");
        Join(lines, "\n")
    case _ => EncodeScalar(v)
  }

  /** The value text after `"key": ` as the object branch computes it: the
      recursive rendering at the deeper indent, replaced by the compact encoding
      when the value is an array of scalars that passes the key-aware check
      `len(json_str) <= max_line_length - current_indent - len(k) - 5`.
      That check never changes the output: when it fires, its threshold is at
      most `maxLineLength - 5`, so the array branch of the recursive call has
      already returned the same compact encoding. */
  function EntryValue(key: string, v: Json, currentIndent: nat, indent: nat, maxLineLength: int): (r: string)
    ensures r == FormatValue(v, currentIndent + indent, indent, maxLineLength)
    decreases v, 2
  {
    if v.Arr? && AllScalar(v.items) && |CompactArray(v.items)| <= maxLineLength - currentIndent - |key| - 5
    then
      assert v.items == [] ==> CompactArray(v.items) == "[]";
      CompactArray(v.items)
    else FormatValue(v, currentIndent + indent, indent, maxLineLength)
  }

  /** `","` after every entry but the last. */
  function Comma(i: nat, count: nat): string {
    if i < count - 1 then "," else ""
  }

  /** The lines the object branch collects before joining them with newlines:
      `{`, one line per entry opening with the deeper indent, and the closing
      brace at the current indent. */
  function ObjectLines(v: Json, currentIndent: nat, indent: nat, maxLineLength: int): (r: seq<string>)
    requires v.Obj?
    ensures |r| == |v.entries| + 2 && r[0] == "{" && r[|r| - 1] == Spaces(currentIndent) + "}"
    decreases v, 0
  {
    var es := v.entries;
    ["{"]
    + seq(|es|, i requires 0 <= i < |es| => KeyLine(es[i].0, es[i].1, i, |es|, currentIndent, indent, maxLineLength))
    + [Spaces(currentIndent) + "}"]
  }

  /** The line of entry `i` of `count`: the deeper indent, the ASCII-escaped key,
      `": "`, the value and the comma. */
  function KeyLine(key: string, v: Json, i: nat, count: nat, currentIndent: nat, indent: nat, maxLineLength: int): string
    decreases v, 3
  {
    Spaces(currentIndent + indent) + EncodeString(key, true) + ": "
    + EntryValue(key, v, currentIndent, indent, maxLineLength) + Comma(i, count)
  }

  /** The lines the expanded array branch collects before joining them with
      newlines: `[`, one line per item opening with the deeper indent, and the
      closing bracket at the current indent. */
  function ArrayLines(v: Json, currentIndent: nat, indent: nat, maxLineLength: int): (r: seq<string>)
    requires v.Arr?
    ensures |r| == |v.items| + 2 && r[0] == "[" && r[|r| - 1] == Spaces(currentIndent) + "]"
    decreases v, 0
  {
    var items := v.items;
    ["["]
    + seq(|items|, i requires 0 <= i < |items| =>
        Spaces(currentIndent + indent) + FormatValue(items[i], currentIndent + indent, indent, maxLineLength)
        + Comma(i, |items|))
    + [Spaces(currentIndent) + "]"]
  }

  /** `format_json_prettier(obj)` with its default indent of 2 and line budget of
      80: a non-empty text that opens and closes with the brackets of a top-level
      container. */
  function FormatJsonPrettier(obj: Json): (r: string)
    ensures r != []
    ensures obj.Obj? ==> r[0] == '{' && r[|r| - 1] == '}'
    ensures obj.Arr? ==> r[0] == '[' && r[|r| - 1] == ']'
  {
    FormatValue(obj, 0, 2, 80)
  }

  // ---------------------------------------------------------------------------
  // Properties of the formatter
  // ---------------------------------------------------------------------------

  /** Joined lines start with the first line's first character and end with the
      last line's last character. */
  lemma JoinEnds(lines: seq<string>, sep: string)
    requires |lines| >= 2 && lines[0] != [] && lines[|lines| - 1] != []
    ensures Join(lines, sep) != []
    ensures Join(lines, sep)[0] == lines[0][0]
    ensures Join(lines, sep)[|Join(lines, sep)| - 1] == lines[|lines| - 1][|lines[|lines| - 1]| - 1]
  {
    JoinFirstAndLast(lines, sep);
  }

  /** Joining two or more lines puts a newline in the text. */
  lemma JoinLinesHasNewline(lines: seq<string>)
    requires |lines| >= 2
    ensures !NoNewline(Join(lines, "\n"))
  {
    var init := Join(lines[..|lines| - 1], "\n");
    assert Join(lines, "\n") == init + "\n" + lines[|lines| - 1];
    assert Join(lines, "\n")[|init|] == '\n';
  }

  /** Empty containers print as exactly `{}` and `[]`, at any indent. */
  lemma EmptyContainers(currentIndent: nat, indent: nat, maxLineLength: int)
    ensures FormatValue(Obj([]), currentIndent, indent, maxLineLength) == "{}"
    ensures FormatValue(Arr([]), currentIndent, indent, maxLineLength) == "[]"
  {
  }

  /** A non-empty array of scalars prints as its one-line compact encoding exactly
      when that encoding fits in `maxLineLength`; otherwise the output spans several
      lines and so differs from the compact encoding. */
  lemma ScalarArrayInlineIff(items: seq<Json>, currentIndent: nat, indent: nat, maxLineLength: int)
    requires items != [] && AllScalar(items)
    ensures FormatValue(Arr(items), currentIndent, indent, maxLineLength) == CompactArray(items)
        <==> |CompactArray(items)| <= maxLineLength
  {
    if |CompactArray(items)| > maxLineLength {
      JoinLinesHasNewline(ArrayLines(Arr(items), currentIndent, indent, maxLineLength));
    }
  }

  /** An expanded array: `[`, then each item on its own line at the deeper indent,
      formatted at that indent and followed by a comma except the last, then `]`
      alone on a line at the current indent. */
  lemma ArrayLayout(items: seq<Json>, currentIndent: nat, indent: nat, maxLineLength: int, lines: seq<string>)
    requires items != []
    requires !AllScalar(items) || |CompactArray(items)| > maxLineLength
    requires lines == ArrayLines(Arr(items), currentIndent, indent, maxLineLength)
    ensures FormatValue(Arr(items), currentIndent, indent, maxLineLength) == Join(lines, "\n")
    ensures && |lines| == |items| + 2
      && lines[0] == "["
      && lines[|lines| - 1] == Spaces(currentIndent) + "]"
      && forall i :: 0 <= i < |items| ==>
           lines[i + 1] == Spaces(currentIndent + indent)
                           + FormatValue(items[i], currentIndent + indent, indent, maxLineLength)
                           + (if i < |items| - 1 then "," else "")
  {
    ArrayFrame(items, currentIndent, indent, maxLineLength, lines);
    forall i | 0 <= i < |items|
      ensures lines[i + 1] == Spaces(currentIndent + indent)
                              + FormatValue(items[i], currentIndent + indent, indent, maxLineLength)
                              + (if i < |items| - 1 then "," else "")
    {
      ItemLine(items, currentIndent, indent, maxLineLength, lines, i);
    }
  }

  /** The frame of an expanded array's text, as `ObjectFrame` for objects. */
  lemma ArrayFrame(items: seq<Json>, currentIndent: nat, indent: nat, maxLineLength: int, lines: seq<string>)
    requires items != []
    requires !AllScalar(items) || |CompactArray(items)| > maxLineLength
    requires lines == ArrayLines(Arr(items), currentIndent, indent, maxLineLength)
    ensures FormatValue(Arr(items), currentIndent, indent, maxLineLength) == Join(lines, "\n")
    ensures |lines| == |items| + 2 && lines[0] == "[" && lines[|lines| - 1] == Spaces(currentIndent) + "]"
  {
  }

  /** One item line of an expanded array. */
  lemma ItemLine(items: seq<Json>, currentIndent: nat, indent: nat, maxLineLength: int, lines: seq<string>, i: nat)
    requires i < |items|
    requires lines == ArrayLines(Arr(items), currentIndent, indent, maxLineLength)
    ensures lines[i + 1] == Spaces(currentIndent + indent)
                            + FormatValue(items[i], currentIndent + indent, indent, maxLineLength)
                            + (if i < |items| - 1 then "," else "")
  {
  }

  /** In an expanded array every item line but the last ends with a comma: no
      formatted value itself ends with one. */
  lemma ArrayCommas(items: seq<Json>, currentIndent: nat, indent: nat, maxLineLength: int, lines: seq<string>)
    requires items != []
    requires !AllScalar(items) || |CompactArray(items)| > maxLineLength
    requires lines == ArrayLines(Arr(items), currentIndent, indent, maxLineLength)
    ensures forall i :: 0 < i < |lines| - 1 ==> lines[i] != [] && (lines[i][|lines[i]| - 1] == ',' <==> i < |lines| - 2)
  {
    ArrayLayout(items, currentIndent, indent, maxLineLength, lines);
    forall i | 0 < i < |lines| - 1
      ensures lines[i] != [] && (lines[i][|lines[i]| - 1] == ',' <==> i < |lines| - 2)
    {
      var text := FormatValue(items[i - 1], currentIndent + indent, indent, maxLineLength);
      LastOfSuffixed(Spaces(currentIndent + indent) + text, Comma(i - 1, |items|), lines[i]);
    }
  }

  /** The last character of `s + suffix`, where `suffix` is a comma or nothing. */
  lemma LastOfSuffixed(s: string, suffix: string, line: string)
    requires s != [] && (suffix == "," || suffix == "") && line == s + suffix
    ensures line != [] && line[|line| - 1] == (if suffix == "" then s[|s| - 1] else ',')
  {
  }

  /** An array holding an object or an array is expanded one item per line,
      however short it is. */
  lemma ContainerArrayExpanded(items: seq<Json>, currentIndent: nat, indent: nat, maxLineLength: int)
    requires exists i :: 0 <= i < |items| && !IsScalar(items[i])
    ensures FormatValue(Arr(items), currentIndent, indent, maxLineLength)
         == Join(ArrayLines(Arr(items), currentIndent, indent, maxLineLength), "\n")
    ensures !NoNewline(FormatValue(Arr(items), currentIndent, indent, maxLineLength))
  {
    var lines := ArrayLines(Arr(items), currentIndent, indent, maxLineLength);
    ArrayLayout(items, currentIndent, indent, maxLineLength, lines);
    JoinLinesHasNewline(lines);
  }

  /** A non-empty object: `{`, then one line per entry in insertion order, each
      indented by `currentIndent + indent`, holding the ASCII-escaped key, `": "`,
      the value formatted at the deeper indent and a comma except after the last
      entry, then `}` alone on a line at the current indent. */
  lemma ObjectLayout(entries: seq<(string, Json)>, currentIndent: nat, indent: nat, maxLineLength: int, lines: seq<string>)
    requires entries != []
    requires lines == ObjectLines(Obj(entries), currentIndent, indent, maxLineLength)
    ensures FormatValue(Obj(entries), currentIndent, indent, maxLineLength) == Join(lines, "\n")
    ensures && |lines| == |entries| + 2
      && lines[0] == "{"
      && lines[|lines| - 1] == Spaces(currentIndent) + "}"
      && forall i :: 0 <= i < |entries| ==>
           lines[i + 1] == Spaces(currentIndent + indent) + EncodeString(entries[i].0, true) + ": "
                           + FormatValue(entries[i].1, currentIndent + indent, indent, maxLineLength)
                           + (if i < |entries| - 1 then "," else "")
  {
    ObjectFrame(entries, currentIndent, indent, maxLineLength, lines);
    forall i | 0 <= i < |entries|
      ensures lines[i + 1] == Spaces(currentIndent + indent) + EncodeString(entries[i].0, true) + ": "
                              + FormatValue(entries[i].1, currentIndent + indent, indent, maxLineLength)
                              + (if i < |entries| - 1 then "," else "")
    {
      EntryLine(entries, currentIndent, indent, maxLineLength, lines, i);
    }
  }

  /** One entry line of an expanded object. */
  lemma EntryLine(entries: seq<(string, Json)>, currentIndent: nat, indent: nat, maxLineLength: int, lines: seq<string>, i: nat)
    requires i < |entries|
    requires lines == ObjectLines(Obj(entries), currentIndent, indent, maxLineLength)
    ensures lines[i + 1] == Spaces(currentIndent + indent) + EncodeString(entries[i].0, true) + ": "
                            + FormatValue(entries[i].1, currentIndent + indent, indent, maxLineLength)
                            + (if i < |entries| - 1 then "," else "")
  {
    assert lines[i + 1] == KeyLine(entries[i].0, entries[i].1, i, |entries|, currentIndent, indent, maxLineLength);
  }

  /** In an expanded object every entry line but the last ends with a comma. */
  lemma ObjectCommas(entries: seq<(string, Json)>, currentIndent: nat, indent: nat, maxLineLength: int, lines: seq<string>)
    requires entries != []
    requires lines == ObjectLines(Obj(entries), currentIndent, indent, maxLineLength)
    ensures forall i :: 0 < i < |lines| - 1 ==> lines[i] != [] && (lines[i][|lines[i]| - 1] == ',' <==> i < |lines| - 2)
  {
    ObjectLayout(entries, currentIndent, indent, maxLineLength, lines);
    forall i | 0 < i < |lines| - 1
      ensures lines[i] != [] && (lines[i][|lines[i]| - 1] == ',' <==> i < |lines| - 2)
    {
      var text := FormatValue(entries[i - 1].1, currentIndent + indent, indent, maxLineLength);
      LastOfSuffixed(Spaces(currentIndent + indent) + EncodeString(entries[i - 1].0, true) + ": " + text,
        Comma(i - 1, |entries|), lines[i]);
    }
  }

  /** One character is escaped alike in both modes exactly when it is at most U+007E. */
  lemma EscapeCharAgreeIff(c: char)
    ensures c as int <= 0x7E ==> EscapeChar(c, true) == EscapeChar(c, false)
    ensures c as int > 0x7E ==> |EscapeChar(c, true)| > |EscapeChar(c, false)|
  {
  }

  /** Keys go through `json.dumps(k)` (ASCII escaping) and values through
      `ensure_ascii=False`: the two encodings of a string agree exactly when every
      character of it is at most U+007E, and otherwise the key form is longer. */
  lemma {:induction false} KeyAndValueEscapingAgreeIff(s: string)
    ensures EscapeString(s, true) == EscapeString(s, false) <==> forall i :: 0 <= i < |s| ==> s[i] as int <= 0x7E
    ensures !(forall i :: 0 <= i < |s| ==> s[i] as int <= 0x7E) ==> |EscapeString(s, true)| > |EscapeString(s, false)|
  {
    if s != [] {
      var init, c := s[..|s| - 1], s[|s| - 1];
      KeyAndValueEscapingAgreeIff(init);
      EscapeCharAgreeIff(c);
      assert forall i :: 0 <= i < |init| ==> init[i] == s[i];
      assert EscapeString(s, true) == EscapeString(init, true) + EscapeChar(c, true);
      assert EscapeString(s, false) == EscapeString(init, false) + EscapeChar(c, false);
      if !(forall i :: 0 <= i < |s| ==> s[i] as int <= 0x7E) {
        var i :| 0 <= i < |s| && s[i] as int > 0x7E;
        if i < |init| {
          assert init[i] as int > 0x7E;
          assert |EscapeString(init, true)| > |EscapeString(init, false)|;
        }
        assert |EscapeString(s, true)| > |EscapeString(s, false)|;
      }
    }
  }

  /** So a key and a value with the same text may print differently: `"é"` as a
      key is `"\u00e9"`, as a value `"é"`. */
  lemma KeyAndValueEscapingDiffer()
    ensures EncodeString("\U{E9}", true) == "\"\\u00e9\""
    ensures EncodeString("\U{E9}", false) == "\"\U{E9}\""
  {
    assert EscapeString("\U{E9}", true) == EscapeString("", true) + EscapeChar('\U{E9}', true);
  }

  /** The top-level call starts at indent 0: a non-empty object opens with its bracket and a newline and closes with a newline and
      its bracket in column 0. */
  lemma TopLevelLayout(obj: Json)
    requires obj.Obj? && obj.entries != []
    ensures |FormatJsonPrettier(obj)| >= 4
    ensures FormatJsonPrettier(obj)[..2] == "{\n"
    ensures FormatJsonPrettier(obj)[|FormatJsonPrettier(obj)| - 2..] == "\n}"
  {
    var lines := ObjectLines(obj, 0, 2, 80);
    ObjectFrame(obj.entries, 0, 2, 80, lines);
    assert Spaces(0) == [];
    FramedLines(lines, "{", "}");
  }

  /** Lines from a one-character opening line to a one-character closing line,
      joined with newlines. */
  lemma FramedLines(lines: seq<string>, open: string, close: string)
    requires |lines| >= 3 && |open| == 1 && |close| == 1
    requires lines[0] == open && lines[|lines| - 1] == close
    ensures |Join(lines, "\n")| >= 4
    ensures Join(lines, "\n")[..2] == open + "\n"
    ensures Join(lines, "\n")[|Join(lines, "\n")| - 2..] == "\n" + close
  {
    JoinFirstAndLast(lines, "\n");
    JoinFirstAndLast(lines[1..], "\n");
    Framed(open, Join(lines[1..], "\n"), Join(lines[..|lines| - 1], "\n"), close, Join(lines, "\n"));
  }

  /** The frame of a non-empty object's text: its lines, joined, start with `{`
      and end with `}` at the current indent. */
  lemma ObjectFrame(entries: seq<(string, Json)>, currentIndent: nat, indent: nat, maxLineLength: int, lines: seq<string>)
    requires entries != []
    requires lines == ObjectLines(Obj(entries), currentIndent, indent, maxLineLength)
    ensures FormatValue(Obj(entries), currentIndent, indent, maxLineLength) == Join(lines, "\n")
    ensures |lines| == |entries| + 2 && lines[0] == "{" && lines[|lines| - 1] == Spaces(currentIndent) + "}"
  {
  }

  /** A text that starts with `open` and a newline and ends with a newline and `close`. */
  lemma Framed(open: string, rest: string, init: string, close: string, r: string)
    requires |open| == 1 && |close| == 1
    requires r == open + "\n" + rest && r == init + "\n" + close
    ensures |r| >= 2 && r[..2] == open + "\n" && r[|r| - 2..] == "\n" + close
  {
  }

  lemma CompactOneTwoThree()
    ensures CompactArray([Num(1), Num(2), Num(3)]) == "[1, 2, 3]"
  {
    var items := [Num(1), Num(2), Num(3)];
    var encoded := seq(|items|, i requires 0 <= i < |items| => EncodeScalar(items[i]));
    assert encoded == ["1", "2", "3"];
    assert Join(["1", "2", "3"], ", ") == "1, 2, 3" by {
      assert ["1", "2", "3"][..2] == ["1", "2"];
      assert ["1", "2"][..1] == ["1"];
    }
  }

  lemma LineOfKeyA(line: string)
    requires line == Spaces(2) + EncodeString("a", true) + ": " + "[1, 2, 3]" + Comma(0, 1)
    ensures line == "  \"a\": [1, 2, 3]"
  {
    assert EscapeString("a", true) == EscapeString("", true) + EscapeChar('a', true);
    assert Spaces(2) == "  ";
  }

  lemma ShortArrayUnderKeyLines()
    ensures ObjectLines(Obj([("a", Arr([Num(1), Num(2), Num(3)]))]), 0, 2, 80) == ["{", "  \"a\": [1, 2, 3]", "}"]
  {
    var items := [Num(1), Num(2), Num(3)];
    var v := Obj([("a", Arr(items))]);
    CompactOneTwoThree();
    assert EntryValue("a", Arr(items), 0, 2, 80) == "[1, 2, 3]";
    var lines := ObjectLines(v, 0, 2, 80);
    assert lines[1] == KeyLine("a", Arr(items), 0, 1, 0, 2, 80);
    LineOfKeyA(lines[1]);
    assert Spaces(0) + "}" == "}";
  }

  /** A short array under a key stays on the key's line:
      `{"a": [1, 2, 3]}` prints as three lines. */
  lemma ShortArrayUnderKey()
    ensures FormatJsonPrettier(Obj([("a", Arr([Num(1), Num(2), Num(3)]))])) == "{" + "\n" + "  \"a\": [1, 2, 3]" + "\n" + "}"
  {
    var v := Obj([("a", Arr([Num(1), Num(2), Num(3)]))]);
    var lines := ["{", "  \"a\": [1, 2, 3]", "}"];
    ShortArrayUnderKeyLines();
    ObjectFrame(v.entries, 0, 2, 80, lines);
    JoinThree("{", "  \"a\": [1, 2, 3]", "}", "\n");
  }
}
