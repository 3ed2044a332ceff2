/** The multi-line dotenv parser (`DotEnv._parse_content` and its helpers, aquilia/dotenv.py). */
module Dotenv {
  import opened Common

  // ---- Text primitives of the host language ------------------------------------------------

  /** Line boundaries of `splitlines`, "\r\n" counting as one. */
  predicate IsBreak(c: char) {
    var i := c as int;
    10 <= i <= 13 || 28 <= i <= 30 || i == 0x85 || i == 0x2028 || i == 0x2029
  }

  /** What `strip` removes. */
  predicate IsSpace(c: char) {
    var i := c as int;
    9 <= i <= 13 || 28 <= i <= 32 || i == 0x85 || i == 0xA0 || i == 0x1680 || 0x2000 <= i <= 0x200A
    || i == 0x2028 || i == 0x2029 || i == 0x202F || i == 0x205F || i == 0x3000
  }

  /** `splitlines`, with `cur` the part of the current line already read. */
  function Lines(s: string, cur: string): seq<string>
    decreases |s|
  {
    if s == [] then (if cur == [] then [] else [cur])
    else if IsBreak(s[0]) then
      [cur] + Lines(if s[0] == '\r' && |s| > 1 && s[1] == '\n' then s[2..] else s[1..], [])
    else Lines(s[1..], cur + [s[0]])
  }

  function LStrip(s: string): (r: string)
    ensures |r| <= |s| && r == s[|s| - |r|..]
    ensures r != [] ==> !IsSpace(r[0])
  {
    if s != [] && IsSpace(s[0]) then LStrip(s[1..]) else s
  }

  function RStrip(s: string): (r: string)
    ensures r <= s
    ensures r != [] ==> !IsSpace(r[|r| - 1])
  {
    if s != [] && IsSpace(s[|s| - 1]) then RStrip(s[..|s| - 1]) else s
  }

  function Strip(s: string): string {
    RStrip(LStrip(s))
  }

  function Find(s: string, c: char): (i: nat)
    ensures i <= |s| && (i < |s| ==> s[i] == c)
    ensures forall j :: 0 <= j < i ==> s[j] != c
    ensures i < |s| <==> c in s
  {
    if s == [] then 0 else if s[0] == c then 0 else 1 + Find(s[1..], c)
  }

  function Join(parts: seq<string>): string {
    if parts == [] then [] else if |parts| == 1 then parts[0] else parts[0] + "\n" + Join(parts[1..])
  }

  function Replace(s: string, from: string, to: string): string
    requires from != []
    decreases |s|
  {
    if s == [] then []
    else if from <= s then to + Replace(s[|from|..], from, to)
    else [s[0]] + Replace(s[1..], from, to)
  }

  predicate IsNameStart(c: char) {
    'a' <= c <= 'z' || 'A' <= c <= 'Z' || c == '_'
  }

  predicate IsNameChar(c: char) {
    IsNameStart(c) || '0' <= c <= '9'
  }

  predicate IsName(key: string) {
    key != [] && IsNameStart(key[0]) && forall c :: c in key ==> IsNameChar(c)
  }

  // ---- Specification: one entry, then all lines --------------------------------------------

  /** Lines up to one with the closing quote, which is cut there; all lines if there is none. */
  function Collect(lines: seq<string>, quote: char): (r: (seq<string>, seq<string>))
    ensures |r.1| <= |lines| && r.1 == lines[|lines| - |r.1|..]
  {
    if lines == [] then ([], [])
    else if quote in lines[0] then ([lines[0][..Find(lines[0], quote)]], lines[1..])
    else
      var (parts, rest) := Collect(lines[1..], quote);
      ([lines[0]] + parts, rest)
  }

  /** A value that starts with `quote`, and the lines left over. */
  function Quoted(raw: string, lines: seq<string>, quote: char): (r: (string, seq<string>))
    requires raw != []
    ensures |r.1| <= |lines| && r.1 == lines[|lines| - |r.1|..]
  {
    var content := raw[1..];
    if quote in content then (content[..Find(content, quote)], lines)
    else
      var (parts, rest) := Collect(lines, quote);
      (Join([content] + parts), rest)
  }

  /** The escapes of double-quoted values, replaced one kind after the other. */
  function ProcessEscapes(s: string): string {
    Replace(Replace(Replace(Replace(Replace(Replace(s, "\\n", "\n"), "\\r", "\r"), "\\t", "\t"),
                            "\\\"", "\""), "\\$", "$"), "\\\\", "\\")
  }

  function BeforeComment(s: string, escaped: bool): string {
    if s == [] then []
    else if escaped then [s[0]] + BeforeComment(s[1..], false)
    else if s[0] == '\\' then BeforeComment(s[1..], true)
    else if s[0] == '#' then []
    else [s[0]] + BeforeComment(s[1..], false)
  }

  function Value(raw: string, lines: seq<string>): (r: (string, seq<string>))
    ensures |r.1| <= |lines| && r.1 == lines[|lines| - |r.1|..]
  {
    if raw != [] && raw[0] == '"' then
      var (value, rest) := Quoted(raw, lines, '"');
      (ProcessEscapes(value), rest)
    else if raw != [] && raw[0] == '\'' then Quoted(raw, lines, '\'')
    else (Strip(BeforeComment(raw, false)), lines)
  }

  function WithoutExport(line: string): string {
    if "export " <= line then Strip(line[7..]) else line
  }

  /** The entry opened by the first line, if any, and the lines after it. */
  function Entry(lines: seq<string>): (r: (Option<(string, string)>, seq<string>))
    requires lines != []
    ensures |r.1| < |lines| && r.1 == lines[|lines| - |r.1|..]
  {
    var stripped := Strip(lines[0]);
    if stripped == [] || stripped[0] == '#' then (None, lines[1..])
    else
      var line := WithoutExport(stripped);
      var eq := Find(line, '=');
      if eq == |line| then (None, lines[1..])
      else
        var key := Strip(line[..eq]);
        if !IsName(key) then (None, lines[1..])
        else
          var (value, rest) := Value(Strip(line[eq + 1..]), lines[1..]);
          (Some((key, value)), rest)
  }

  type Entries = seq<(string, string)>

  /** Dictionary assignment: a known key keeps its place. */
  function Put(d: Entries, k: string, v: string): Entries {
    if d == [] then [(k, v)]
    else if d[0].0 == k then [(k, v)] + d[1..]
    else [d[0]] + Put(d[1..], k, v)
  }

  function ParseLines(lines: seq<string>, d: Entries): Entries
    decreases |lines|
  {
    if lines == [] then d
    else
      var (entry, rest) := Entry(lines);
      ParseLines(rest, if entry.None? then d else Put(d, entry.value.0, entry.value.1))
  }

  function WithoutBom(s: string): string {
    if s != [] && s[0] as int == 0xFEFF then s[1..] else s
  }

  function Parse(content: string): Entries {
    ParseLines(Lines(WithoutBom(content), []), [])
  }

  // ---- The parser --------------------------------------------------------------------------

  method ParseQuoted(raw: string, lines: seq<string>, start: nat, quote: char) returns (value: string, idx: nat)
    requires raw != [] && start <= |lines|
    ensures start <= idx <= |lines|
    ensures (value, lines[idx..]) == Quoted(raw, lines[start..], quote)
  {
    var content := raw[1..];
    if quote in content {
      return content[..Find(content, quote)], start;
    }
    var parts := [content];
    idx := start;
    ghost var all := Collect(lines[start..], quote);
    while idx < |lines|
      invariant start <= idx <= |lines|
      invariant [content] + all.0 == parts + Collect(lines[idx..], quote).0
      invariant all.1 == Collect(lines[idx..], quote).1
    {
      var line := lines[idx];
      assert lines[idx..][1..] == lines[idx + 1..];
      idx := idx + 1;
      if quote in line {
        parts := parts + [line[..Find(line, quote)]];
        break;
      }
      ghost var later := Collect(lines[idx..], quote).0;
      assert parts + ([line] + later) == (parts + [line]) + later;
      parts := parts + [line];
    }
    assert parts == [content] + all.0 && all.1 == lines[idx..];
    return Join(parts), idx;
  }

  method StripInlineComment(value: string) returns (r: string)
    ensures r == Strip(BeforeComment(value, false))
  {
    var result: string := [];
    var escaped := false;
    ghost var all := BeforeComment(value, false);
    var i := 0;
    while i < |value|
      invariant 0 <= i <= |value|
      invariant all == result + BeforeComment(value[i..], escaped)
    {
      var c := value[i];
      assert value[i..][1..] == value[i + 1..];
      i := i + 1;
      if escaped {
        result := result + [c];
        escaped := false;
      } else if c == '\\' {
        escaped := true;
      } else if c == '#' {
        break;
      } else {
        result := result + [c];
      }
    }
    assert result == all;
    return Strip(result);
  }

  /** One round of the parse loop. */
  method ReadEntry(lines: seq<string>, start: nat) returns (entry: Option<(string, string)>, i: nat)
    requires start < |lines|
    ensures start < i <= |lines|
    ensures (entry, lines[i..]) == Entry(lines[start..])
  {
    hide Quoted, BeforeComment, ProcessEscapes, IsName, Strip, Find, WithoutExport;
    assert lines[start..][1..] == lines[start + 1..];
    var line := Strip(lines[start]);
    i := start + 1;
    if line == [] || line[0] == '#' {
      return None, i;
    }
    line := WithoutExport(line);
    var eq := Find(line, '=');
    if eq == |line| {
      return None, i;
    }
    var key := Strip(line[..eq]);
    if !IsName(key) {
      return None, i;
    }
    var raw := Strip(line[eq + 1..]);
    var value: string;
    if raw != [] && raw[0] == '"' {
      value, i := ParseQuoted(raw, lines, i, '"');
      value := ProcessEscapes(value);
    } else if raw != [] && raw[0] == '\'' {
      value, i := ParseQuoted(raw, lines, i, '\'');
    } else {
      value := StripInlineComment(raw);
    }
    return Some((key, value)), i;
  }

  /** The line index always advances and stays in bounds. */
  method ParseContent(content: string) returns (result: Entries)
    ensures result == Parse(content)
  {
    hide Entry, Lines;
    result := [];
    var lines := Lines(WithoutBom(content), []);
    var i := 0;
    while i < |lines|
      invariant 0 <= i <= |lines|
      invariant ParseLines(lines[i..], result) == Parse(content)
      decreases |lines| - i
    {
      var entry;
      entry, i := ReadEntry(lines, i);
      if entry.Some? {
        result := Put(result, entry.value.0, entry.value.1);
      }
    }
  }

  // ---- Quotes that are never closed --------------------------------------------------------

  lemma {:induction false} CollectAll(lines: seq<string>, quote: char)
    requires forall l :: l in lines ==> quote !in l
    ensures Collect(lines, quote) == (lines, [])
  {
    if lines != [] {
      assert lines[0] in lines && lines == [lines[0]] + lines[1..];
      CollectAll(lines[1..], quote);
    }
  }

  /** A quote that is never closed takes the rest of the text into the value. */
  lemma UnclosedQuote(quote: char, t: string, lines: seq<string>)
    requires quote !in t && forall l :: l in lines ==> quote !in l
    ensures Quoted([quote] + t, lines, quote) == (Join([t] + lines), [])
  {
    CollectAll(lines, quote);
    assert ([quote] + t)[1..] == t;
  }

  // ---- Unquoted values and their comments --------------------------------------------------

  /** `e` is a spelling of `t`: a backslash stands before every `\` and `#` of `t`, and possibly before
      other characters. */
  predicate Spells(e: string, t: string)
    decreases |e|
  {
    if e == [] then t == []
    else if e[0] == '\\' then |e| > 1 && t != [] && t[0] == e[1] && Spells(e[2..], t[1..])
    else e[0] != '#' && t != [] && t[0] == e[0] && Spells(e[1..], t[1..])
  }

  /** Where reading stops: at the end, at a comment, or at a lone backslash before the end. */
  predicate Stops(tail: string) {
    tail == [] || tail[0] == '#' || tail == "\\"
  }

  lemma {:induction false} SpellingIsRead(e: string, t: string, tail: string)
    requires Spells(e, t) && Stops(tail)
    ensures BeforeComment(e + tail, false) == t
    decreases |e|
  {
    var s := e + tail;
    if e == [] {
      assert s == tail;
    } else if e[0] == '\\' {
      assert s[1..][0] == e[1] && s[1..][1..] == e[2..] + tail;
      SpellingIsRead(e[2..], t[1..], tail);
      assert t == [t[0]] + t[1..];
    } else {
      assert s[1..] == e[1..] + tail;
      SpellingIsRead(e[1..], t[1..], tail);
      assert t == [t[0]] + t[1..];
    }
  }

  lemma {:induction false} ReadingIsSpelled(s: string) returns (e: string, tail: string)
    ensures s == e + tail && Spells(e, BeforeComment(s, false)) && Stops(tail)
    decreases |s|
  {
    if Stops(s) {
      e, tail := [], s;
    } else if s[0] == '\\' {
      var e', tail' := ReadingIsSpelled(s[2..]);
      e, tail := s[..2] + e', tail';
      assert e[2..] == e' && s[1..][1..] == s[2..];
    } else {
      var e', tail' := ReadingIsSpelled(s[1..]);
      e, tail := [s[0]] + e', tail';
      assert e[1..] == e';
    }
  }

  /** An unquoted value reads as `t` if and only if it begins with a spelling of `t` that ends at the
      first `#` without a backslash, at the end, or at a backslash that is the last character. */
  lemma BeforeCommentIff(s: string, t: string)
    ensures BeforeComment(s, false) == t <==> exists e, tail :: s == e + tail && Spells(e, t) && Stops(tail)
  {
    if BeforeComment(s, false) == t {
      var e, tail := ReadingIsSpelled(s);
    }
    forall e, tail | s == e + tail && Spells(e, t) && Stops(tail)
      ensures BeforeComment(s, false) == t
    {
      SpellingIsRead(e, t, tail);
    }
  }

  /** The shortest spelling: only `\` and `#` are escaped. */
  function EscapeComment(t: string): string {
    if t == [] then [] else (if t[0] == '\\' || t[0] == '#' then ['\\', t[0]] else [t[0]]) + EscapeComment(t[1..])
  }

  lemma {:induction false} EscapeSpells(t: string)
    ensures Spells(EscapeComment(t), t)
    ensures '\\' !in t && '#' !in t ==> EscapeComment(t) == t
  {
    if t != [] {
      EscapeSpells(t[1..]);
      var rest := EscapeComment(t[1..]);
      assert t == [t[0]] + t[1..];
      assert (['\\', t[0]] + rest)[2..] == rest && ([t[0]] + rest)[1..] == rest;
    }
  }

  /** An escaped text reads back, alone and with a comment behind it. */
  lemma EscapedTextReadsBack(t: string, comment: string)
    ensures BeforeComment(EscapeComment(t), false) == BeforeComment(EscapeComment(t) + ("#" + comment), false) == t
  {
    var e := EscapeComment(t);
    EscapeSpells(t);
    SpellingIsRead(e, t, "#" + comment);
    SpellingIsRead(e, t, []);
    assert e + [] == e;
  }

  // ---- Rendering and reading back ----------------------------------------------------------

  /** `split("\n")`, with `cur` the part of the current line already read. */
  function Split(s: string, cur: string): (r: seq<string>)
    ensures r != []
  {
    if s == [] then [cur]
    else if s[0] == '\n' then [cur] + Split(s[1..], [])
    else Split(s[1..], cur + [s[0]])
  }

  function RenderEntry(k: string, v: string): string {
    k + "='" + v + "'\n"
  }

  function Render(d: Entries): string {
    if d == [] then [] else RenderEntry(d[0].0, d[0].1) + Render(d[1..])
  }

  ghost predicate OnlyNewlines(s: string) {
    forall c :: c in s && IsBreak(c) ==> c == '\n'
  }

  ghost predicate NoTrailingSpace(s: string) {
    s != [] ==> !IsSpace(s[|s| - 1])
  }

  /** The values that survive: no single quote, no line break other than a newline, and no white space
      at the end of the first line of several. */
  ghost predicate Clean(v: string) {
    && '\'' !in v
    && OnlyNewlines(v)
    && ('\n' in v ==> NoTrailingSpace(v[..Find(v, '\n')]))
  }

  lemma {:induction false} LinesOfBlock(s: string, rest: string, cur: string)
    requires OnlyNewlines(s)
    ensures Lines(s + "\n" + rest, cur) == Split(s, cur) + Lines(rest, [])
    decreases |s|
  {
    var t := s + "\n" + rest;
    if s == [] {
      assert t[1..] == rest;
    } else {
      assert t[0] == s[0] && t[1..] == s[1..] + "\n" + rest;
      assert s[0] in s;
      LinesOfBlock(s[1..], rest, if s[0] == '\n' then [] else cur + [s[0]]);
    }
  }

  lemma {:induction false} SplitAfterPrefix(p: string, s: string, cur: string)
    requires '\n' !in p
    ensures Split(p + s, cur) == Split(s, cur + p)
    decreases |p|
  {
    if p == [] {
      assert p + s == s && cur + p == cur;
    } else {
      assert (p + s)[1..] == p[1..] + s;
      SplitAfterPrefix(p[1..], s, cur + [p[0]]);
      assert cur + p == cur + [p[0]] + p[1..];
    }
  }

  lemma {:induction false} JoinSplit(s: string, cur: string)
    ensures Join(Split(s, cur)) == cur + s
    decreases |s|
  {
    if s != [] {
      if s[0] == '\n' {
        JoinSplit(s[1..], []);
        var rest := Split(s[1..], []);
        assert ([cur] + rest)[1..] == rest;
        assert cur + "\n" + ([] + s[1..]) == cur + s;
      } else {
        JoinSplit(s[1..], cur + [s[0]]);
        assert cur + [s[0]] + s[1..] == cur + s;
      }
    }
  }

  /** Collecting stops at the quote closing the block and returns the lines of the value. */
  lemma {:induction false} CollectBlock(s: string, cur: string, rest: seq<string>)
    requires '\'' !in s && '\'' !in cur
    ensures Collect(Split(s + "'", cur) + rest, '\'') == (Split(s, cur), rest)
    decreases |s|
  {
    var lines := Split(s + "'", cur) + rest;
    if s == [] {
      assert "'"[1..] == [];
      assert Split(s + "'", cur) == [cur + "'"];
      assert lines[1..] == rest;
      assert Find(cur + "'", '\'') == |cur|;
      assert (cur + "'")[..|cur|] == cur;
    } else {
      assert (s + "'")[1..] == s[1..] + "'";
      if s[0] == '\n' {
        CollectBlock(s[1..], [], rest);
        assert lines[0] == cur && lines[1..] == Split(s[1..] + "'", []) + rest;
      } else {
        CollectBlock(s[1..], cur + [s[0]], rest);
      }
    }
  }

  lemma {:induction false} SplitLine(s: string, cur: string)
    requires '\n' !in s
    ensures Split(s, cur) == [cur + s]
    decreases |s|
  {
    if s == [] {
      assert cur + s == cur;
    } else {
      SplitLine(s[1..], cur + [s[0]]);
      assert cur + [s[0]] + s[1..] == cur + s;
    }
  }

  lemma StripWithEnds(s: string)
    requires s != [] && !IsSpace(s[0]) && !IsSpace(s[|s| - 1])
    ensures Strip(s) == s
  {
  }

  /** A prefix that starts and ends without space survives stripping. */
  lemma {:induction false} RStripKeeps(p: string, s: string)
    requires p <= s && p != [] && !IsSpace(p[|p| - 1])
    ensures p <= RStrip(s)
    decreases |s|
  {
    if |s| > |p| && IsSpace(s[|s| - 1]) {
      RStripKeeps(p, s[..|s| - 1]);
    }
  }

  lemma StripKeeps(p: string, s: string)
    requires p <= s && p != [] && !IsSpace(p[0]) && !IsSpace(p[|p| - 1])
    ensures p <= Strip(s) <= s
  {
    assert LStrip(s) == s;
    RStripKeeps(p, s);
  }

  lemma NameChars(c: char)
    ensures IsNameChar(c) ==> !IsSpace(c) && !IsBreak(c) && c != '=' && c != '#' && c != '\'' && c as int != 0xFEFF
  {
  }

  lemma NotExport(k: string, line: string)
    requires IsName(k) && k + "=" <= line
    ensures WithoutExport(line) == line
  {
    var word := "export ";
    assert forall i :: 0 <= i < 7 ==> word[i] != '=';
    assert line[|k|] == (k + "=")[|k|] == '=';
    if |k| > 6 {
      assert k[6] in k && line[6] == (k + "=")[6] == k[6];
      NameChars(k[6]);
    }
    assert |line| > 6 ==> exists i :: 0 <= i < 7 && line[i] != word[i] by {
      var i := if |k| > 6 then 6 else |k|;
      assert |line| > 6 ==> line[i] != word[i];
    }
  }

  lemma FindAfterPrefix(p: string, s: string, c: char)
    requires c !in p
    ensures Find(p + [c] + s, c) == |p|
  {
    var t := p + [c] + s;
    assert t[|p|] == c;
    assert forall j :: 0 <= j < |p| ==> t[j] == p[j] && p[j] in p;
  }

  lemma HeaderPieces(k: string, t: string)
    requires IsName(k) && NoTrailingSpace("'" + t)
    ensures var line := k + "='" + t;
      && line[0] != '#' && WithoutExport(line) == line
      && Find(line, '=') == |k|
      && Strip(line[..|k|]) == k && Strip(line[|k| + 1..]) == "'" + t
  {
    var line := k + "='" + t;
    assert k[0] in k && k[|k| - 1] in k;
    NameChars(k[0]);
    NameChars(k[|k| - 1]);
    NameChars('=');
    NotExport(k, line);
    assert line == k + ['='] + ("'" + t);
    FindAfterPrefix(k, "'" + t, '=');
    assert line[..|k|] == k && line[|k| + 1..] == "'" + t;
    StripWithEnds(k);
    StripWithEnds("'" + t);
  }

  lemma QuotedValue(t: string, rest: seq<string>)
    ensures Value("'" + t, rest) == Quoted("'" + t, rest, '\'')
  {
    hide Quoted, BeforeComment, ProcessEscapes, Strip;
    assert ("'" + t)[0] == '\'';
  }

  /** A line that strips to `k='t` opens an entry for `k` with the quoted text from `t` on. */
  lemma EntryOfHeader(k: string, t: string, first: string, rest: seq<string>)
    requires IsName(k) && Strip(first) == k + "='" + t && NoTrailingSpace("'" + t)
    ensures Entry([first] + rest) ==
            (Some((k, Quoted("'" + t, rest, '\'').0)), Quoted("'" + t, rest, '\'').1)
  {
    HeaderPieces(k, t);
    QuotedValue(t, rest);
    hide Value, Strip, Find, Quoted, IsName, WithoutExport;
    assert ([first] + rest)[1..] == rest;
  }

  /** A one-line value without single quotes is read back as it is. */
  lemma EntryOfLine(k: string, v: string, rest: seq<string>)
    requires IsName(k) && '\'' !in v && '\n' !in v
    ensures Split(v + "'", k + "='") == [k + "='" + (v + "'")]
    ensures Entry(Split(v + "'", k + "='") + rest) == (Some((k, v)), rest)
  {
    var first := k + "='" + (v + "'");
    SplitLine(v + "'", k + "='");
    assert k[0] in k;
    NameChars(k[0]);
    StripWithEnds(first);
    EntryOfHeader(k, v + "'", first, rest);
    FindAfterPrefix(v, [], '\'');
    hide Entry, Strip, Find;
    assert ("'" + (v + "'"))[1..] == v + "'" == v + ['\''] + [];
    assert (v + "'")[..|v|] == v;
  }

  lemma QuotedOfLines(t: string, b: string, rest: seq<string>)
    requires '\'' !in t && '\'' !in b
    ensures Quoted("'" + t, Split(b + "'", []) + rest, '\'') == (t + "\n" + b, rest)
  {
    CollectBlock(b, [], rest);
    JoinSplit(b, []);
    hide Split, Collect, Find;
    assert ("'" + t)[1..] == t;
    var parts := Split(b, []);
    assert ([t] + parts)[1..] == parts;
    assert Join([t] + parts) == t + "\n" + b;
  }

  lemma EntryOfBroken(k: string, a: string, b: string, t: string, rest: seq<string>)
    requires IsName(k) && '\'' !in a && '\'' !in b && '\n' !in a
    requires t <= a && Strip(k + "='" + a) == k + "='" + t
    ensures Entry([k + "='" + a] + (Split(b + "'", []) + rest)) == (Some((k, t + "\n" + b)), rest)
  {
    StripLastChar(k + "='", t, k + "='" + a);
    EntryOfHeader(k, t, k + "='" + a, Split(b + "'", []) + rest);
    hide Entry, Strip, Quoted, Split, IsName;
    assert forall c :: c in t ==> c in a;
    QuotedOfLines(t, b, rest);
  }

  lemma BlockOfLines(a: string, b: string, p: string)
    requires '\n' !in a
    ensures Split(a + "\n" + b + "'", p) == [p + a] + Split(b + "'", [])
  {
    var tail := "\n" + b + "'";
    SplitAfterPrefix(a, tail, p);
    assert a + "\n" + b + "'" == a + tail;
    assert tail[1..] == b + "'";
  }

  /** What is left of a first line after stripping. */
  lemma HeaderTrim(k: string, a: string) returns (t: string)
    requires IsName(k)
    ensures t <= a && Strip(k + "='" + a) == k + "='" + t
  {
    var p := k + "='";
    assert k[0] in k;
    NameChars(k[0]);
    StripKeeps(p, p + a);
    t := Strip(p + a)[|p|..];
    assert p + a == k + "='" + a && Strip(p + a) == p + t;
    assert (p + a)[|p|..] == a;
    assert t == Strip(p + a)[|p|..] <= (p + a)[|p|..];
  }

  /** A value of several lines without single quotes is read back up to the white space before its
      first newline. */
  lemma EntryOfLines(k: string, a: string, b: string, rest: seq<string>)
    requires IsName(k) && '\'' !in a && '\'' !in b && '\'' !in a + "\n" + b
    requires '\n' !in a && OnlyNewlines(a + "\n" + b)
    ensures var v := a + "\n" + b;
      var (entry, left) := Entry(Split(v + "'", k + "='") + rest);
      left == rest && entry.Some? && entry.value.0 == k && (entry.value.1 == v <==> Clean(v))
  {
    var p := k + "='";
    hide Strip, Split, Clean, Entry;
    BlockOfLines(a, b, p);
    var t := HeaderTrim(k, a);
    EntryOfBroken(k, a, b, t, rest);
    assert Split(a + "\n" + b + "'", p) + rest == [p + a] + (Split(b + "'", []) + rest);
    assert k[0] in k;
    NameChars(k[0]);
    TrimmedIsClean(a, b, t, p);
  }

  /** Reading a rendered value without single quotes and odd line breaks returns exactly its key, leaves
      exactly the lines after it, and returns the value itself if and only if it is clean. */
  lemma EntryOfBlock(k: string, v: string, rest: seq<string>)
    requires IsName(k) && '\'' !in v && OnlyNewlines(v)
    ensures var (entry, left) := Entry(Split(k + "='" + v + "'", []) + rest);
      left == rest && entry.Some? && entry.value.0 == k && (entry.value.1 == v <==> Clean(v))
  {
    var p := k + "='";
    assert forall c :: c in k ==> IsNameChar(c);
    NameChars('\n');
    assert '\n' !in p;
    SplitAfterPrefix(p, v + "'", []);
    assert p + v + "'" == p + (v + "'") && [] + p == p;
    if '\n' !in v {
      EntryOfLine(k, v, rest);
    } else {
      var n := Find(v, '\n');
      assert v == v[..n] + "\n" + v[n + 1..];
      EntryOfLines(k, v[..n], v[n + 1..], rest);
    }
  }

  lemma StripLastChar(p: string, t: string, s: string)
    requires p != [] && p[|p| - 1] == '\'' && Strip(s) == p + t
    ensures NoTrailingSpace("'" + t)
  {
    assert t != [] ==> (p + t)[|p + t| - 1] == t[|t| - 1] == ("'" + t)[|t|];
  }

  /** What is left of the first line is all of it exactly when it does not end in white space. */
  lemma TrimmedIsClean(a: string, b: string, t: string, p: string)
    requires p != [] && !IsSpace(p[0]) && p[|p| - 1] == '\'' && Strip(p + a) == p + t && t <= a
    requires '\'' !in a + "\n" + b && OnlyNewlines(a + "\n" + b) && '\n' !in a
    ensures t + "\n" + b == a + "\n" + b <==> Clean(a + "\n" + b)
  {
    var v := a + "\n" + b;
    FindAfterPrefix(a, b, '\n');
    assert v == a + ['\n'] + b && v[..|a|] == a && v[|a|] == '\n';
    StripLastChar(p, t, p + a);
    if NoTrailingSpace(a) {
      assert a != [] ==> (p + a)[|p + a| - 1] == a[|a| - 1];
      assert a == [] ==> p + a == p;
      StripWithEnds(p + a);
      assert |p + t| == |p + a|;
      assert t == a;
    } else {
      assert t != [] ==> ("'" + t)[|t|] == t[|t| - 1];
      assert |t| < |a|;
      assert |t + "\n" + b| < |v|;
    }
  }

  ghost predicate AllClean(d: Entries) {
    forall e :: e in d ==> IsName(e.0) && Clean(e.1)
  }

  ghost predicate DistinctKeys(d: Entries) {
    forall i, j :: 0 <= i < j < |d| ==> d[i].0 != d[j].0
  }

  lemma {:induction false} PutNew(d: Entries, k: string, v: string)
    requires forall i :: 0 <= i < |d| ==> d[i].0 != k
    ensures Put(d, k, v) == d + [(k, v)]
  {
    if d != [] {
      PutNew(d[1..], k, v);
    }
  }

  /** The lines of a rendered entry followed by other text. */
  lemma LinesOfEntry(k: string, v: string, text: string)
    requires IsName(k) && OnlyNewlines(v)
    ensures Lines(RenderEntry(k, v) + text, []) == Split(k + "='" + v + "'", []) + Lines(text, [])
  {
    var s := k + "='" + v + "'";
    forall c | c in s && IsBreak(c)
      ensures c == '\n'
    {
      NameChars(c);
    }
    assert RenderEntry(k, v) + text == s + "\n" + text;
    LinesOfBlock(s, text, []);
  }

  lemma ReadsFirst(d: Entries, before: Entries)
    requires d != [] && IsName(d[0].0) && Clean(d[0].1) && forall i :: 0 <= i < |before| ==> before[i].0 != d[0].0
    ensures ParseLines(Lines(Render(d), []), before) == ParseLines(Lines(Render(d[1..]), []), before + [d[0]])
  {
    var (k, v) := d[0];
    var text := Render(d[1..]);
    LinesOfEntry(k, v, text);
    EntryOfBlock(k, v, Lines(text, []));
    PutNew(before, k, v);
    hide Entry, Split, Lines, Put, Clean, IsName;
  }

  lemma FirstIsNew(d: Entries, before: Entries)
    requires d != [] && AllClean(d) && DistinctKeys(before + d)
    ensures IsName(d[0].0) && Clean(d[0].1) && AllClean(d[1..])
    ensures forall i :: 0 <= i < |before| ==> before[i].0 != d[0].0
    ensures before + [d[0]] + d[1..] == before + d
  {
    hide Clean, IsName;
    assert d[0] in d && forall e :: e in d[1..] ==> e in d;
    assert forall i :: 0 <= i < |before| ==> before[i] == (before + d)[i];
    assert (before + d)[|before|] == d[0];
  }

  lemma {:induction false} ReadsBack(d: Entries, before: Entries)
    requires AllClean(d) && DistinctKeys(before + d)
    ensures ParseLines(Lines(Render(d), []), before) == before + d
    decreases |d|
  {
    hide Entry, Lines, Clean, IsName;
    if d == [] {
      assert before + d == before;
      assert Lines([], []) == [] by {
        EmptyText();
      }
    } else {
      FirstIsNew(d, before);
      ReadsFirst(d, before);
      ReadsBack(d[1..], before + [d[0]]);
    }
  }

  lemma EmptyText()
    ensures Lines([], []) == []
  {
  }

  /** Writing any distinct valid keys with clean values and parsing the text gives the same entries in
      the same order. */
  lemma ParseInvertsRender(d: Entries)
    requires AllClean(d) && DistinctKeys(d)
    ensures Parse(Render(d)) == d
  {
    assert [] + d == d;
    ReadsBack(d, []);
    if d != [] {
      assert d[0] in d;
      var k := d[0].0;
      assert k[0] in k && Render(d)[0] == k[0];
      NameChars(k[0]);
    }
  }

  // ---- The condition on values is exact ----------------------------------------------------

  ghost predicate AllBreakFree(lines: seq<string>) {
    forall l, c :: l in lines && c in l ==> !IsBreak(c)
  }

  lemma {:induction false} LinesHaveNoBreaks(s: string, cur: string)
    requires forall c :: c in cur ==> !IsBreak(c)
    ensures AllBreakFree(Lines(s, cur))
    ensures cur != [] ==> Lines(s, cur) != [] && cur <= Lines(s, cur)[0]
    decreases |s|
  {
    if s != [] {
      if IsBreak(s[0]) {
        LinesHaveNoBreaks(if s[0] == '\r' && |s| > 1 && s[1] == '\n' then s[2..] else s[1..], []);
      } else {
        LinesHaveNoBreaks(s[1..], cur + [s[0]]);
      }
    }
  }

  lemma {:induction false} LinesAfterPrefix(p: string, s: string, cur: string)
    requires forall c :: c in p ==> !IsBreak(c)
    ensures Lines(p + s, cur) == Lines(s, cur + p)
    decreases |p|
  {
    if p == [] {
      assert p + s == s && cur + p == cur;
    } else {
      assert p[0] in p && (p + s)[1..] == p[1..] + s;
      LinesAfterPrefix(p[1..], s, cur + [p[0]]);
      assert cur + p == cur + [p[0]] + p[1..];
    }
  }

  lemma {:induction false} CollectedParts(lines: seq<string>, quote: char)
    requires AllBreakFree(lines)
    ensures AllBreakFree(Collect(lines, quote).0)
    ensures forall l :: l in Collect(lines, quote).0 ==> quote !in l
  {
    if lines != [] {
      assert lines[0] in lines && forall l :: l in lines[1..] ==> l in lines;
      CollectedParts(lines[1..], quote);
      var n := Find(lines[0], quote);
      assert forall c :: c in lines[0][..n] ==> c in lines[0];
    }
  }

  lemma {:induction false} JoinedChars(parts: seq<string>, quote: char)
    requires AllBreakFree(parts) && quote != '\n' && forall l :: l in parts ==> quote !in l
    ensures quote !in Join(parts) && OnlyNewlines(Join(parts))
  {
    if parts != [] {
      assert parts[0] in parts && forall l :: l in parts[1..] ==> l in parts;
      JoinedChars(parts[1..], quote);
    }
  }

  /** A quoted value never contains the quote, and no line break but newlines. */
  lemma QuotedChars(raw: string, lines: seq<string>)
    requires raw != [] && AllBreakFree(lines) && forall c :: c in raw ==> !IsBreak(c)
    ensures '\'' !in Quoted(raw, lines, '\'').0 && OnlyNewlines(Quoted(raw, lines, '\'').0)
  {
    var content := raw[1..];
    assert forall c :: c in content ==> c in raw;
    if '\'' in content {
      assert forall c :: c in content[..Find(content, '\'')] ==> c in content;
    } else {
      CollectedParts(lines, '\'');
      var parts := Collect(lines, '\'').0;
      assert forall l :: l in [content] + parts ==> l == content || l in parts;
      JoinedChars([content] + parts, '\'');
    }
  }

  /** Lines that open an entry for `k` with a single quote read a value without quotes and with no line
      break but newlines. */
  lemma ValueChars(k: string, lines: seq<string>)
    requires IsName(k) && lines != [] && AllBreakFree(lines) && k + "='" <= lines[0]
    ensures var entry := Entry(lines).0;
      entry.Some? && '\'' !in entry.value.1 && OnlyNewlines(entry.value.1)
  {
    hide Entry, Strip, Quoted, IsName, IsBreak;
    var first := lines[0];
    var t := StrippedHeader(k, first);
    EntryOfHeader(k, t, first, lines[1..]);
    assert lines == [first] + lines[1..];
    assert first in lines && forall l :: l in lines[1..] ==> l in lines;
    QuotedChars("'" + t, lines[1..]);
  }

  lemma StrippedHeader(k: string, first: string) returns (t: string)
    requires IsName(k) && k + "='" <= first && forall c :: c in first ==> !IsBreak(c)
    ensures Strip(first) == k + "='" + t && NoTrailingSpace("'" + t)
    ensures forall c :: c in "'" + t ==> !IsBreak(c)
  {
    var p := k + "='";
    assert k[0] in k;
    NameChars(k[0]);
    StripKeeps(p, first);
    t := Strip(first)[|p|..];
    assert Strip(first) == p + t;
    StripLastChar(p, t, first);
    hide Strip, IsName, NoTrailingSpace;
    assert forall c :: c in t ==> c in p + t && c in first;
    assert !IsBreak('\'');
  }

  /** Reading any rendered entry back returns its value if and only if the value is clean. */
  lemma ReadsBackIffClean(k: string, v: string, text: string)
    requires IsName(k)
    ensures var lines := Lines(RenderEntry(k, v) + text, []);
      lines != [] && (Entry(lines).0 == Some((k, v)) <==> Clean(v))
  {
    var p := k + "='";
    forall c | c in p
      ensures !IsBreak(c)
    {
      NameChars(c);
    }
    var z := v + "'\n" + text;
    assert RenderEntry(k, v) + text == p + z && [] + p == p;
    LinesAfterPrefix(p, z, []);
    LinesHaveNoBreaks(z, p);
    hide Entry, Lines, Split, IsName;
    if '\'' !in v && OnlyNewlines(v) {
      LinesOfEntry(k, v, text);
      EntryOfBlock(k, v, Lines(text, []));
    } else {
      ValueChars(k, Lines(RenderEntry(k, v) + text, []));
    }
  }
}
