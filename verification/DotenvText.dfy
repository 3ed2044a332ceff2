/** What dotenv text means (`DotEnv._parse_content`, aquilia/dotenv.py): plain, commented, quoted and
    exported assignments, one per line, among blank lines and comments. */
module DotenvText {
  import opened Common
  import opened Dotenv

  /** How a value is written. */
  datatype Form = Bare | Commented(comment: string) | Single | Double

  datatype Line =
    | Blank(space: string)
    | Comment(space: string, text: string)
    | NoEquals(text: string)
    | BadKey(key: string, rest: string)
    | Assign(exported: bool, key: string, value: string, form: Form)

  // ---- Escapes of double-quoted values -----------------------------------------------------

  /** Writes a backslash and `letter` for every `c`. */
  function Subst(s: string, c: char, letter: char): string {
    if s == [] then [] else (if s[0] == c then ['\\', letter] else [s[0]]) + Subst(s[1..], c, letter)
  }

  /** Newlines, carriage returns, tabs and dollar signs escaped. */
  function EscapeDouble(t: string): string {
    Subst(Subst(Subst(Subst(t, '$', '$'), '\t', 't'), '\r', 'r'), '\n', 'n')
  }

  /** No backslash is followed by `letter` or ends the text. */
  ghost predicate NoEscape(s: string, letter: char) {
    forall i :: 0 <= i < |s| && s[i] == '\\' ==> i + 1 < |s| && s[i + 1] != letter
  }

  lemma {:induction false} ReplaceInvertsSubst(s: string, c: char, letter: char)
    requires NoEscape(s, letter) && c != '\\' && letter != '\\'
    ensures Replace(Subst(s, c, letter), ['\\', letter], [c]) == s
  {
    if s != [] {
      var rest := Subst(s[1..], c, letter);
      assert NoEscape(s[1..], letter) by {
        assert forall i :: 0 <= i < |s[1..]| ==> s[1..][i] == s[i + 1];
      }
      ReplaceInvertsSubst(s[1..], c, letter);
      var all := Subst(s, c, letter);
      assert s == [s[0]] + s[1..];
      if s[0] == c {
        assert all[..2] == ['\\', letter] && all[2..] == rest;
      } else {
        assert all[1..] == rest;
        if s[0] == '\\' {
          assert s[1] == s[1..][0];
          assert rest[0] == (if s[1] == c then '\\' else s[1]);
        }
      }
    }
  }

  lemma {:induction false} ReplaceNothing(s: string, from: string, to: string, c: char)
    requires from != [] && c in from && c !in s
    ensures Replace(s, from, to) == s
  {
    if s != [] {
      var i :| 0 <= i < |from| && from[i] == c;
      assert i < |s| ==> s[i] in s;
      ReplaceNothing(s[1..], from, to, c);
      assert s == [s[0]] + s[1..];
    }
  }

  /** Escaping with one letter leaves no escape with another. */
  lemma {:induction false} SubstKeepsNoEscape(s: string, c: char, letter: char, other: char)
    requires NoEscape(s, other) && letter != other && c != '\\' && other != '\\' && letter != '\\'
    ensures NoEscape(Subst(s, c, letter), other)
  {
    if s != [] {
      assert NoEscape(s[1..], other) by {
        assert forall i :: 0 <= i < |s[1..]| ==> s[1..][i] == s[i + 1];
      }
      SubstKeepsNoEscape(s[1..], c, letter, other);
      var rest := Subst(s[1..], c, letter);
      if s[0] == '\\' {
        assert s[1] == s[1..][0];
        assert rest[0] == (if s[1] == c then '\\' else s[1]);
      }
      var own := if s[0] == c then ['\\', letter] else [s[0]];
      assert Subst(s, c, letter) == own + rest;
      forall i | 0 <= i < |own + rest| && (own + rest)[i] == '\\'
        ensures i + 1 < |own + rest| && (own + rest)[i + 1] != other
      {
        if i >= |own| {
          assert rest[i - |own|] == '\\';
        }
      }
    }
  }

  lemma {:induction false} SubstChars(s: string, c: char, letter: char, x: char)
    requires x != '\\' && x != letter
    ensures x in Subst(s, c, letter) ==> x in s && x != c
  {
    if s != [] {
      SubstChars(s[1..], c, letter, x);
    }
  }

  /** Text without backslashes and quotes survives escaping. */
  lemma EscapesInvert(t: string)
    requires '\\' !in t && '"' !in t
    ensures ProcessEscapes(EscapeDouble(t)) == t
  {
    var d := Subst(t, '$', '$');
    var tab := Subst(d, '\t', 't');
    var cr := Subst(tab, '\r', 'r');
    SubstKeepsNoEscape(t, '$', '$', 't');
    SubstKeepsNoEscape(t, '$', '$', 'r');
    SubstKeepsNoEscape(d, '\t', 't', 'r');
    SubstKeepsNoEscape(t, '$', '$', 'n');
    SubstKeepsNoEscape(d, '\t', 't', 'n');
    SubstKeepsNoEscape(tab, '\r', 'r', 'n');
    hide NoEscape, Subst;
    ReplaceInvertsSubst(cr, '\n', 'n');
    ReplaceInvertsSubst(tab, '\r', 'r');
    ReplaceInvertsSubst(d, '\t', 't');
    SubstChars(t, '$', '$', '"');
    ReplaceNothing(d, "\\\"", "\"", '"');
    assert NoEscape(t, '$') by {
      NoBackslash(t, '$');
    }
    ReplaceInvertsSubst(t, '$', '$');
    ReplaceNothing(t, "\\\\", "\\", '\\');
    hide Replace;
    assert "\\n" == ['\\', 'n'] && "\\r" == ['\\', 'r'] && "\\t" == ['\\', 't'] && "\\$" == ['\\', '$'];
    assert "\n" == ['\n'] && "\r" == ['\r'] && "\t" == ['\t'] && "$" == ['$'];
  }

  lemma NoBackslash(t: string, letter: char)
    requires '\\' !in t
    ensures NoEscape(t, letter)
  {
  }

  // ---- Text and its meaning ----------------------------------------------------------------

  function RenderValue(value: string, form: Form): string {
    match form
    case Bare => value
    case Commented(comment) => value + " #" + comment
    case Single => "'" + value + "'"
    case Double => "\"" + EscapeDouble(value) + "\""
  }

  function RenderLine(l: Line): string {
    match l
    case Blank(space) => space
    case Comment(space, text) => space + "#" + text
    case NoEquals(text) => text
    case BadKey(key, rest) => key + "=" + rest
    case Assign(exported, key, value, form) =>
      (if exported then "export " else "") + key + "=" + RenderValue(value, form)
  }

  function Text(ls: seq<Line>): string {
    if ls == [] then [] else RenderLine(ls[0]) + "\n" + Text(ls[1..])
  }

  ghost predicate NoBreaks(s: string) {
    forall c :: c in s ==> !IsBreak(c)
  }

  ghost predicate OnlySpace(s: string) {
    forall c :: c in s ==> IsSpace(c) && !IsBreak(c)
  }

  /** Free of `#` and backslashes, no quote in front, no white space at the ends. */
  ghost predicate PlainValue(v: string) {
    && '#' !in v && '\\' !in v && NoBreaks(v)
    && (v != [] ==> v[0] != '"' && v[0] != '\'' && !IsSpace(v[0]) && !IsSpace(v[|v| - 1]))
  }

  ghost predicate Writable(value: string, form: Form) {
    match form
    case Bare => PlainValue(value)
    case Commented(comment) => PlainValue(value) && NoBreaks(comment)
    case Single => '\'' !in value && NoBreaks(value)
    case Double => '"' !in value && '\\' !in value && forall c :: c in value && IsBreak(c) ==> c == '\n' || c == '\r'
  }

  /** Not a name, and neither a comment nor an export. */
  ghost predicate Unassignable(key: string) {
    && key != [] && !IsSpace(key[0]) && key[0] != '#' && key[0] as int != 0xFEFF
    && '=' !in key && !("export " <= key) && !IsName(Strip(key))
  }

  ghost predicate ValidLine(l: Line) {
    match l
    case Blank(space) => OnlySpace(space)
    case Comment(space, text) => OnlySpace(space) && NoBreaks(text)
    case NoEquals(text) => '=' !in text && NoBreaks(text) && (text != [] ==> text[0] as int != 0xFEFF)
    case BadKey(key, rest) => Unassignable(key) && NoBreaks(key) && NoBreaks(rest)
    case Assign(_, key, value, form) => IsName(key) && Writable(value, form)
  }

  /** The last value assigned to `k`. */
  function LastValue(ls: seq<Line>, k: string): Option<string> {
    if ls == [] then None
    else
      var last := ls[|ls| - 1];
      if last.Assign? && last.key == k then Some(last.value) else LastValue(ls[..|ls| - 1], k)
  }

  /** The keys assigned, in order of their first assignment. */
  function Keys(ls: seq<Line>): (keys: seq<string>)
    ensures forall k :: k in keys <==> LastValue(ls, k).Some?
    ensures Distinct(keys)
  {
    if ls == [] then []
    else
      var front, last := ls[..|ls| - 1], ls[|ls| - 1];
      if last.Assign? && last.key !in Keys(front) then Keys(front) + [last.key] else Keys(front)
  }

  function Meaning(ls: seq<Line>): (d: Entries)
    ensures |d| == |Keys(ls)|
    ensures forall i :: 0 <= i < |d| ==> d[i].0 == Keys(ls)[i] && Some(d[i].1) == LastValue(ls, Keys(ls)[i])
  {
    seq(|Keys(ls)|, i requires 0 <= i < |Keys(ls)| => (Keys(ls)[i], LastValue(ls, Keys(ls)[i]).value))
  }

  // ---- Assignment in place -----------------------------------------------------------------

  lemma {:induction false} PutKnown(d: Entries, i: nat, v: string)
    requires i < |d| && forall j :: 0 <= j < i ==> d[j].0 != d[i].0
    ensures Put(d, d[i].0, v) == d[i := (d[i].0, v)]
  {
    if i > 0 {
      PutKnown(d[1..], i - 1, v);
      assert d[i := (d[i].0, v)] == [d[0]] + d[1..][i - 1 := (d[i].0, v)];
    }
  }

  lemma OneMore(ls: seq<Line>, l: Line)
    ensures Keys(ls + [l]) == if l.Assign? && l.key !in Keys(ls) then Keys(ls) + [l.key] else Keys(ls)
    ensures forall k :: LastValue(ls + [l], k) == if l.Assign? && l.key == k then Some(l.value) else LastValue(ls, k)
  {
    assert (ls + [l])[..|ls|] == ls;
  }

  /** One more assignment replaces the value of a known key in place and appends a new one. */
  lemma MeaningAssigns(ls: seq<Line>, l: Line)
    ensures Meaning(ls + [l]) == if l.Assign? then Put(Meaning(ls), l.key, l.value) else Meaning(ls)
  {
    OneMore(ls, l);
    hide LastValue, Keys, Put, Meaning;
    var d, keys, more := Meaning(ls), Keys(ls), Meaning(ls + [l]);
    if l.Assign? && l.key in keys {
      var i :| 0 <= i < |keys| && keys[i] == l.key;
      PutKnown(d, i, l.value);
      assert more == d[i := (l.key, l.value)];
    } else if l.Assign? {
      PutNew(d, l.key, l.value);
      assert more == d + [(l.key, l.value)];
    } else {
      assert more == d;
    }
  }

  // ---- One line ----------------------------------------------------------------------------

  /** A stripped line that assigns. */
  lemma EntryOfAssignment(first: string, exported: bool, k: string, raw: string, rest: seq<string>)
    requires IsName(k) && Strip(first) == (if exported then "export " else "") + (k + "=" + raw)
    requires raw != [] ==> !IsSpace(raw[|raw| - 1])
    ensures Entry([first] + rest) == (Some((k, Value(Strip(raw), rest).0)), Value(Strip(raw), rest).1)
  {
    var body := k + "=" + raw;
    AssignmentPieces(k, raw);
    ExportedBody(k, raw, exported);
    hide Strip, WithoutExport, Value, IsName, Find;
    assert ([first] + rest)[0] == first && ([first] + rest)[1..] == rest;
    assert IsName(k);
  }

  lemma AssignmentPieces(k: string, raw: string)
    requires IsName(k)
    ensures var line := k + "=" + raw;
      Find(line, '=') == |k| && Strip(line[..|k|]) == k && line[|k| + 1..] == raw && |k| < |line|
  {
    var line := k + "=" + raw;
    assert k[0] in k && k[|k| - 1] in k;
    NameChars(k[0]);
    NameChars(k[|k| - 1]);
    NameChars('=');
    assert line == k + ['='] + raw;
    FindAfterPrefix(k, raw, '=');
    assert line[..|k|] == k && line[|k| + 1..] == raw;
    StripWithEnds(k);
  }

  lemma ExportedBody(k: string, raw: string, exported: bool)
    requires IsName(k) && (raw != [] ==> !IsSpace(raw[|raw| - 1]))
    ensures var body := k + "=" + raw;
      var line := (if exported then "export " else "") + body;
      line != [] && line[0] != '#' && WithoutExport(line) == body
  {
    var body := k + "=" + raw;
    assert k[0] in k && body[0] == k[0];
    NameChars(k[0]);
    if exported {
      var line := "export " + body;
      assert line[..7] == "export " && line[7..] == body;
      assert body[|body| - 1] == if raw == [] then '=' else raw[|raw| - 1];
      StripWithEnds(body);
    } else {
      assert "" + body == body;
      assert k + "=" <= body;
      NotExport(k, body);
    }
  }

  lemma BareValue(v: string, rest: seq<string>)
    requires PlainValue(v)
    ensures Value(Strip(v), rest) == (v, rest)
  {
    PlainIsRead(v, []);
    assert v + [] == v;
    if v != [] {
      StripWithEnds(v);
    }
    hide BeforeComment, Quoted;
  }

  /** Plain text is read up to its end or to a comment. */
  lemma {:induction false} PlainIsRead(v: string, tail: string)
    requires '#' !in v && '\\' !in v && (tail == [] || tail[0] == '#')
    ensures BeforeComment(v + tail, false) == v
    decreases |v|
  {
    if v == [] {
      assert v + tail == tail;
    } else {
      assert v[0] in v && (v + tail)[1..] == v[1..] + tail;
      PlainIsRead(v[1..], tail);
      assert v == [v[0]] + v[1..];
    }
  }

  lemma StripSpaceBehind(v: string)
    requires v != [] ==> !IsSpace(v[0]) && !IsSpace(v[|v| - 1])
    ensures Strip(v + " ") == v
  {
    var s := v + " ";
    assert s[..|v|] == v;
    if v == [] {
      assert s[1..] == [];
    } else {
      assert LStrip(s) == s;
      assert RStrip(v) == v;
    }
  }

  lemma StripCommented(v: string, tail: string)
    requires v != [] ==> !IsSpace(v[0])
    requires tail != [] && !IsSpace(tail[0]) && !IsSpace(tail[|tail| - 1])
    ensures Strip(v + " " + tail) == if v == [] then tail else v + " " + tail
  {
    var raw := v + " " + tail;
    assert raw[|raw| - 1] == tail[|tail| - 1];
    if v == [] {
      assert raw[1..] == tail && raw[0] == ' ';
      StripWithEnds(tail);
      assert LStrip(raw) == LStrip(tail) == tail;
    } else {
      assert raw[0] == v[0];
      StripWithEnds(raw);
    }
  }

  lemma CommentedValue(v: string, tail: string, rest: seq<string>)
    requires PlainValue(v)
    requires tail != [] && tail[0] == '#' && !IsSpace(tail[|tail| - 1])
    ensures Value(Strip(v + " " + tail), rest) == (v, rest)
  {
    hide BeforeComment, Quoted, Strip;
    StripCommented(v, tail);
    PlainIsRead(v + " ", tail);
    PlainIsRead([], tail);
    assert [] + tail == tail;
    StripSpaceBehind(v);
    StripNothing();
    assert v != [] ==> (v + " " + tail)[0] == v[0];
  }

  lemma StripNothing()
    ensures Strip([]) == []
  {
  }

  lemma QuotedOneLine(t: string, quote: char, rest: seq<string>)
    requires quote !in t
    ensures Quoted([quote] + t + [quote], rest, quote) == (t, rest)
  {
    var raw := [quote] + t + [quote];
    assert raw[1..] == t + [quote] + [];
    FindAfterPrefix(t, [], quote);
    assert raw[1..][..|t|] == t;
    assert raw[1..][|t|] == quote;
  }

  lemma SingleValue(v: string, rest: seq<string>)
    requires '\'' !in v
    ensures Value(Strip("'" + v + "'"), rest) == (v, rest)
  {
    var raw := "'" + v + "'";
    assert raw[0] == '\'' && raw[|raw| - 1] == '\'';
    StripWithEnds(raw);
    assert raw == ['\''] + v + ['\''];
    QuotedOneLine(v, '\'', rest);
    hide Quoted, ProcessEscapes, BeforeComment, Strip;
  }

  lemma DoubleValue(v: string, rest: seq<string>)
    requires '"' !in v && '\\' !in v
    ensures Value(Strip("\"" + EscapeDouble(v) + "\""), rest) == (v, rest)
  {
    var t := EscapeDouble(v);
    var raw := "\"" + t + "\"";
    EscapesInvert(v);
    NoQuoteEscaped(v);
    hide EscapeDouble;
    assert raw[0] == '"' && raw[|raw| - 1] == '"';
    StripWithEnds(raw);
    assert raw == ['"'] + t + ['"'];
    QuotedOneLine(t, '"', rest);
    hide Quoted, ProcessEscapes, BeforeComment, Strip;
  }

  lemma NoQuoteEscaped(v: string)
    requires '"' !in v
    ensures '"' !in EscapeDouble(v)
  {
    var d := Subst(v, '$', '$');
    var tab := Subst(d, '\t', 't');
    var cr := Subst(tab, '\r', 'r');
    SubstChars(v, '$', '$', '"');
    SubstChars(d, '\t', 't', '"');
    SubstChars(tab, '\r', 'r', '"');
    SubstChars(cr, '\n', 'n', '"');
    hide Subst;
  }

  // ---- All lines ---------------------------------------------------------------------------

  lemma FormValue(v: string, form: Form, raw: string, rest: seq<string>)
    requires Writable(v, form) && (raw != [] ==> !IsSpace(raw[|raw| - 1]))
    requires if form.Commented? then v + " #" <= raw else raw == RenderValue(v, form)
    ensures Value(Strip(raw), rest) == (v, rest)
  {
    hide Value, Strip, EscapeDouble, IsSpace, PlainValue;
    match form
    case Bare => BareValue(v, rest);
    case Single => SingleValue(v, rest);
    case Double => DoubleValue(v, rest);
    case Commented(_) =>
      var tail := raw[|v| + 1..];
      assert raw == v + " " + tail by {
        assert (v + " #")[..|v| + 1] == v + " ";
      }
      assert raw[|v| + 1] == (v + " #")[|v| + 1] == '#';
      CommentedValue(v, tail, rest);
  }

  /** A stripped assignment is the assignment, up to the end of a comment. */
  lemma StrippedAssignment(l: Line) returns (raw: string)
    requires l.Assign? && ValidLine(l)
    ensures Strip(RenderLine(l)) == (if l.exported then "export " else "") + (l.key + "=" + raw)
    ensures raw != [] ==> !IsSpace(raw[|raw| - 1])
    ensures if l.form.Commented? then l.value + " #" <= raw else raw == RenderValue(l.value, l.form)
  {
    hide EscapeDouble, IsName, IsSpace, Writable, Strip, PlainValue;
    var prefix := if l.exported then "export " else "";
    var head := prefix + (l.key + "=");
    var value := RenderValue(l.value, l.form);
    var body := if l.form.Commented? then l.value + " #" else value;
    HeadChars(l.exported, l.key);
    ValueEnd(l.value, l.form);
    raw := StripBehind(head, body, value);
    Regroup(prefix, l.key, value);
    Regroup(prefix, l.key, raw);
    hide RenderValue;
  }

  lemma Regroup(a: string, k: string, v: string)
    ensures a + k + "=" + v == (a + (k + "=")) + v == a + (k + "=" + v)
  {
  }

  /** Stripping what begins with `head` and `body` strips at most what is behind them. */
  lemma StripBehind(head: string, body: string, value: string) returns (raw: string)
    requires head != [] && !IsSpace(head[0]) && !IsSpace(head[|head| - 1])
    requires body <= value && (body != [] ==> !IsSpace(body[|body| - 1]))
    ensures Strip(head + value) == head + raw && body <= raw && (body == value ==> raw == value)
    ensures raw != [] ==> !IsSpace(raw[|raw| - 1])
  {
    hide Strip, IsSpace;
    var line, kept := head + value, head + body;
    assert kept[0] == head[0];
    assert kept[|kept| - 1] == if body == [] then head[|head| - 1] else body[|body| - 1];
    StripKeeps(kept, line);
    StrippedEnd(line);
    var stripped := Strip(line);
    raw := stripped[|head|..];
    assert stripped[..|head|] == head && raw[..|body|] == body by {
      assert kept[..|head|] == head && kept[|head|..] == body;
      assert stripped[..|kept|] == kept;
    }
    assert stripped == head + raw;
    if body == value {
      assert stripped == line;
    }
  }

  lemma StrippedEnd(s: string)
    ensures Strip(s) != [] ==> !IsSpace(Strip(s)[|Strip(s)| - 1])
  {
  }

  lemma HeadChars(exported: bool, k: string)
    requires IsName(k)
    ensures var head := (if exported then "export " else "") + (k + "=");
      !IsSpace(head[0]) && !IsSpace(head[|head| - 1])
  {
    var head := (if exported then "export " else "") + (k + "=");
    assert head[|head| - 1] == '=';
    NameChars(k[0]);
  }

  lemma ValueEnd(v: string, form: Form)
    requires Writable(v, form)
    ensures var r := if form.Commented? then v + " #" else RenderValue(v, form);
      r <= RenderValue(v, form) && (r != [] ==> !IsSpace(r[|r| - 1]))
  {
    hide EscapeDouble;
    assert (v + " #")[|v| + 1] == '#';
  }

  lemma EntryOfNothing(first: string, rest: seq<string>)
    requires Strip(first) == [] || Strip(first)[0] == '#'
    ensures Entry([first] + rest) == (None, rest)
  {
    assert ([first] + rest)[0] == first && ([first] + rest)[1..] == rest;
    hide Strip;
  }

  lemma StrippedComment(space: string, text: string)
    requires OnlySpace(space)
    ensures var r := Strip(space + "#" + text); r != [] && r[0] == '#'
  {
    StripAll(space, "#" + text);
    assert space + ("#" + text) == space + "#" + text;
    RStripKeeps("#", "#" + text);
    hide Strip, OnlySpace;
  }

  lemma StrippedBlank(space: string)
    requires OnlySpace(space)
    ensures Strip(space) == []
  {
    StripAll(space, []);
    assert space + [] == space;
    hide Strip;
  }

  lemma EntryWithoutEquals(text: string, rest: seq<string>)
    requires '=' !in text
    ensures Entry([text] + rest) == (None, rest)
  {
    hide Strip, Value, IsName, WithoutExport;
    assert ([text] + rest)[0] == text && ([text] + rest)[1..] == rest;
    StripKeepsOut(text, '=');
    ExportKeepsOut(Strip(text), '=');
  }

  lemma ExportKeepsOut(line: string, c: char)
    requires c !in line
    ensures c !in WithoutExport(line)
  {
    if "export " <= line {
      StripKeepsOut(line[7..], c);
    }
    hide Strip;
  }

  lemma StripKeepsOut(s: string, c: char)
    requires c !in s
    ensures c !in Strip(s)
  {
    var l := LStrip(s);
    assert l == s[|s| - |l|..];
    assert RStrip(l) <= l;
  }

  lemma StrippedBadKey(key: string, value: string) returns (raw: string)
    requires Unassignable(key)
    ensures Strip(key + "=" + value) == key + ['='] + raw
  {
    var first, head := key + "=" + value, key + "=";
    assert head[|key|] == '=' && head[0] == key[0];
    StripKeeps(head, first);
    hide Strip, Unassignable;
    raw := Strip(first)[|head|..];
    assert Strip(first)[..|head|] == head;
    assert head == key + ['='];
  }

  lemma BadKeyIsNoExport(key: string, raw: string)
    requires Unassignable(key)
    ensures WithoutExport(key + ['='] + raw) == key + ['='] + raw
  {
    var line := key + ['='] + raw;
    var word := "export ";
    if |key| < 7 {
      assert line[|key|] == '=' && word[|key|] != '=';
    } else {
      assert line[..7] == key[..7];
    }
  }

  lemma EntryOfBadKey(key: string, value: string, rest: seq<string>)
    requires Unassignable(key)
    ensures Entry([key + "=" + value] + rest) == (None, rest)
  {
    var first := key + "=" + value;
    assert ([first] + rest)[0] == first && ([first] + rest)[1..] == rest;
    var raw := StrippedBadKey(key, value);
    BadKeyIsNoExport(key, raw);
    FindAfterPrefix(key, raw, '=');
    hide Strip, Value, IsName, WithoutExport, Find;
    assert (key + ['='] + raw)[..|key|] == key && (key + ['='] + raw)[0] == key[0];
  }

  /** What one line contributes, whatever follows. */
  lemma EntryOfLine(l: Line, rest: seq<string>)
    requires ValidLine(l)
    ensures Entry([RenderLine(l)] + rest) == (if l.Assign? then Some((l.key, l.value)) else None, rest)
  {
    hide Entry, Strip, Value, RenderValue, Writable, OnlySpace;
    match l
    case Blank(space) =>
      StrippedBlank(space);
      EntryOfNothing(space, rest);
    case Comment(space, text) =>
      StrippedComment(space, text);
      EntryOfNothing(space + "#" + text, rest);
    case NoEquals(text) =>
      EntryWithoutEquals(text, rest);
    case BadKey(key, value) =>
      EntryOfBadKey(key, value, rest);
    case Assign(exported, key, value, form) =>
      hide RenderLine;
      var raw := StrippedAssignment(l);
      EntryOfAssignment(RenderLine(l), exported, key, raw, rest);
      FormValue(value, form, raw, rest);
  }

  lemma {:induction false} StripAll(space: string, s: string)
    requires OnlySpace(space) && (s == [] || !IsSpace(s[0]))
    ensures Strip(space + s) == RStrip(s)
  {
    if space == [] {
      assert space + s == s;
    } else {
      assert space[0] in space && (space + s)[1..] == space[1..] + s;
      StripAll(space[1..], s);
    }
  }

  lemma EscapedHasNoBreak(v: string)
    requires Writable(v, Double)
    ensures NoBreaks(EscapeDouble(v))
  {
    forall x | IsBreak(x)
      ensures x !in EscapeDouble(v)
    {
      var d := Subst(v, '$', '$');
      var tab := Subst(d, '\t', 't');
      var cr := Subst(tab, '\r', 'r');
      SubstChars(v, '$', '$', x);
      SubstChars(d, '\t', 't', x);
      SubstChars(tab, '\r', 'r', x);
      SubstChars(cr, '\n', 'n', x);
      hide Subst;
    }
  }

  lemma LineHasNoBreak(l: Line)
    requires ValidLine(l)
    ensures NoBreaks(RenderLine(l))
  {
    if l.Assign? {
      var value := RenderValue(l.value, l.form);
      if l.form.Double? {
        EscapedHasNoBreak(l.value);
      }
      hide EscapeDouble, PlainValue, IsName;
      assert NoBreaks(value) by {
        ValueHasNoBreak(l.value, l.form);
      }
      forall c | c in l.key
        ensures !IsBreak(c)
      {
        KeyChar(l.key, c);
      }
      hide RenderValue;
      assert NoBreaks("export ") && NoBreaks("=") && NoBreaks("");
    }
  }

  lemma KeyChar(k: string, c: char)
    requires IsName(k) && c in k
    ensures !IsBreak(c)
  {
    NameChars(c);
  }

  lemma ValueHasNoBreak(v: string, form: Form)
    requires Writable(v, form)
    ensures NoBreaks(RenderValue(v, form))
  {
    if form.Double? {
      EscapedHasNoBreak(v);
    }
    hide EscapeDouble;
  }

  lemma LinesOfText(l: Line, ls: seq<Line>)
    requires ValidLine(l)
    ensures Lines(Text([l] + ls), []) == [RenderLine(l)] + Lines(Text(ls), [])
  {
    var s := RenderLine(l);
    LineHasNoBreak(l);
    hide RenderLine, ValidLine;
    assert ([l] + ls)[1..] == ls;
    assert OnlyNewlines(s);
    assert '\n' !in s by {
      assert IsBreak('\n');
    }
    hide NoBreaks, IsBreak;
    LinesOfBlock(s, Text(ls), []);
    SplitLine(s, []);
    assert [] + s == s;
  }

  lemma LineIsParsed(l: Line, ls: seq<Line>, d: Entries)
    requires ValidLine(l)
    ensures ParseLines(Lines(Text([l] + ls), []), d) ==
            ParseLines(Lines(Text(ls), []), if l.Assign? then Put(d, l.key, l.value) else d)
  {
    hide Entry, Lines, Text, ValidLine, RenderLine, Put;
    LinesOfText(l, ls);
    EntryOfLine(l, Lines(Text(ls), []));
  }

  lemma NothingLeft(d: Entries)
    ensures ParseLines(Lines(Text([]), []), d) == d
  {
  }

  lemma Regather(done: seq<Line>, l: Line, later: seq<Line>)
    ensures (done + [l]) + later == done + ([l] + later)
  {
  }

  lemma {:induction false} LinesAreParsed(done: seq<Line>, ls: seq<Line>)
    requires forall l :: l in ls ==> ValidLine(l)
    ensures ParseLines(Lines(Text(ls), []), Meaning(done)) == Meaning(done + ls)
    decreases |ls|
  {
    hide ParseLines, Meaning, Lines, Text, ValidLine, Put;
    if ls == [] {
      assert done + [] == done;
      NothingLeft(Meaning(done));
    } else {
      var l, later := ls[0], ls[1..];
      assert ls == [l] + later && l in ls;
      LineIsParsed(l, later, Meaning(done));
      MeaningAssigns(done, l);
      Regather(done, l, later);
      LinesAreParsed(done + [l], later);
    }
  }

  /** Text of valid lines parses to its meaning: every key once, in the order of the first assignments,
      with the value last assigned to it. Exported and plain assignments, values alone, before a
      comment, in single and in double quotes mean the same; blank lines, comments, lines without an equals
      sign and those whose key is no name mean nothing. */
  lemma TextIsParsed(ls: seq<Line>)
    requires forall l :: l in ls ==> ValidLine(l)
    ensures Parse(Text(ls)) == Meaning(ls)
  {
    LinesAreParsed([], ls);
    assert [] + ls == ls;
    assert Meaning([]) == [];
    NoBom(ls);
    hide Meaning, Text, Lines, ParseLines;
  }

  /** A byte order mark in front is ignored. */
  lemma BomIsIgnored(ls: seq<Line>)
    requires forall l :: l in ls ==> ValidLine(l)
    ensures Parse([0xFEFF as char] + Text(ls)) == Meaning(ls)
  {
    TextIsParsed(ls);
    NoBom(ls);
    hide Meaning, Text, Lines, ParseLines, ValidLine;
    assert ([0xFEFF as char] + Text(ls))[1..] == Text(ls);
  }

  lemma NoBom(ls: seq<Line>)
    requires forall l :: l in ls ==> ValidLine(l)
    ensures WithoutBom(Text(ls)) == Text(ls)
  {
    if ls != [] {
      var l := ls[0];
      assert l in ls;
      var line := RenderLine(l);
      assert Text(ls)[0] == if line == [] then '\n' else line[0];
      match l
      case Blank(space) => assert space != [] ==> space[0] in space;
      case Comment(space, _) => assert space != [] ==> space[0] in space;
      case NoEquals(_) =>
      case BadKey(_, _) =>
      case Assign(_, key, _, _) => NameChars(key[0]);
    }
  }

  lemma OneLine(l: Line)
    requires ValidLine(l)
    ensures Parse(RenderLine(l) + "\n") == if l.Assign? then [(l.key, l.value)] else []
  {
    TextIsParsed([l]);
    hide Parse, RenderLine, ValidLine;
    assert Text([l]) == RenderLine(l) + "\n" + Text([l][1..]);
    assert RenderLine(l) + "\n" + [] == RenderLine(l) + "\n";
    MeaningAssigns([], l);
    assert [] + [l] == [l] && Meaning([]) == [];
  }

  /** One assignment alone, with and without `export`. */
  lemma OneAssignment(k: string, v: string, form: Form)
    requires IsName(k) && Writable(v, form)
    ensures Parse(k + "=" + RenderValue(v, form) + "\n") == [(k, v)]
    ensures Parse("export " + k + "=" + RenderValue(v, form) + "\n") == [(k, v)]
  {
    OneLine(Assign(false, k, v, form));
    OneLine(Assign(true, k, v, form));
    hide RenderValue, Parse, IsName, Writable;
    assert "" + k == k;
  }

  /** A double-quoted value ends at its first double quote, escaped or not. */
  lemma EscapedQuoteEnds(t: string, more: string, rest: seq<string>)
    requires '"' !in t
    ensures Quoted("\"" + t + "\\\"" + more, rest, '"') == (t + "\\", rest)
  {
    var raw := "\"" + t + "\\\"" + more;
    assert raw[1..] == (t + "\\") + ['"'] + more;
    FindAfterPrefix(t + "\\", more, '"');
    assert raw[1..][..|t| + 1] == t + "\\";
    assert raw[1..][|t| + 1] == '"';
  }

  /** The escapes do not invert the escaping of backslashes: `\\\\n`, an escaped backslash and an `n`,
      reads as a backslash and a newline. */
  lemma EscapedBackslashMisread()
    ensures ProcessEscapes("\\\\n") == "\\\n"
  {
    var s: string := ['\\', '\\', 'n'];
    var t: string := ['\\', '\n'];
    assert Replace(s, "\\n", "\n") == t by {
      assert s[1..] == ['\\', 'n'] && s[1..][2..] == [];
      assert s[..2] == ['\\', '\\'] && s[1..][..2] == ['\\', 'n'];
      assert Replace(s[1..], "\\n", "\n") == "\n" + Replace([], "\\n", "\n");
    }
    ReplaceNothing(t, "\\r", "\r", 'r');
    ReplaceNothing(t, "\\t", "\t", 't');
    ReplaceNothing(t, "\\\"", "\"", '"');
    ReplaceNothing(t, "\\$", "$", '$');
    assert Replace(t, "\\\\", "\\") == t by {
      assert t[1..] == ['\n'] && t[1..][1..] == [] && t[..2] == t;
      assert Replace(t[1..], "\\\\", "\\") == ['\n'] + Replace([], "\\\\", "\\");
    }
    hide Replace;
  }
}
