/** Byte ranges: the `Range` header parser and printer (aquilia/_datastructures.py) and the slice a file
    response selects (`_handle_range_request` of aquilia/response.py; sections 14.1.2 and 14.2 of
    RFC 9110). Digits and word characters are the ASCII ones. */
module Ranges {
  import opened Common
  import opened Dotenv

  // ---- Integers as text --------------------------------------------------------------------

  predicate IsDigit(c: char) {
    '0' <= c <= '9'
  }

  /** Digits with single underscores between them. */
  function ParseDigits(s: string, acc: nat): Option<nat>
    decreases |s|
  {
    if s == [] || !IsDigit(s[0]) then None
    else
      var v := acc * 10 + (s[0] as int - 48);
      if |s| == 1 then Some(v) else ParseDigits(if s[1] == '_' then s[2..] else s[1..], v)
  }

  function Negate(n: Option<nat>): Option<int> {
    if n.None? then None
    else
      var i: int := n.value;
      Some(-i)
  }

  /** Python's `int(s)`; None is its ValueError. */
  function PyInt(s: string): Option<int> {
    var t := Strip(s);
    if t != [] && t[0] == '-' then Negate(ParseDigits(t[1..], 0))
    else ParseDigits(if t != [] && t[0] == '+' then t[1..] else t, 0)
  }

  function Decimal(n: nat): (s: string)
    ensures s != [] && forall c :: c in s ==> IsDigit(c)
  {
    if n < 10 then [(48 + n) as char] else Decimal(n / 10) + [(48 + n % 10) as char]
  }

  function PrintInt(i: int): string {
    if i < 0 then "-" + Decimal(-i) else Decimal(i)
  }

  lemma {:induction false} ParseOneMore(a: string, d: char, acc: nat)
    requires IsDigit(d) && forall c :: c in a ==> IsDigit(c)
    requires a != []
    ensures ParseDigits(a, acc).Some?
    ensures ParseDigits(a + [d], acc) == Some(ParseDigits(a, acc).value * 10 + (d as int - 48))
    decreases |a|
  {
    var s := a + [d];
    assert a[0] in a;
    if |a| == 1 {
      assert s[1..] == [d];
      assert s[1] == d;
    } else {
      assert a[1] in a && s[1] == a[1] && s[1..] == a[1..] + [d];
      ParseOneMore(a[1..], d, acc * 10 + (a[0] as int - 48));
    }
  }

  lemma {:induction false} ParseDecimal(n: nat)
    ensures ParseDigits(Decimal(n), 0) == Some(n)
  {
    if n >= 10 {
      ParseDecimal(n / 10);
      ParseOneMore(Decimal(n / 10), (48 + n % 10) as char, 0);
    }
  }

  lemma IntRoundTrip(i: int)
    ensures PyInt(PrintInt(i)) == Some(i)
    ensures forall c :: c in PrintInt(i) ==> IsDigit(c) || c == '-'
    ensures i >= 0 ==> '-' !in PrintInt(i)
  {
    hide Decimal, Strip, ParseDigits;
    var d := Decimal(if i < 0 then -i else i);
    ParseDecimal(if i < 0 then -i else i);
    assert d[0] in d && d[|d| - 1] in d;
    StripWithEnds(PrintInt(i));
    assert ("-" + d)[1..] == d;
  }

  // ---- Headers -----------------------------------------------------------------------------

  /** Start and end, each possibly missing. */
  type Bounds = (Option<int>, Option<int>)

  datatype Range = Range(unit: string, ranges: seq<Bounds>)

  datatype Parsed = NoRange | ValueError | IsRange(range: Range)

  function WordSpan(s: string): (n: nat)
    ensures n <= |s| && (forall i :: 0 <= i < n ==> IsNameChar(s[i])) && (n < |s| ==> !IsNameChar(s[n]))
  {
    if s == [] || !IsNameChar(s[0]) then 0 else 1 + WordSpan(s[1..])
  }

  function SplitComma(s: string, cur: string): seq<string>
    decreases |s|
  {
    if s == [] then [cur]
    else if s[0] == ',' then [cur] + SplitComma(s[1..], [])
    else SplitComma(s[1..], cur + [s[0]])
  }

  /** One comma-separated piece that has a dash. */
  function ParseSpec(spec: string): Option<Bounds>
    requires '-' in spec
  {
    var d := Find(spec, '-');
    var a, b := spec[..d], spec[d + 1..];
    var start, end := if a == "" then Some(None) else Wrap(PyInt(a)), if b == "" then Some(None) else Wrap(PyInt(b));
    if start.None? || end.None? then None else Some((start.value, end.value))
  }

  /** An integer bound that is present, or a ValueError. */
  function Wrap(i: Option<int>): Option<Option<int>> {
    if i.None? then None else Some(i)
  }

  function ParseSpecs(pieces: seq<string>): Option<seq<Bounds>> {
    if pieces == [] then Some([])
    else
      var spec := Strip(pieces[0]);
      if '-' !in spec then ParseSpecs(pieces[1..])
      else
        match ParseSpec(spec)
        case None => None
        case Some(b) => (
          match ParseSpecs(pieces[1..])
          case None => None
          case Some(rest) => Some([b] + rest))
  }

  /** `Range.parse`: the pattern is a word, an equals sign and at least one character of the same line. */
  function ParseRange(header: string): Parsed {
    var n := WordSpan(header);
    if n == 0 || n == |header| || header[n] != '=' then NoRange
    else
      var body := header[n + 1..][..Find(header[n + 1..], '\n')];
      if body == [] then NoRange
      else
        match ParseSpecs(SplitComma(body, []))
        case None => ValueError
        case Some(ranges) => IsRange(Range(header[..n], ranges))
  }

  method ParsePieces(pieces: seq<string>) returns (r: Option<seq<Bounds>>)
    ensures r == ParseSpecs(pieces)
  {
    hide ParseSpec, Strip;
    var ranges: seq<Bounds> := [];
    ghost var all := ParseSpecs(pieces);
    assert pieces[0..] == pieces;
    assert all.Some? ==> ranges + all.value == all.value;
    for i := 0 to |pieces|
      invariant match ParseSpecs(pieces[i..])
        case None => all == None
        case Some(rest) => all == Some(ranges + rest)
    {
      assert pieces[i..][1..] == pieces[i + 1..];
      var spec := Strip(pieces[i]);
      if '-' !in spec {
        continue;
      }
      match ParseSpec(spec) {
        case None => return None;
        case Some(b) =>
          ghost var later := ParseSpecs(pieces[i + 1..]);
          assert later.Some? ==> ranges + ([b] + later.value) == (ranges + [b]) + later.value;
          ranges := ranges + [b];
      }
    }
    assert pieces[|pieces|..] == [];
    assert ranges + [] == ranges;
    return Some(ranges);
  }

  method Parse(header: string) returns (r: Parsed)
    ensures r == ParseRange(header)
  {
    hide ParseSpecs, SplitComma;
    var n := WordSpan(header);
    if n == 0 || n == |header| || header[n] != '=' {
      return NoRange;
    }
    var body := header[n + 1..][..Find(header[n + 1..], '\n')];
    if body == [] {
      return NoRange;
    }
    var ranges := ParsePieces(SplitComma(body, []));
    if ranges.None? {
      return ValueError;
    }
    return IsRange(Range(header[..n], ranges.value));
  }

  function PrintEnd(e: Option<int>): string {
    if e.None? then "None" else PrintInt(e.value)
  }

  function PrintSpec(b: Bounds): string {
    if b.0.None? then "-" + PrintEnd(b.1)
    else if b.1.None? then PrintInt(b.0.value) + "-"
    else PrintInt(b.0.value) + "-" + PrintInt(b.1.value)
  }

  function PrintSpecs(bs: seq<Bounds>): string {
    if bs == [] then ""
    else if |bs| == 1 then PrintSpec(bs[0])
    else PrintSpec(bs[0]) + "," + PrintSpecs(bs[1..])
  }

  function PrintRange(r: Range): string {
    r.unit + "=" + PrintSpecs(r.ranges)
  }

  /** What is still to be printed from position `i` on, with the comma before it. */
  function PrintFrom(bs: seq<Bounds>, i: nat): string
    requires i <= |bs|
  {
    (if 0 < i < |bs| then "," else "") + PrintSpecs(bs[i..])
  }

  lemma PrintNext(bs: seq<Bounds>, i: nat)
    requires i < |bs|
    ensures PrintFrom(bs, i) == (if i > 0 then "," else "") + PrintSpec(bs[i]) + PrintFrom(bs, i + 1)
  {
    hide PrintSpec;
    var here := bs[i..];
    assert here[1..] == bs[i + 1..];
    var comma, p, rest := if i > 0 then "," else "", PrintSpec(bs[i]), PrintSpecs(here[1..]);
    if |here| > 1 {
      assert comma + (p + "," + rest) == comma + p + ("," + rest);
    }
  }

  /** `__str__` as the loop that collects the pieces. */
  method ToString(r: Range) returns (s: string)
    ensures s == PrintRange(r)
  {
    hide PrintSpec, PrintFrom;
    var specs: string := "";
    assert specs + PrintFrom(r.ranges, 0) == PrintSpecs(r.ranges) by {
      PrintAll(r.ranges);
    }
    for i := 0 to |r.ranges|
      invariant specs + PrintFrom(r.ranges, i) == PrintSpecs(r.ranges)
    {
      PrintNext(r.ranges, i);
      var piece := (if i > 0 then "," else "") + PrintSpec(r.ranges[i]);
      assert specs + (piece + PrintFrom(r.ranges, i + 1)) == (specs + piece) + PrintFrom(r.ranges, i + 1);
      specs := specs + piece;
    }
    PrintAll(r.ranges);
    assert specs + "" == specs;
    s := r.unit + "=" + specs;
  }

  lemma PrintAll(bs: seq<Bounds>)
    ensures PrintFrom(bs, 0) == PrintSpecs(bs) && PrintFrom(bs, |bs|) == ""
  {
    hide PrintSpec;
    assert bs[0..] == bs && bs[|bs|..] == [];
  }

  // ---- Printing and parsing again ----------------------------------------------------------

  /** At least one bound, and no negative start. */
  predicate GoodBounds(b: Bounds) {
    (b.0.Some? ==> b.0.value >= 0) && (b.0.None? ==> b.1.Some?)
  }

  predicate GoodRange(r: Range) {
    && r.unit != [] && (forall c :: c in r.unit ==> IsNameChar(c))
    && r.ranges != [] && forall b :: b in r.ranges ==> GoodBounds(b)
  }

  predicate SpecChar(c: char) {
    IsDigit(c) || c == '-' || IsNameStart(c)
  }

  lemma SpecCharsStrip(s: string)
    requires s != [] && forall c :: c in s ==> SpecChar(c)
    ensures Strip(s) == s && ',' !in s && '\n' !in s
  {
    assert s[0] in s && s[|s| - 1] in s;
    assert !SpecChar(',') && !SpecChar('\n');
    StripWithEnds(s);
  }

  /** A printed bound: not empty, readable, and free of dashes when it is not negative. */
  lemma BoundText(i: int)
    ensures PrintInt(i) != [] && PyInt(PrintInt(i)) == Some(i)
    ensures forall c :: c in PrintInt(i) ==> SpecChar(c)
    ensures PrintInt(i)[|PrintInt(i)| - 1] != '-'
    ensures if i < 0 then PrintInt(i)[0] == '-' else '-' !in PrintInt(i)
  {
    IntRoundTrip(i);
    hide PyInt;
    var d := Decimal(if i < 0 then -i else i);
    assert d[|d| - 1] in d;
  }

  lemma NoDigitsNoInt(s: string, acc: nat)
    requires s != [] && !IsDigit(s[0])
    ensures ParseDigits(s, acc) == None
  {
  }

  lemma WordIsNoInt(s: string)
    requires s != [] && IsNameStart(s[0]) && IsNameStart(s[|s| - 1])
    ensures PyInt(s) == None
  {
    StripWithEnds(s);
    NoDigitsNoInt(s, 0);
    hide ParseDigits, Strip;
  }

  lemma NoneIsNoInt()
    ensures PyInt("None") == None
  {
    hide PyInt;
    WordIsNoInt("None");
  }

  lemma EndText(e: Option<int>)
    ensures PrintEnd(e) != [] && forall c :: c in PrintEnd(e) ==> SpecChar(c)
    ensures PyInt(PrintEnd(e)) == e
  {
    hide PyInt, PrintInt;
    if e.Some? {
      BoundText(e.value);
    } else {
      NoneIsNoInt();
    }
  }

  lemma DashChars(a: string, b: string)
    requires (forall c :: c in a ==> SpecChar(c)) && (forall c :: c in b ==> SpecChar(c))
    ensures forall c :: c in a + "-" + b ==> SpecChar(c)
    ensures '-' in a + "-" + b && Strip(a + "-" + b) == a + "-" + b && ',' !in a + "-" + b
  {
    hide Strip;
    assert (a + "-" + b)[|a|] == '-';
    SpecCharsStrip(a + "-" + b);
  }

  lemma SpecChars(b: Bounds)
    ensures PrintSpec(b) != [] && forall c :: c in PrintSpec(b) ==> SpecChar(c)
    ensures '-' in PrintSpec(b) && Strip(PrintSpec(b)) == PrintSpec(b) && ',' !in PrintSpec(b)
  {
    hide PrintInt, PyInt, PrintEnd, Strip, SpecChar;
    var s := PrintSpec(b);
    if b.0.None? {
      EndText(b.1);
      DashChars("", PrintEnd(b.1));
      assert s == "" + "-" + PrintEnd(b.1);
    } else {
      BoundText(b.0.value);
      if b.1.Some? {
        BoundText(b.1.value);
      }
      var rest := if b.1.None? then "" else PrintInt(b.1.value);
      DashChars(PrintInt(b.0.value), rest);
      assert s == PrintInt(b.0.value) + "-" + rest;
    }
  }

  /** One printed piece reads back exactly when its bounds are good. */
  lemma SpecRoundTripIff(b: Bounds)
    ensures '-' in PrintSpec(b) && (ParseSpec(PrintSpec(b)) == Some(b) <==> GoodBounds(b))
  {
    hide PyInt, Strip, PrintInt;
    SpecChars(b);
    var s := PrintSpec(b);
    if b.0.None? {
      EndText(b.1);
      hide PrintEnd;
      assert Find(s, '-') == 0;
      assert s[..0] == "" && s[1..] == PrintEnd(b.1);
    } else {
      BoundText(b.0.value);
      var first := PrintInt(b.0.value);
      if b.0.value < 0 {
        assert s[0] == first[0];
        assert Find(s, '-') == 0;
      } else {
        if b.1.Some? {
          BoundText(b.1.value);
        }
        var rest := if b.1.None? then "" else PrintInt(b.1.value);
        assert s == first + ['-'] + rest;
        FindAfterPrefix(first, rest, '-');
        hide Find;
        assert s[..|first|] == first && s[|first| + 1..] == rest;
      }
    }
  }

  lemma {:induction false} SplitCommaPiece(p: string, s: string, cur: string)
    requires ',' !in p
    ensures SplitComma(p + s, cur) == SplitComma(s, cur + p)
    decreases |p|
  {
    if p == [] {
      assert p + s == s && cur + p == cur;
    } else {
      assert (p + s)[1..] == p[1..] + s;
      SplitCommaPiece(p[1..], s, cur + [p[0]]);
      assert cur + p == cur + [p[0]] + p[1..];
    }
  }

  function Specs(bs: seq<Bounds>): (s: seq<string>)
    ensures |s| == |bs|
  {
    seq(|bs|, i requires 0 <= i < |bs| => PrintSpec(bs[i]))
  }

  lemma PieceText(b: Bounds)
    ensures PrintSpec(b) != [] && ',' !in PrintSpec(b) && '\n' !in PrintSpec(b)
  {
    hide PrintSpec, SpecChar, Strip;
    SpecChars(b);
    SpecCharsStrip(PrintSpec(b));
  }

  lemma SplitFirst(p: string, rest: string)
    requires ',' !in p
    ensures SplitComma(p, []) == [p]
    ensures SplitComma(p + "," + rest, []) == [p] + SplitComma(rest, [])
  {
    assert [] + p == p && p + [] == p;
    SplitCommaPiece(p, [], []);
    SplitCommaPiece(p, "," + rest, []);
    assert p + ("," + rest) == p + "," + rest;
    assert ("," + rest)[1..] == rest;
  }

  lemma {:induction false} PrintedText(bs: seq<Bounds>)
    requires bs != []
    ensures PrintSpecs(bs) != [] && '\n' !in PrintSpecs(bs)
    decreases |bs|
  {
    PieceText(bs[0]);
    hide PrintSpec;
    if |bs| > 1 {
      PrintedText(bs[1..]);
    }
  }

  lemma {:induction false} SplitPrinted(bs: seq<Bounds>)
    requires bs != []
    ensures SplitComma(PrintSpecs(bs), []) == Specs(bs)
    decreases |bs|
  {
    hide PrintSpec, SplitComma;
    var p := PrintSpec(bs[0]);
    PieceText(bs[0]);
    SplitFirst(p, PrintSpecs(bs[1..]));
    if |bs| == 1 {
      assert Specs(bs) == [p];
    } else {
      SplitPrinted(bs[1..]);
      SpecsStep(bs);
    }
  }

  lemma SpecsStep(bs: seq<Bounds>)
    requires bs != []
    ensures Specs(bs) == [PrintSpec(bs[0])] + Specs(bs[1..])
  {
    hide PrintSpec;
  }

  lemma {:induction false} SpecsRoundTripIff(bs: seq<Bounds>)
    ensures ParseSpecs(Specs(bs)) == Some(bs) <==> forall b :: b in bs ==> GoodBounds(b)
    decreases |bs|
  {
    hide PrintSpec, ParseSpec, Strip, GoodBounds;
    if bs != [] {
      SpecChars(bs[0]);
      SpecRoundTripIff(bs[0]);
      hide SpecChar;
      assert Specs(bs)[1..] == Specs(bs[1..]);
      SpecsRoundTripIff(bs[1..]);
      assert bs == [bs[0]] + bs[1..];
      var rest := ParseSpecs(Specs(bs[1..]));
      if rest.Some? {
        ConsEqual(bs, bs[0], rest.value);
      }
    }
  }

  lemma ConsEqual<T>(s: seq<T>, x: T, rest: seq<T>)
    requires s != []
    ensures [x] + rest == s <==> x == s[0] && rest == s[1..]
  {
    assert s == [s[0]] + s[1..];
    assert ([x] + rest)[1..] == rest;
  }

  lemma {:induction false} WordSpanOf(w: string, rest: string)
    requires (forall c :: c in w ==> IsNameChar(c)) && rest != [] && !IsNameChar(rest[0])
    ensures WordSpan(w + rest) == |w|
  {
    if w == [] {
      assert w + rest == rest;
    } else {
      assert w[0] in w && (w + rest)[1..] == w[1..] + rest;
      WordSpanOf(w[1..], rest);
    }
  }

  lemma ParsedUnit(header: string)
    requires ParseRange(header).IsRange?
    ensures var u := ParseRange(header).range.unit; u != [] && forall c :: c in u ==> IsNameChar(c)
  {
    hide ParseSpecs, SplitComma, Find;
  }

  function ReadBack(u: string, body: string): Parsed {
    if body == [] then NoRange
    else
      match ParseSpecs(SplitComma(body, []))
      case None => ValueError
      case Some(ranges) => IsRange(Range(u, ranges))
  }

  lemma ParsedHeader(u: string, body: string)
    requires u != [] && (forall c :: c in u ==> IsNameChar(c)) && '\n' !in body
    ensures ParseRange(u + "=" + body) == ReadBack(u, body)
  {
    hide ParseSpecs, SplitComma;
    var header := u + "=" + body;
    WordSpanOf(u, "=" + body);
    hide WordSpan;
    assert header == u + ("=" + body);
    assert header[|u|] == '=' && header[..|u|] == u && header[|u| + 1..] == body;
    assert Find(body, '\n') == |body| && body[..|body|] == body;
  }

  /** `Range.parse(str(r)) == r` exactly for a word as unit and a non-empty list of ranges that each have
      a bound and no negative start. */
  lemma RangeRoundTripIff(r: Range)
    ensures ParseRange(PrintRange(r)) == IsRange(r) <==> GoodRange(r)
  {
    hide ParseRange, ParseSpecs, SplitComma, GoodBounds, IsNameChar;
    if r.unit != [] && forall c :: c in r.unit ==> IsNameChar(c) {
      if r.ranges != [] {
        PrintedText(r.ranges);
        SplitPrinted(r.ranges);
        SpecsRoundTripIff(r.ranges);
      }
      hide PrintSpec;
      ParsedHeader(r.unit, PrintSpecs(r.ranges));
      hide PrintSpecs;
    } else if ParseRange(PrintRange(r)).IsRange? {
      ParsedUnit(PrintRange(r));
    }
  }

  /** The pieces that hold a range, without the white space around them. */
  function Kept(pieces: seq<string>): seq<string> {
    if pieces == [] then []
    else
      var spec := Strip(pieces[0]);
      (if '-' in spec then [spec] else []) + Kept(pieces[1..])
  }

  function JoinComma(pieces: seq<string>): string {
    if pieces == [] then "" else if |pieces| == 1 then pieces[0] else pieces[0] + "," + JoinComma(pieces[1..])
  }

  lemma {:induction false} KeptAreParsed(pieces: seq<string>, bs: seq<Bounds>)
    requires Kept(pieces) == Specs(bs) && forall b :: b in bs ==> GoodBounds(b)
    ensures ParseSpecs(pieces) == Some(bs)
    decreases |pieces|
  {
    hide PrintSpec, ParseSpec, Strip, GoodBounds;
    if pieces != [] {
      if '-' in Strip(pieces[0]) {
        assert Kept(pieces)[0] == Strip(pieces[0]) && Kept(pieces)[1..] == Kept(pieces[1..]);
        assert Specs(bs)[0] == PrintSpec(bs[0]) && Specs(bs)[1..] == Specs(bs[1..]);
        assert bs[0] in bs && bs == [bs[0]] + bs[1..];
        SpecRoundTripIff(bs[0]);
        KeptAreParsed(pieces[1..], bs[1..]);
      } else {
        KeptAreParsed(pieces[1..], bs);
      }
    }
  }

  lemma {:induction false} SplitJoined(pieces: seq<string>)
    requires pieces != [] && forall p :: p in pieces ==> ',' !in p
    ensures SplitComma(JoinComma(pieces), []) == pieces
    decreases |pieces|
  {
    hide SplitComma;
    assert pieces[0] in pieces && pieces == [pieces[0]] + pieces[1..];
    SplitFirst(pieces[0], JoinComma(pieces[1..]));
    if |pieces| > 1 {
      SplitJoined(pieces[1..]);
    }
  }

  lemma {:induction false} JoinedChars(pieces: seq<string>, c: char)
    requires c != ',' && forall p :: p in pieces ==> c !in p
    ensures c !in JoinComma(pieces)
    decreases |pieces|
  {
    if pieces != [] {
      assert pieces[0] in pieces;
      JoinedChars(pieces[1..], c);
    }
  }

  /** White space around ranges and pieces without a dash make no difference. */
  lemma SpacedRangesParse(u: string, pieces: seq<string>, bs: seq<Bounds>)
    requires u != [] && (forall c :: c in u ==> IsNameChar(c)) && JoinComma(pieces) != []
    requires forall p :: p in pieces ==> ',' !in p && '\n' !in p
    requires Kept(pieces) == Specs(bs) && forall b :: b in bs ==> GoodBounds(b)
    ensures ParseRange(u + "=" + JoinComma(pieces)) == IsRange(Range(u, bs))
  {
    hide ParseRange, ParseSpecs, SplitComma, Kept, GoodBounds, IsNameChar;
    JoinedChars(pieces, '\n');
    SplitJoined(pieces);
    KeptAreParsed(pieces, bs);
    ParsedHeader(u, JoinComma(pieces));
  }

  // ---- File responses ----------------------------------------------------------------------

  datatype Handled = FullResponse | NotSatisfiable | Partial(start: nat, end: nat)

  function Select(start: int, end: int, size: nat): Handled {
    if start < 0 || start >= size || end < start then NotSatisfiable
    else Partial(start, if end < size - 1 then end else size - 1)
  }

  /** What the text after `bytes=` selects of a file of `size` bytes; malformed text is ignored. */
  function HandleSpec(spec: string, size: nat): Handled {
    if spec != [] && spec[0] == '-' then
      match PyInt(spec[1..])
      case None => FullResponse
      case Some(n) => Select(if size - n > 0 then size - n else 0, size - 1, size)
    else if spec != [] && spec[|spec| - 1] == '-' then
      match PyInt(spec[..|spec| - 1])
      case None => FullResponse
      case Some(n) => Select(n, size - 1, size)
    else
      var d := Find(spec, '-');
      if d == |spec| then FullResponse
      else
        match (PyInt(spec[..d]), PyInt(spec[d + 1..]))
        case (Some(a), Some(b)) => Select(a, b, size)
        case _ => FullResponse
  }

  function Handle(header: string, size: nat): Handled {
    if "bytes=" <= header then HandleSpec(header[6..], size) else FullResponse
  }

  /** The positions a range with natural bounds denotes. */
  ghost predicate Denotes(b: Bounds, size: nat, i: nat) {
    i < size &&
    match b
    case (Some(a), Some(e)) => a <= i <= e
    case (Some(a), None) => a <= i
    case (None, Some(n)) => i >= size - n
    case (None, None) => false
  }

  predicate NaturalBounds(b: Bounds) {
    (b.0.Some? ==> b.0.value >= 0) && (b.1.Some? ==> b.1.value >= 0) && (b.0.Some? || b.1.Some?)
  }

  function First(b: Bounds, size: nat): (start: int)
    requires NaturalBounds(b)
    ensures start >= 0
  {
    if b.0.Some? then b.0.value else if size > b.1.value then size - b.1.value else 0
  }

  function Last(b: Bounds, size: nat): int {
    if b.0.None? || b.1.None? then size - 1 else b.1.value
  }

  lemma PrintOne(b: Bounds)
    ensures PrintRange(Range("bytes", [b])) == "bytes=" + PrintSpec(b)
  {
    hide PrintSpec;
    assert "bytes" + "=" == "bytes=";
  }

  lemma HandleSuffix(n: int, size: nat)
    ensures HandleSpec("-" + PrintInt(n), size) == Select(if size > n then size - n else 0, size - 1, size)
  {
    BoundText(n);
    hide PyInt, PrintInt, Select, Find, SpecChar;
    assert ("-" + PrintInt(n))[1..] == PrintInt(n);
  }

  lemma HandleOpen(a: nat, size: nat)
    ensures HandleSpec(PrintInt(a) + "-", size) == Select(a, size - 1, size)
  {
    BoundText(a);
    hide PyInt, PrintInt, Select, Find, SpecChar;
    var spec := PrintInt(a) + "-";
    assert spec[0] == PrintInt(a)[0] && PrintInt(a)[0] in PrintInt(a);
    assert spec[..|spec| - 1] == PrintInt(a);
  }

  lemma HandleClosed(a: nat, e: nat, size: nat)
    ensures HandleSpec(PrintInt(a) + "-" + PrintInt(e), size) == Select(a, e, size)
  {
    BoundText(a);
    BoundText(e);
    hide PyInt, PrintInt, Select, Find, SpecChar;
    var first, rest := PrintInt(a), PrintInt(e);
    var spec := first + "-" + rest;
    assert spec[0] == first[0] && first[0] in first;
    assert spec[|spec| - 1] == rest[|rest| - 1] && rest[|rest| - 1] in rest;
    FindAfterPrefix(first, rest, '-');
    assert first + ['-'] + rest == spec;
    assert spec[..|first|] == first && spec[|first| + 1..] == rest;
  }

  lemma HandlePrinted(b: Bounds, size: nat)
    requires NaturalBounds(b)
    ensures Handle("bytes=" + PrintSpec(b), size) == Select(First(b, size), Last(b, size), size)
  {
    hide HandleSpec, Select, PrintInt;
    var header := "bytes=" + PrintSpec(b);
    assert "bytes=" <= header && header[6..] == PrintSpec(b);
    if b.0.None? {
      HandleSuffix(b.1.value, size);
    } else if b.1.None? {
      HandleOpen(b.0.value, size);
    } else {
      HandleClosed(b.0.value, b.1.value, size);
    }
  }

  /** `h` answers with one non-empty slice inside the file that holds exactly the bytes `b` denotes, or is
      a refusal and `b` denotes none. */
  ghost predicate SelectsExactly(h: Handled, b: Bounds, size: nat) {
    match h
    case FullResponse => false
    case NotSatisfiable => forall i: nat :: !Denotes(b, size, i)
    case Partial(start, end) => start <= end < size && forall i: nat :: Denotes(b, size, i) <==> start <= i <= end
  }

  lemma SelectionIsExact(b: Bounds, size: nat)
    requires NaturalBounds(b)
    ensures SelectsExactly(Select(First(b, size), Last(b, size), size), b, size)
  {
  }

  /** The printed header of a single range with natural bounds selects exactly the bytes it denotes. */
  lemma SingleRangeIsExact(b: Bounds, size: nat)
    requires NaturalBounds(b)
    ensures SelectsExactly(Handle(PrintRange(Range("bytes", [b])), size), b, size)
  {
    hide Handle, PrintSpec, PrintRange, Select, SelectsExactly;
    HandlePrinted(b, size);
    PrintOne(b);
    SelectionIsExact(b, size);
  }

  /** Any header, well formed or not, that yields a slice yields one inside the file. */
  lemma SliceInBounds(header: string, size: nat)
    ensures var h := Handle(header, size); h.Partial? ==> h.start <= h.end < size
  {
    hide PyInt, Find;
  }

  lemma {:induction false} DigitsHaveNoComma(s: string, acc: nat)
    requires ParseDigits(s, acc).Some?
    ensures ',' !in s
    decreases |s|
  {
    if |s| > 1 {
      if s[1] == '_' {
        DigitsHaveNoComma(s[2..], acc * 10 + (s[0] as int - 48));
        assert s == [s[0], s[1]] + s[2..];
      } else {
        DigitsHaveNoComma(s[1..], acc * 10 + (s[0] as int - 48));
        assert s == [s[0]] + s[1..];
      }
    }
  }

  lemma {:induction false} StripKeepsComma(s: string)
    ensures ',' in s ==> ',' in Strip(s)
  {
    LStripKeepsComma(s);
    RStripKeepsComma(LStrip(s));
  }

  lemma {:induction false} LStripKeepsComma(s: string)
    ensures ',' in s ==> ',' in LStrip(s)
    decreases |s|
  {
    if s != [] && IsSpace(s[0]) {
      assert s == [s[0]] + s[1..];
      LStripKeepsComma(s[1..]);
    }
  }

  lemma {:induction false} RStripKeepsComma(s: string)
    ensures ',' in s ==> ',' in RStrip(s)
    decreases |s|
  {
    if s != [] && IsSpace(s[|s| - 1]) {
      assert s == s[..|s| - 1] + [s[|s| - 1]];
      RStripKeepsComma(s[..|s| - 1]);
    }
  }

  lemma IntHasNoComma(s: string)
    ensures PyInt(s).Some? ==> ',' !in s
  {
    var t := Strip(s);
    StripKeepsComma(s);
    hide Strip;
    if PyInt(s).Some? {
      var digits := if t != [] && (t[0] == '-' || t[0] == '+') then t[1..] else t;
      DigitsHaveNoComma(digits, 0);
      assert t == [] || t == [t[0]] + t[1..];
    }
  }

  lemma CommaIgnored(spec: string, size: nat)
    requires ',' in spec
    ensures HandleSpec(spec, size) == FullResponse
  {
    hide PyInt, Select;
    if spec[0] == '-' {
      assert spec == ['-'] + spec[1..];
      IntHasNoComma(spec[1..]);
    } else if spec[|spec| - 1] == '-' {
      assert spec == spec[..|spec| - 1] + ['-'];
      IntHasNoComma(spec[..|spec| - 1]);
    } else {
      var d := Find(spec, '-');
      if d < |spec| {
        IntHasNoComma(spec[..d]);
        IntHasNoComma(spec[d + 1..]);
        assert spec == spec[..d] + ['-'] + spec[d + 1..];
      }
    }
  }

  /** Any list of two or more ranges is answered with the whole file. */
  lemma SeveralRangesIgnored(header: string, size: nat)
    requires ',' in header
    ensures Handle(header, size) == FullResponse
  {
    hide HandleSpec;
    if "bytes=" <= header {
      var spec := header[6..];
      assert header == "bytes=" + spec;
      assert ',' !in "bytes=";
      CommaIgnored(spec, size);
    }
  }

  /** A header printed for any other unit is ignored. */
  lemma OtherUnitsIgnored(r: Range, size: nat)
    requires r.unit != "bytes" && '=' !in r.unit
    ensures Handle(PrintRange(r), size) == FullResponse
  {
    hide PrintSpecs, HandleSpec;
    var header := PrintRange(r);
    var u := r.unit;
    if "bytes=" <= header {
      assert header[5] == "bytes="[5] == '=' && header[|u|] == '=';
      assert forall i :: 0 <= i < |u| ==> header[i] == u[i] && u[i] in u;
    }
  }

  lemma {:induction false} NoDigitsNoValue(s: string)
    requires forall c :: c in s ==> !IsDigit(c)
    ensures PyInt(s) == None
  {
    var t := Strip(s);
    var l := LStrip(s);
    assert l == s[|s| - |l|..] && t <= l;
    assert forall i :: 0 <= i < |t| ==> t[i] in s;
    hide Strip;
  }

  /** A header without a single digit is malformed and ignored. */
  lemma NoDigitsIgnored(header: string, size: nat)
    requires forall c :: c in header ==> !IsDigit(c)
    ensures Handle(header, size) == FullResponse
  {
    hide PyInt, IsDigit, Select;
    if "bytes=" <= header {
      var spec := header[6..];
      assert forall c :: c in spec ==> c in header;
      var d := Find(spec, '-');
      NoDigitsNoValue(spec[..d]);
      if spec != [] {
        NoDigitsNoValue(spec[1..]);
        NoDigitsNoValue(spec[..|spec| - 1]);
      }
    }
  }

  class FileResponse {
    const size: nat
    var status: nat
    var contentRange: Option<string>
    var contentLength: Option<string>
    var slice: Option<(nat, nat)>

    constructor (size: nat, status: nat)
      ensures this.size == size && this.status == status
      ensures contentRange == None && contentLength == None && slice == None
    {
      this.size, this.status, contentRange, contentLength, slice := size, status, None, None, None;
    }

    /** `slice` is the first and the last byte offset of the body stream. */
    method HandleRangeRequest(header: Option<string>) returns (refused: bool)
      modifies this
      ensures match (if header.None? then FullResponse else Handle(header.value, size))
        case FullResponse => !refused && unchanged(this)
        case NotSatisfiable => refused && unchanged(this)
        case Partial(a, b) =>
          && !refused && status == 206 && slice == Some((a, b)) && a <= b < size
          && contentLength == Some(PrintInt(b - a + 1))
          && contentRange == Some("bytes " + PrintInt(a) + "-" + PrintInt(b) + "/" + PrintInt(size))
    {
      hide PyInt, PrintInt;
      if header.None? || !("bytes=" <= header.value) {
        return false;
      }
      var spec := header.value[6..];
      var start, end;
      if spec != [] && spec[0] == '-' {
        var n := PyInt(spec[1..]);
        if n.None? {
          return false;
        }
        start := if size - n.value > 0 then size - n.value else 0;
        end := size - 1;
      } else if spec != [] && spec[|spec| - 1] == '-' {
        var n := PyInt(spec[..|spec| - 1]);
        if n.None? {
          return false;
        }
        start := n.value;
        end := size - 1;
      } else {
        var d := Find(spec, '-');
        if d == |spec| {
          return false;
        }
        var a, b := PyInt(spec[..d]), PyInt(spec[d + 1..]);
        if a.None? || b.None? {
          return false;
        }
        start, end := a.value, b.value;
      }
      if start < 0 || start >= size || end < start {
        return true;
      }
      end := if end < size - 1 then end else size - 1;
      status := 206;
      contentRange := Some("bytes " + PrintInt(start) + "-" + PrintInt(end) + "/" + PrintInt(size));
      contentLength := Some(PrintInt(end - start + 1));
      slice := Some((start, end));
      return false;
    }
  }
}
