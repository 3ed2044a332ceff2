/** The multipart callback machine of `Request._parse_multipart_streaming` (aquilia/request.py). The
    tokenizer is outside: its callbacks are the input events, and a temporary file is its contents. */
module Multipart {
  import opened Common

  type Bytes = seq<bv8>

  /** Field name and sanitized file name read from a Content-Disposition header. */
  datatype Disposition = Unreadable | Options(name: Option<string>, filename: Option<string>)

  /** `key` decodes and lower-cases a header name, `text` decodes with replacement. */
  datatype Config = Config(
    maxParts: nat, maxFileSize: nat, memoryThreshold: nat,
    key: Bytes -> string, text: Bytes -> string, disposition: string -> Disposition)

  datatype Event =
    | PartBegin
    | HeaderField(chunk: Bytes)
    | HeaderValue(chunk: Bytes)
    | HeaderEnd
    | HeadersFinished
    | PartData(chunk: Bytes)
    | PartEnd

  datatype Fault = TooManyParts | PayloadTooLarge | ParseFailure

  datatype Upload = Upload(filename: string, content: Bytes, contentType: string, onDisk: bool)

  /** A dictionary of lists: keys in order of first use, values per key in order of arrival. */
  datatype Multi<V> = Multi(keys: seq<string>, values: map<string, seq<V>>) {
    function Add(k: string, v: V): Multi<V> {
      if k in values then Multi(keys, values[k := values[k] + [v]]) else Multi(keys + [k], values[k := [v]])
    }
  }

  datatype Form = Form(fields: Multi<string>, files: Multi<Upload>)

  const EMPTY_FORM := Form(Multi([], map[]), Multi([], map[]))

  datatype Part = PartState(
    name: Option<string>, filename: Option<string>, contentType: Option<string>,
    data: Bytes, tempFile: Option<Bytes>, fileOpen: bool, size: nat,
    headerField: Bytes, headerValue: Bytes, headers: map<string, string>)

  datatype State = State(partCount: nat, part: Part, form: Form)

  datatype Outcome<+T> = Ok(value: T) | Fail(fault: Fault)

  const BLANK := PartState(None, None, None, [], None, false, 0, [], [], map[])

  predicate Given(s: Option<string>) {
    s.Some? && s.value != ""
  }

  // ---- One callback ------------------------------------------------------------------------

  function Receive(cfg: Config, p: Part, chunk: Bytes): Outcome<Part> {
    var size := p.size + |chunk|;
    if Given(p.filename) && size > cfg.maxFileSize then Fail(PayloadTooLarge)
    else if !Given(p.filename) then Ok(p.(size := size, data := p.data + chunk))
    else
      var q := if size > cfg.memoryThreshold && p.tempFile.None?
               then p.(size := size, tempFile := Some(p.data), fileOpen := true, data := [])
               else p.(size := size);
      Ok(if q.tempFile.Some? && q.fileOpen then q.(tempFile := Some(q.tempFile.value + chunk))
         else q.(data := q.data + chunk))
  }

  function ReadHeaders(cfg: Config, p: Part): Outcome<Part> {
    var disposition := if "content-disposition" in p.headers then p.headers["content-disposition"] else "";
    var options := if disposition == "" then Options(p.name, None) else cfg.disposition(disposition);
    if options.Unreadable? then Fail(ParseFailure)
    else
      var q := p.(name := options.name, filename := if Given(options.filename) then options.filename else p.filename);
      Ok(if "content-type" in p.headers && p.headers["content-type"] != ""
         then q.(contentType := Some(p.headers["content-type"])) else q)
  }

  function ContentType(p: Part): string {
    if Given(p.contentType) then p.contentType.value else "application/octet-stream"
  }

  function Finish(cfg: Config, p: Part, form: Form): Form {
    if !Given(p.name) then form
    else if Given(p.filename) then
      var upload := if p.tempFile.Some? then Upload(p.filename.value, p.tempFile.value, ContentType(p), true)
                    else Upload(p.filename.value, p.data, ContentType(p), false);
      form.(files := form.files.Add(p.name.value, upload))
    else form.(fields := form.fields.Add(p.name.value, cfg.text(p.data)))
  }

  function Begin(cfg: Config, st: State): Outcome<State> {
    if st.partCount + 1 > cfg.maxParts then Fail(TooManyParts)
    else Ok(State(st.partCount + 1, BLANK.(contentType := Some("text/plain")), st.form))
  }

  function Step(cfg: Config, st: State, e: Event): Outcome<State> {
    var p := st.part;
    match e
    case PartBegin => Begin(cfg, st)
    case HeaderField(chunk) => Ok(st.(part := p.(headerField := p.headerField + chunk)))
    case HeaderValue(chunk) => Ok(st.(part := p.(headerValue := p.headerValue + chunk)))
    case HeaderEnd =>
      var headers := if p.headerField == [] then p.headers
                     else p.headers[cfg.key(p.headerField) := cfg.text(p.headerValue)];
      Ok(st.(part := p.(headers := headers, headerField := [], headerValue := [])))
    case HeadersFinished => (
      match ReadHeaders(cfg, p)
      case Fail(f) => Fail(f)
      case Ok(q) => Ok(st.(part := q)))
    case PartData(chunk) => (
      match Receive(cfg, p, chunk)
      case Fail(f) => Fail(f)
      case Ok(q) => Ok(st.(part := q)))
    case PartEnd => Ok(st.(part := p.(fileOpen := false), form := Finish(cfg, p, st.form)))
  }

  function Run(cfg: Config, st: State, events: seq<Event>): Outcome<State>
    decreases |events|
  {
    if events == [] then Ok(st)
    else
      match Step(cfg, st, events[0])
      case Fail(f) => Fail(f)
      case Ok(st') => Run(cfg, st', events[1..])
  }

  // ---- Fragmentation does not matter -------------------------------------------------------

  predicate Mergeable(a: Event, b: Event) {
    (a.HeaderField? && b.HeaderField?) || (a.HeaderValue? && b.HeaderValue?) || (a.PartData? && b.PartData?)
  }

  function Merge(a: Event, b: Event): Event
    requires Mergeable(a, b)
  {
    a.(chunk := a.chunk + b.chunk)
  }

  /** Joins runs of adjacent chunks of one kind. */
  function Coalesce(events: seq<Event>): seq<Event>
    decreases |events|
  {
    if |events| < 2 then events
    else if Mergeable(events[0], events[1]) then Coalesce([Merge(events[0], events[1])] + events[2..])
    else [events[0]] + Coalesce(events[1..])
  }

  /** Two data chunks act as their concatenation, also when only the second crosses a limit. */
  lemma ReceiveMerges(cfg: Config, p: Part, a: Bytes, b: Bytes)
    ensures Receive(cfg, p, a + b) ==
            match Receive(cfg, p, a) { case Fail(f) => Fail(f) case Ok(q) => Receive(cfg, q, b) }
  {
    assert p.data + (a + b) == (p.data + a) + b;
    assert p.tempFile.Some? ==> p.tempFile.value + (a + b) == (p.tempFile.value + a) + b;
  }

  lemma StepMerges(cfg: Config, st: State, a: Event, b: Event)
    requires Mergeable(a, b)
    ensures Step(cfg, st, Merge(a, b)) ==
            match Step(cfg, st, a) { case Fail(f) => Fail(f) case Ok(st') => Step(cfg, st', b) }
  {
    match a
    case PartData(_) => ReceiveMerges(cfg, st.part, a.chunk, b.chunk);
    case HeaderField(_) =>
      assert st.part.headerField + (a.chunk + b.chunk) == (st.part.headerField + a.chunk) + b.chunk;
    case HeaderValue(_) =>
      assert st.part.headerValue + (a.chunk + b.chunk) == (st.part.headerValue + a.chunk) + b.chunk;
  }

  lemma {:induction false} CoalescePreserves(cfg: Config, st: State, events: seq<Event>)
    ensures Run(cfg, st, Coalesce(events)) == Run(cfg, st, events)
    decreases |events|
  {
    if |events| >= 2 {
      var a, b := events[0], events[1];
      if Mergeable(a, b) {
        var shorter := [Merge(a, b)] + events[2..];
        CoalescePreserves(cfg, st, shorter);
        StepMerges(cfg, st, a, b);
        assert shorter[1..] == events[2..] == events[1..][1..];
        hide Step;
      } else {
        var rest := Coalesce(events[1..]);
        assert ([a] + rest)[1..] == rest;
        hide Step;
        if Step(cfg, st, a).Ok? {
          CoalescePreserves(cfg, Step(cfg, st, a).value, events[1..]);
        }
      }
    }
  }

  /** Callback scripts that differ only in how chunks are cut end in the same state or fault. */
  lemma FragmentationInvariant(cfg: Config, st: State, one: seq<Event>, other: seq<Event>)
    requires Coalesce(one) == Coalesce(other)
    ensures Run(cfg, st, one) == Run(cfg, st, other)
  {
    CoalescePreserves(cfg, st, one);
    CoalescePreserves(cfg, st, other);
  }

  // ---- What a body means -------------------------------------------------------------------

  /** A part as sent: header lines and content. */
  datatype Message = Message(headers: seq<(Bytes, Bytes)>, content: Bytes)

  function Chunk(e: Event): seq<Event>
    requires e.HeaderField? || e.HeaderValue? || e.PartData?
  {
    if e.chunk == [] then [] else [e]
  }

  function HeaderScript(headers: seq<(Bytes, Bytes)>): seq<Event> {
    if headers == [] then []
    else Chunk(HeaderField(headers[0].0)) + Chunk(HeaderValue(headers[0].1)) + [HeaderEnd] + HeaderScript(headers[1..])
  }

  /** The unfragmented callbacks of one part. */
  function Script(m: Message): seq<Event> {
    [PartBegin] + HeaderScript(m.headers) + [HeadersFinished] + Chunk(PartData(m.content)) + [PartEnd]
  }

  function Scripts(ms: seq<Message>): seq<Event> {
    if ms == [] then [] else Script(ms[0]) + Scripts(ms[1..])
  }

  /** Header lines as a dictionary: nameless lines are dropped, later lines win. */
  function HeaderMap(cfg: Config, headers: seq<(Bytes, Bytes)>, start: map<string, string>): map<string, string> {
    if headers == [] then start
    else HeaderMap(cfg, headers[1..],
                   if headers[0].0 == [] then start else start[cfg.key(headers[0].0) := cfg.text(headers[0].1)])
  }

  datatype Entry = Ignored | Field(name: string, text: string) | File(name: string, upload: Upload)

  /** What a part means, by its headers and its content as a whole. */
  function Classify(cfg: Config, m: Message): Outcome<Entry> {
    var h := HeaderMap(cfg, m.headers, map[]);
    var named := "content-disposition" in h && h["content-disposition"] != "";
    var options := if named then cfg.disposition(h["content-disposition"]) else Options(None, None);
    var contentType := if "content-type" in h && h["content-type"] != "" then h["content-type"] else "text/plain";
    if options.Unreadable? then Fail(ParseFailure)
    else if Given(options.filename) && |m.content| > cfg.maxFileSize then Fail(PayloadTooLarge)
    else if !Given(options.name) then Ok(Ignored)
    else if Given(options.filename) then
      Ok(File(options.name.value,
              Upload(options.filename.value, m.content, contentType, |m.content| > cfg.memoryThreshold)))
    else Ok(Field(options.name.value, cfg.text(m.content)))
  }

  function AddEntry(form: Form, e: Entry): Form {
    match e
    case Ignored => form
    case Field(name, text) => form.(fields := form.fields.Add(name, text))
    case File(name, upload) => form.(files := form.files.Add(name, upload))
  }

  function Expected(cfg: Config, m: Message, form: Form): Outcome<Form> {
    match Classify(cfg, m)
    case Fail(f) => Fail(f)
    case Ok(e) => Ok(AddEntry(form, e))
  }

  function ExpectedAll(cfg: Config, ms: seq<Message>, count: nat, form: Form): Outcome<Form> {
    if ms == [] then Ok(form)
    else if count + 1 > cfg.maxParts then Fail(TooManyParts)
    else
      match Expected(cfg, ms[0], form)
      case Fail(f) => Fail(f)
      case Ok(form') => ExpectedAll(cfg, ms[1..], count + 1, form')
  }

  lemma {:induction false} RunConcat(cfg: Config, st: State, a: seq<Event>, b: seq<Event>)
    ensures Run(cfg, st, a + b) == match Run(cfg, st, a) { case Fail(f) => Fail(f) case Ok(st') => Run(cfg, st', b) }
    decreases |a|
  {
    hide Step;
    if a == [] {
      assert a + b == b;
    } else {
      assert (a + b)[1..] == a[1..] + b;
      if Step(cfg, st, a[0]).Ok? {
        RunConcat(cfg, Step(cfg, st, a[0]).value, a[1..], b);
      }
    }
  }

  lemma RunOne(cfg: Config, st: State, e: Event)
    ensures Run(cfg, st, [e]) == Step(cfg, st, e)
  {
    hide Step;
    assert [e][1..] == [];
  }

  lemma RunChunk(cfg: Config, st: State, e: Event)
    requires e.HeaderField? || e.HeaderValue?
    ensures Run(cfg, st, Chunk(e)) == Step(cfg, st, e)
  {
    if e.chunk != [] {
      RunOne(cfg, st, e);
    } else {
      assert st.part.headerField + [] == st.part.headerField && st.part.headerValue + [] == st.part.headerValue;
    }
  }

  lemma {:induction false} RunHeaders(cfg: Config, st: State, headers: seq<(Bytes, Bytes)>)
    requires st.part.headerField == [] && st.part.headerValue == []
    ensures Run(cfg, st, HeaderScript(headers)) ==
            Ok(st.(part := st.part.(headers := HeaderMap(cfg, headers, st.part.headers))))
    decreases |headers|
  {
    if headers != [] {
      var (name, value) := headers[0];
      var f, v := HeaderField(name), HeaderValue(value);
      var s1 := Step(cfg, st, f).value;
      var s2 := Step(cfg, s1, v).value;
      var s3 := Step(cfg, s2, HeaderEnd).value;
      assert [] + name == name && [] + value == value;
      assert s3 == st.(part := st.part.(headers := s3.part.headers));
      assert HeaderMap(cfg, headers, st.part.headers) == HeaderMap(cfg, headers[1..], s3.part.headers);
      RunChunk(cfg, st, f);
      RunChunk(cfg, s1, v);
      RunOne(cfg, s2, HeaderEnd);
      RunConcat(cfg, st, Chunk(f), Chunk(v));
      RunConcat(cfg, st, Chunk(f) + Chunk(v), [HeaderEnd]);
      RunConcat(cfg, st, Chunk(f) + Chunk(v) + [HeaderEnd], HeaderScript(headers[1..]));
      RunHeaders(cfg, s3, headers[1..]);
      hide Step, Run;
    }
  }

  /** Receiving the whole content at once. */
  lemma RunContent(cfg: Config, st: State, content: Bytes)
    requires st.part.data == [] && st.part.tempFile.None? && !st.part.fileOpen && st.part.size == 0
    ensures var r := Run(cfg, st, Chunk(PartData(content)));
      var named := Given(st.part.filename);
      if named && |content| > cfg.maxFileSize then r == Fail(PayloadTooLarge)
      else if named && |content| > cfg.memoryThreshold then
        r == Ok(st.(part := st.part.(size := |content|, tempFile := Some(content), fileOpen := true)))
      else r == Ok(st.(part := st.part.(size := |content|, data := content)))
  {
    if content != [] {
      RunOne(cfg, st, PartData(content));
      assert [] + content == content;
    }
  }

  /** The state after the header lines of a part. */
  function AfterHeaders(cfg: Config, st: State, m: Message): State {
    State(st.partCount + 1,
          BLANK.(contentType := Some("text/plain"), headers := HeaderMap(cfg, m.headers, map[])), st.form)
  }

  lemma PartHeaders(cfg: Config, st: State, m: Message)
    ensures Run(cfg, st, [PartBegin] + HeaderScript(m.headers)) ==
            if st.partCount + 1 > cfg.maxParts then Fail(TooManyParts) else Ok(AfterHeaders(cfg, st, m))
  {
    RunConcat(cfg, st, [PartBegin], HeaderScript(m.headers));
    RunOne(cfg, st, PartBegin);
    if st.partCount + 1 <= cfg.maxParts {
      RunHeaders(cfg, Step(cfg, st, PartBegin).value, m.headers);
    }
    hide Run;
  }

  lemma PartBody(cfg: Config, st: State, m: Message)
    requires st.part == BLANK.(contentType := Some("text/plain"), headers := HeaderMap(cfg, m.headers, map[]))
    ensures var r := Run(cfg, st, [HeadersFinished] + (Chunk(PartData(m.content)) + [PartEnd]));
      match Expected(cfg, m, st.form)
      case Fail(f) => r == Fail(f)
      case Ok(form) => r.Ok? && r.value.partCount == st.partCount && r.value.form == form
  {
    hide Run, HeaderMap, Receive;
    var d := Chunk(PartData(m.content));
    RunConcat(cfg, st, [HeadersFinished], d + [PartEnd]);
    RunOne(cfg, st, HeadersFinished);
    if Step(cfg, st, HeadersFinished).Ok? {
      var next := Step(cfg, st, HeadersFinished).value;
      RunConcat(cfg, next, d, [PartEnd]);
      RunContent(cfg, next, m.content);
      if Run(cfg, next, d).Ok? {
        RunOne(cfg, Run(cfg, next, d).value, PartEnd);
      }
    }
  }

  /** The callbacks of one part, from any state, do what its message means. */
  lemma PartOutcome(cfg: Config, st: State, m: Message)
    ensures var r := Run(cfg, st, Script(m));
      if st.partCount + 1 > cfg.maxParts then r == Fail(TooManyParts)
      else match Expected(cfg, m, st.form)
           case Fail(f) => r == Fail(f)
           case Ok(form) => r.Ok? && r.value.partCount == st.partCount + 1 && r.value.form == form
  {
    var head := [PartBegin] + HeaderScript(m.headers);
    var body := [HeadersFinished] + (Chunk(PartData(m.content)) + [PartEnd]);
    assert Script(m) == head + body;
    RunConcat(cfg, st, head, body);
    PartHeaders(cfg, st, m);
    PartBody(cfg, AfterHeaders(cfg, st, m), m);
    hide Run, Step, Classify, Expected;
  }

  lemma {:induction false} ScriptsOutcome(cfg: Config, st: State, ms: seq<Message>)
    ensures match Run(cfg, st, Scripts(ms))
      case Fail(f) => ExpectedAll(cfg, ms, st.partCount, st.form) == Fail(f)
      case Ok(st') => ExpectedAll(cfg, ms, st.partCount, st.form) == Ok(st'.form)
    decreases |ms|
  {
    if ms != [] {
      RunConcat(cfg, st, Script(ms[0]), Scripts(ms[1..]));
      PartOutcome(cfg, st, ms[0]);
      hide Step, Classify, AddEntry, Script;
      if Run(cfg, st, Script(ms[0])).Ok? {
        ScriptsOutcome(cfg, Run(cfg, st, Script(ms[0])).value, ms[1..]);
      }
    }
  }

  const START := State(0, BLANK, EMPTY_FORM)

  /** Any callback script that is a fragmentation of a list of parts yields the form these parts mean:
      whole contents, on disk exactly above the threshold, too large exactly above the limit, in order
      of arrival. */
  lemma BodyOutcome(cfg: Config, events: seq<Event>, ms: seq<Message>)
    requires Coalesce(events) == Coalesce(Scripts(ms))
    ensures match Run(cfg, START, events)
      case Fail(f) => ExpectedAll(cfg, ms, 0, EMPTY_FORM) == Fail(f)
      case Ok(st) => ExpectedAll(cfg, ms, 0, EMPTY_FORM) == Ok(st.form)
  {
    FragmentationInvariant(cfg, START, events, Scripts(ms));
    ScriptsOutcome(cfg, START, ms);
  }

  // ---- Arrival order -----------------------------------------------------------------------

  function Lookup<V>(m: Multi<V>, k: string): seq<V> {
    if k in m.values then m.values[k] else []
  }

  /** The field texts named `k`, in order of arrival. */
  function FieldsNamed(cfg: Config, ms: seq<Message>, k: string): seq<string> {
    if ms == [] then []
    else
      var c := Classify(cfg, ms[0]);
      (if c.Ok? && c.value.Field? && c.value.name == k then [c.value.text] else []) + FieldsNamed(cfg, ms[1..], k)
  }

  function FilesNamed(cfg: Config, ms: seq<Message>, k: string): seq<Upload> {
    if ms == [] then []
    else
      var c := Classify(cfg, ms[0]);
      (if c.Ok? && c.value.File? && c.value.name == k then [c.value.upload] else []) + FilesNamed(cfg, ms[1..], k)
  }

  /** An accepted body has no rejected part and, under each name, exactly its parts in order. */
  lemma {:induction false} ArrivalOrder(cfg: Config, ms: seq<Message>, count: nat, form: Form, k: string)
    ensures ExpectedAll(cfg, ms, count, form).Ok? <==>
            (ms == [] || count + |ms| <= cfg.maxParts) && forall m :: m in ms ==> Classify(cfg, m).Ok?
    ensures var r := ExpectedAll(cfg, ms, count, form);
      r.Ok? ==>
        && Lookup(r.value.fields, k) == Lookup(form.fields, k) + FieldsNamed(cfg, ms, k)
        && Lookup(r.value.files, k) == Lookup(form.files, k) + FilesNamed(cfg, ms, k)
    decreases |ms|
  {
    hide Classify;
    if ms != [] {
      assert ms == [ms[0]] + ms[1..];
      assert ms[0] in ms;
      var c := Classify(cfg, ms[0]);
      if c.Ok? {
        ArrivalOrder(cfg, ms[1..], count + 1, AddEntry(form, c.value), k);
      }
    }
  }

  /** Keys after some uses: each new one behind those known. */
  function FirstUses(keys: seq<string>, names: seq<string>): seq<string>
    decreases |names|
  {
    if names == [] then keys
    else FirstUses(if names[0] in keys then keys else keys + [names[0]], names[1..])
  }

  ghost predicate KeysFit<V>(m: Multi<V>) {
    forall k :: k in m.keys <==> k in m.values
  }

  /** The names of the accepted fields, or files, part by part. */
  function PartNames(cfg: Config, ms: seq<Message>, files: bool): seq<string> {
    if ms == [] then []
    else
      var c := Classify(cfg, ms[0]);
      var rest := PartNames(cfg, ms[1..], files);
      if c.Ok? && (if files then c.value.File? else c.value.Field?) then [c.value.name] + rest else rest
  }

  /** The keys of an accepted form are the names of its fields, and of its files, in the order of their
      first parts. */
  lemma {:induction false} KeysInOrder(cfg: Config, ms: seq<Message>, count: nat, form: Form)
    requires KeysFit(form.fields) && KeysFit(form.files)
    ensures var r := ExpectedAll(cfg, ms, count, form);
      r.Ok? ==>
        && r.value.fields.keys == FirstUses(form.fields.keys, PartNames(cfg, ms, false))
        && r.value.files.keys == FirstUses(form.files.keys, PartNames(cfg, ms, true))
    decreases |ms|
  {
    hide Classify;
    if ms != [] {
      var c := Classify(cfg, ms[0]);
      if c.Ok? {
        KeysInOrder(cfg, ms[1..], count + 1, AddEntry(form, c.value));
      }
    }
  }

  /** What a part is, spelled out: nothing without a name, a file with one that is not empty, otherwise
      a field; an empty file name, as browsers send it for no file, makes a field. */
  lemma PartMeaning(cfg: Config, m: Message, name: Option<string>, filename: Option<string>)
    requires var h := HeaderMap(cfg, m.headers, map[]);
      "content-disposition" in h && h["content-disposition"] != ""
      && cfg.disposition(h["content-disposition"]) == Options(name, filename)
    ensures var isFile := filename != None && filename != Some("");
      var c := Classify(cfg, m);
      && (c == Fail(PayloadTooLarge) <==> isFile && |m.content| > cfg.maxFileSize)
      && (c == Ok(Ignored) <==> (name == None || name == Some("")) && !(isFile && |m.content| > cfg.maxFileSize))
      && (c.Ok? && c.value.File? ==>
            && isFile && Some(c.value.name) == name && Some(c.value.upload.filename) == filename
            && c.value.upload.content == m.content && (c.value.upload.onDisk <==> |m.content| > cfg.memoryThreshold))
      && (c.Ok? && c.value.Field? ==>
            !isFile && Some(c.value.name) == name && c.value.text == cfg.text(m.content))
      && c != Fail(ParseFailure)
  {
    hide HeaderMap;
  }

  lemma StepPartBegin(cfg: Config, st: State)
    ensures Step(cfg, st, PartBegin) == Begin(cfg, st)
  {
  }

  lemma StepPartData(cfg: Config, st: State, chunk: Bytes)
    ensures Step(cfg, st, PartData(chunk)) ==
            match Receive(cfg, st.part, chunk) { case Fail(f) => Fail(f) case Ok(q) => Ok(st.(part := q)) }
  {
  }

  // ---- The callbacks -----------------------------------------------------------------------

  /** The variables the nested callback functions share. */
  class Parser {
    const cfg: Config
    var partCount: nat
    var name: Option<string>
    var filename: Option<string>
    var contentType: Option<string>
    var data: Bytes
    var tempFile: Option<Bytes>
    var fileOpen: bool
    var size: nat
    var headerField: Bytes
    var headerValue: Bytes
    var headers: map<string, string>
    var form: Form

    ghost function Current(): State
      reads this
    {
      State(partCount,
            PartState(name, filename, contentType, data, tempFile, fileOpen, size, headerField, headerValue, headers),
            form)
    }

    /** The callback raised what `r` says, or returned in the state `r` says. */
    ghost predicate Ended(r: Outcome<State>, fault: Option<Fault>)
      reads this
    {
      match r
      case Fail(f) => fault == Some(f)
      case Ok(st) => fault == None && Current() == st
    }

    constructor (cfg: Config)
      ensures this.cfg == cfg && Current() == START
    {
      this.cfg := cfg;
      partCount, name, filename, contentType, data, tempFile := 0, None, None, None, [], None;
      fileOpen, size, headerField, headerValue, headers, form := false, 0, [], [], map[], EMPTY_FORM;
    }

    method OnPartBegin() returns (fault: Option<Fault>)
      modifies this
      ensures Ended(Step(cfg, old(Current()), PartBegin), fault)
    {
      StepPartBegin(cfg, Current());
      hide Step;
      partCount := partCount + 1;
      if partCount > cfg.maxParts {
        return Some(TooManyParts);
      }
      name, filename, contentType, data, tempFile := None, None, Some("text/plain"), [], None;
      fileOpen, size := false, 0;
      ResetHeaders();
      return None;
    }

    method ResetHeaders()
      modifies this`headerField, this`headerValue, this`headers
      ensures headerField == [] && headerValue == [] && headers == map[]
    {
      headerField, headerValue, headers := [], [], map[];
    }

    method OnHeaderField(chunk: Bytes)
      modifies this
      ensures Step(cfg, old(Current()), HeaderField(chunk)) == Ok(Current())
    {
      headerField := headerField + chunk;
    }

    method OnHeaderValue(chunk: Bytes)
      modifies this
      ensures Step(cfg, old(Current()), HeaderValue(chunk)) == Ok(Current())
    {
      headerValue := headerValue + chunk;
    }

    method OnHeaderEnd()
      modifies this
      ensures Step(cfg, old(Current()), HeaderEnd) == Ok(Current())
    {
      if headerField != [] {
        headers := headers[cfg.key(headerField) := cfg.text(headerValue)];
      }
      headerField, headerValue := [], [];
    }

    method OnHeadersFinished() returns (fault: Option<Fault>)
      modifies this
      ensures Ended(Step(cfg, old(Current()), HeadersFinished), fault)
    {
      if "content-disposition" in headers && headers["content-disposition"] != "" {
        match cfg.disposition(headers["content-disposition"]) {
          case Unreadable => return Some(ParseFailure);
          case Options(n, f) =>
            name := n;
            if Given(f) {
              filename := f;
            }
        }
      }
      if "content-type" in headers && headers["content-type"] != "" {
        contentType := Some(headers["content-type"]);
      }
      return None;
    }

    method OnPartData(chunk: Bytes) returns (fault: Option<Fault>)
      modifies this
      ensures Ended(Step(cfg, old(Current()), PartData(chunk)), fault)
    {
      StepPartData(cfg, Current(), chunk);
      hide Step;
      size := size + |chunk|;
      if Given(filename) && size > cfg.maxFileSize {
        fileOpen := false;
        return Some(PayloadTooLarge);
      }
      if Given(filename) {
        if size > cfg.memoryThreshold && tempFile.None? {
          tempFile, fileOpen := Some([]), true;
          if data != [] {
            tempFile, data := Some(data), [];
          }
        }
        if tempFile.Some? && fileOpen {
          tempFile := Some(tempFile.value + chunk);
        } else {
          data := data + chunk;
        }
      } else {
        data := data + chunk;
      }
      return None;
    }

    method OnPartEnd()
      modifies this
      ensures Step(cfg, old(Current()), PartEnd) == Ok(Current())
    {
      fileOpen := false;
      if !Given(name) {
        return;
      }
      if Given(filename) {
        var ct := if Given(contentType) then contentType.value else "application/octet-stream";
        var upload := if tempFile.Some? then Upload(filename.value, tempFile.value, ct, true)
                      else Upload(filename.value, data, ct, false);
        form := form.(files := form.files.Add(name.value, upload));
      } else {
        form := form.(fields := form.fields.Add(name.value, cfg.text(data)));
      }
    }

    method Dispatch(e: Event) returns (fault: Option<Fault>)
      modifies this
      ensures Ended(Step(cfg, old(Current()), e), fault)
    {
      fault := None;
      match e
      case PartBegin => fault := OnPartBegin();
      case HeaderField(chunk) => OnHeaderField(chunk);
      case HeaderValue(chunk) => OnHeaderValue(chunk);
      case HeaderEnd => OnHeaderEnd();
      case HeadersFinished => fault := OnHeadersFinished();
      case PartData(chunk) => fault := OnPartData(chunk);
      case PartEnd => OnPartEnd();
    }
  }

  /** A parse that receives a fragmentation of the parts `ms` returns the form they mean, or the first
      fault they call for. */
  method ParseMultipart(cfg: Config, events: seq<Event>, ghost ms: seq<Message>) returns (r: Outcome<Form>)
    requires Coalesce(events) == Coalesce(Scripts(ms))
    ensures r == ExpectedAll(cfg, ms, 0, EMPTY_FORM)
  {
    BodyOutcome(cfg, events, ms);
    hide Step, Coalesce, ExpectedAll, Scripts;
    var parser := new Parser(cfg);
    var i := 0;
    while i < |events|
      invariant 0 <= i <= |events|
      invariant fresh(parser) && parser.cfg == cfg
      invariant Run(cfg, parser.Current(), events[i..]) == Run(cfg, START, events)
    {
      assert events[i..][1..] == events[i + 1..];
      var fault := parser.Dispatch(events[i]);
      if fault.Some? {
        return Fail(fault.value);
      }
      i := i + 1;
    }
    return Ok(parser.form);
  }
}
