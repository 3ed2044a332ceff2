/** Reading a request body from ASGI messages (`Request.iter_bytes` and `Request.body` of
    aquilia/request.py). */
module RequestBody {
  import opened Common

  type Bytes = seq<bv8>

  /** An `http.request` message, an `http.disconnect`, or a message of another type. */
  datatype Message = Body(chunk: Bytes, more: bool) | Disconnect | Other

  /** How draining the stream ends; `Starved` is a wait for a message that never comes. `BadStep` is
      the ValueError of a zero slice step. */
  datatype Ending = Complete | TooLarge | Disconnected | Starved | BadStep

  datatype Drained = Drained(chunks: seq<Bytes>, rest: seq<Message>, end: Ending)

  function Concat(chunks: seq<Bytes>): Bytes {
    if chunks == [] then [] else chunks[0] + Concat(chunks[1..])
  }

  lemma {:induction false} ConcatAppend(chunks: seq<Bytes>, c: Bytes)
    ensures Concat(chunks + [c]) == Concat(chunks) + c
  {
    if chunks == [] {
      assert chunks + [c] == [c];
      assert Concat([c]) == c + Concat([c][1..]);
    } else {
      assert (chunks + [c])[1..] == chunks[1..] + [c];
      ConcatAppend(chunks[1..], c);
    }
  }

  /** Messages received one by one until the body ends or something goes wrong. */
  function Drain(script: seq<Message>, total: nat, max: nat): Drained {
    if script == [] then Drained([], [], Starved)
    else
      match script[0]
      case Disconnect => Drained([], script[1..], Disconnected)
      case Other => Drain(script[1..], total, max)
      case Body(chunk, more) =>
        var size := total + |chunk|;
        if chunk != [] && size > max then Drained([], script[1..], TooLarge)
        else
          var own := if chunk == [] then [] else [chunk];
          if !more then Drained(own, script[1..], Complete)
          else
            var d := Drain(script[1..], size, max);
            d.(chunks := own + d.chunks)
  }

  // ---- What draining means -----------------------------------------------------------------

  predicate Ends(m: Message) {
    m.Disconnect? || (m.Body? && !m.more)
  }

  /** Position of the first disconnect or last body message, or the length of the script. */
  function EndOf(script: seq<Message>): (k: nat)
    ensures k <= |script|
    ensures k < |script| ==> Ends(script[k])
    ensures forall i :: 0 <= i < k ==> !Ends(script[i])
  {
    if script == [] then 0
    else if Ends(script[0]) then 0
    else 1 + EndOf(script[1..])
  }

  /** The bytes of the body as sent: those of every body message up to the end. */
  function Sent(script: seq<Message>): Bytes {
    if script == [] || script[0].Disconnect? then []
    else if script[0].Other? then Sent(script[1..])
    else script[0].chunk + if script[0].more then Sent(script[1..]) else []
  }

  lemma {:induction false} DrainEnds(script: seq<Message>, total: nat, max: nat)
    requires total <= max
    ensures var end := Drain(script, total, max).end;
      var k := EndOf(script);
      var fits := total + |Sent(script)| <= max;
      && (end.TooLarge? <==> !fits)
      && (end.Complete? <==> fits && k < |script| && script[k].Body?)
      && (end.Disconnected? <==> fits && k < |script| && script[k].Disconnect?)
      && (end.Starved? <==> fits && k == |script|)
  {
    if script != [] {
      match script[0]
      case Disconnect =>
      case Other => DrainEnds(script[1..], total, max);
      case Body(chunk, more) =>
        if more && total + |chunk| <= max {
          DrainEnds(script[1..], total + |chunk|, max);
        }
    }
  }

  lemma {:induction false} DrainYields(script: seq<Message>, total: nat, max: nat)
    ensures var d := Drain(script, total, max);
      d.end.Complete? ==>
        EndOf(script) < |script| && d.rest == script[EndOf(script) + 1..] && Concat(d.chunks) == Sent(script)
  {
    if script != [] {
      match script[0]
      case Disconnect =>
      case Other => DrainYields(script[1..], total, max);
      case Body(chunk, more) =>
        var d := Drain(script[1..], total + |chunk|, max);
        DrainYields(script[1..], total + |chunk|, max);
        ConcatFirst(chunk, d.chunks);
        ConcatFirst(chunk, []);
        hide Concat;
        assert chunk == [] ==> [] + d.chunks == d.chunks && chunk + Sent(script[1..]) == Sent(script[1..]);
    }
  }

  lemma ConcatFirst(c: Bytes, chunks: seq<Bytes>)
    ensures Concat([c] + chunks) == c + Concat(chunks)
  {
    assert ([c] + chunks)[1..] == chunks;
  }

  /** Draining completes exactly when the body is finished and everything sent fits the limit, and then
      yields what was sent and stops right after the last message; it is too large exactly when the
      bytes sent exceed the limit. */
  lemma DrainMeaning(script: seq<Message>, max: nat)
    ensures var d := Drain(script, 0, max);
      var k := EndOf(script);
      var fits := |Sent(script)| <= max;
      && (d.end.TooLarge? <==> !fits)
      && (d.end.Complete? <==> fits && k < |script| && script[k].Body?)
      && (d.end.Disconnected? <==> fits && k < |script| && script[k].Disconnect?)
      && (d.end.Starved? <==> fits && k == |script|)
      && (d.end.Complete? ==> Concat(d.chunks) == Sent(script) && d.rest == script[k + 1..])
  {
    DrainEnds(script, 0, max);
    DrainYields(script, 0, max);
  }

  // ---- Reading again after a rejection -----------------------------------------------------

  /** The body is finished by a last body message and fits the limit. */
  ghost predicate Readable(script: seq<Message>, max: nat) {
    EndOf(script) < |script| && script[EndOf(script)].Body? && |Sent(script)| <= max
  }

  function Own(m: Message): Bytes {
    if m.Body? then m.chunk else []
  }

  /** Position of the message that takes the running total over the limit. */
  function Overrun(script: seq<Message>, total: nat, max: nat): (k: nat)
    requires total <= max < total + |Sent(script)|
    ensures k < |script| && script[k].Body?
  {
    var size := total + |Own(script[0])|;
    if size > max then 0 else 1 + Overrun(script[1..], size, max)
  }

  /** The bytes of the first `k` messages. */
  function Upto(script: seq<Message>, k: nat): Bytes
    requires k <= |script|
  {
    if k == 0 then [] else Own(script[0]) + Upto(script[1..], k - 1)
  }

  lemma SentFirst(script: seq<Message>)
    requires script != []
    ensures Sent(script) == Own(script[0]) + if Ends(script[0]) then [] else Sent(script[1..])
  {
  }

  ghost predicate OpenUpto(script: seq<Message>, k: nat)
    requires k <= |script|
  {
    forall i :: 0 <= i < k ==> !Ends(script[i])
  }

  lemma DropBoth<T>(s: seq<T>, k: nat)
    requires k < |s|
    ensures s[1..][k..] == s[k + 1..]
  {
  }

  lemma Associates(a: Bytes, b: Bytes, c: Bytes)
    ensures (a + b) + c == a + (b + c)
  {
  }

  lemma UptoFirst(script: seq<Message>, k: nat)
    requires k < |script|
    ensures Upto(script, k + 1) == Own(script[0]) + Upto(script[1..], k)
    ensures Upto(script, 0) == []
  {
  }

  /** The body splits behind any message up to the last one. */
  lemma {:induction false} SentSplit(script: seq<Message>, k: nat)
    requires k < |script| && OpenUpto(script, k)
    ensures Sent(script) == Upto(script, k + 1) + if Ends(script[k]) then [] else Sent(script[k + 1..])
    decreases k
  {
    hide Sent, Own, Ends, Upto;
    SentFirst(script);
    UptoFirst(script, k);
    if k == 0 {
      UptoNone(script[1..]);
    } else {
      SentSplit(script[1..], k - 1);
      var rest := if Ends(script[k]) then [] else Sent(script[k + 1..]);
      DropBoth(script, k);
      Associates(Own(script[0]), Upto(script[1..], k), rest);
    }
  }

  lemma OverrunFirst(script: seq<Message>, total: nat, max: nat)
    requires total <= max < total + |Sent(script)|
    ensures script != []
    ensures var size := total + |Own(script[0])|;
      if size > max then Overrun(script, total, max) == 0
      else
        && !Ends(script[0]) && max < size + |Sent(script[1..])|
        && Overrun(script, total, max) == 1 + Overrun(script[1..], size, max)
  {
    SentFirst(script);
  }

  /** It is the first position at which the bytes sent so far exceed the limit. */
  lemma {:induction false} OverrunIsFirst(script: seq<Message>, total: nat, max: nat)
    requires total <= max < total + |Sent(script)|
    ensures var k := Overrun(script, total, max);
      OpenUpto(script, k) && total + |Upto(script, k)| <= max < total + |Upto(script, k + 1)|
  {
    hide Sent, Own, Upto, Ends, Overrun;
    OverrunFirst(script, total, max);
    var size := total + |Own(script[0])|;
    var k := Overrun(script, total, max);
    UptoFirst(script, k);
    if size <= max {
      OverrunIsFirst(script[1..], size, max);
      UptoFirst(script, k - 1);
    } else {
      UptoNone(script[1..]);
    }
  }

  lemma UptoNone(script: seq<Message>)
    ensures Upto(script, 0) == []
  {
  }

  lemma DrainFirst(script: seq<Message>, total: nat, max: nat)
    requires script != [] && total <= max && (total + |Own(script[0])| > max || !Ends(script[0]))
    ensures var size := total + |Own(script[0])|;
      Drain(script, total, max).rest == if size > max then script[1..] else Drain(script[1..], size, max).rest
  {
  }

  /** Draining stops right behind it. */
  lemma {:induction false} OverrunStops(script: seq<Message>, total: nat, max: nat)
    requires total <= max < total + |Sent(script)|
    ensures Drain(script, total, max).rest == script[Overrun(script, total, max) + 1..]
  {
    hide Overrun, Sent, Drain, Own, Ends;
    OverrunFirst(script, total, max);
    DrainFirst(script, total, max);
    var size := total + |Own(script[0])|;
    if size <= max {
      OverrunStops(script[1..], size, max);
      DropBoth(script, Overrun(script[1..], size, max) + 1);
    }
  }

  /** The non-empty chunks of the first `k` messages, one by one. */
  function Pieces(script: seq<Message>, k: nat): seq<Bytes>
    requires k <= |script|
  {
    if k == 0 then []
    else (if Own(script[0]) == [] then [] else [Own(script[0])]) + Pieces(script[1..], k - 1)
  }

  /** How many messages a drain takes its chunks from: those before the offending one, or all up to the
      end of the body. */
  function Taken(script: seq<Message>, total: nat, max: nat): (k: nat)
    requires total <= max
    ensures k <= |script|
  {
    if total + |Sent(script)| > max then Overrun(script, total, max)
    else if EndOf(script) < |script| then EndOf(script) + 1
    else |script|
  }

  lemma TakenFirst(script: seq<Message>, total: nat, max: nat)
    requires script != [] && total <= max
    ensures var size := total + |Own(script[0])|;
      Taken(script, total, max) ==
      if size > max then 0 else if Ends(script[0]) then 1 else 1 + Taken(script[1..], size, max)
  {
    SentFirst(script);
    if total + |Sent(script)| > max {
      OverrunFirst(script, total, max);
    }
    hide Sent;
  }

  /** Whatever the ending, a drain yields exactly the non-empty chunks received, each by itself and in
      order, up to the end of the body or to the message that goes over the limit. */
  lemma {:induction false} DrainChunks(script: seq<Message>, total: nat, max: nat)
    requires total <= max
    ensures Drain(script, total, max).chunks == Pieces(script, Taken(script, total, max))
  {
    if script != [] {
      TakenFirst(script, total, max);
      var size := total + |Own(script[0])|;
      hide Taken;
      if size <= max && !Ends(script[0]) {
        DrainChunks(script[1..], size, max);
      }
      assert Pieces(script[1..], 0) == [];
    }
  }

  /** After a rejection the stream continues behind the offending message with the count reset, so the
      limit holds per attempt: the retry succeeds exactly when what follows that message is itself a
      readable body, and then returns just this tail. */
  lemma RetryReturnsTail(script: seq<Message>, max: nat)
    requires |Sent(script)| > max
    ensures var k := Overrun(script, 0, max);
      var tail := script[k + 1..];
      var first := Drain(script, 0, max);
      var again := Drain(first.rest, 0, max);
      && |Upto(script, k)| <= max < |Upto(script, k + 1)|
      && Sent(script) == Upto(script, k + 1) + (if !Ends(script[k]) then Sent(tail) else [])
      && first.end.TooLarge? && first.rest == tail
      && (again.end.Complete? <==> Readable(tail, max))
      && (again.end.Complete? ==> Concat(again.chunks) == Sent(tail))
  {
    hide Drain, EndOf, Sent, Overrun, Concat, Upto, Ends;
    var k := Overrun(script, 0, max);
    OverrunIsFirst(script, 0, max);
    SentSplit(script, k);
    OverrunStops(script, 0, max);
    DrainMeaning(script, max);
    DrainMeaning(script[k + 1..], max);
  }

  /** A body of two messages whose first one is too large: the retry returns the second. */
  lemma OversizedBodyByRetry(a: Bytes, b: Bytes, max: nat)
    requires |a| > max && |b| <= max
    ensures var script := [Body(a, true), Body(b, false)];
      var first := Drain(script, 0, max);
      first.end.TooLarge? && Drain(first.rest, 0, max).end.Complete? && Sent(first.rest) == b && |Sent(script)| > max
  {
  }

  // ---- Replaying the cache -----------------------------------------------------------------

  /** `body[i : i + size]` for `i` in `range(0, len(body), size)`. */
  function Slices(body: Bytes, size: nat): seq<Bytes>
    requires size > 0
    decreases |body|
  {
    if body == [] then []
    else if |body| <= size then [body]
    else [body[..size]] + Slices(body[size..], size)
  }

  lemma SlicesFrom(data: Bytes, i: nat, size: nat)
    requires size > 0 && i < |data|
    ensures Slices(data[i..], size) ==
            if i + size < |data| then [data[i..i + size]] + Slices(data[i + size..], size)
            else [data[i..|data|]] + []
  {
    assert data[i..|data|] == data[i..];
    if i + size < |data| {
      assert data[i..][..size] == data[i..i + size] && data[i..][size..] == data[i + size..];
    }
  }

  lemma SlicesOfEmpty(data: Bytes, size: nat)
    requires size > 0
    ensures data == [] ==> Slices(data, size) == []
    ensures data[0..] == data
  {
  }

  lemma {:induction false} SlicesRejoin(body: Bytes, size: nat)
    requires size > 0
    ensures Concat(Slices(body, size)) == body
    ensures var s := Slices(body, size);
      forall i :: 0 <= i < |s| ==> (if i < |s| - 1 then |s[i]| == size else 0 < |s[i]| <= size)
    decreases |body|
  {
    if |body| > size {
      SlicesRejoin(body[size..], size);
      var rest := Slices(body[size..], size);
      assert ([body[..size]] + rest)[1..] == rest;
      assert body == body[..size] + body[size..];
      assert rest != [];
    } else if body != [] {
      assert Concat([body]) == body + Concat([body][1..]);
    }
  }

  /** What is drained after these chunks. */
  function Behind(chunks: seq<Bytes>, d: Drained): Drained {
    d.(chunks := chunks + d.chunks)
  }

  lemma BehindNothing(d: Drained)
    ensures Behind([], d) == d
  {
    assert [] + d.chunks == d.chunks;
  }

  lemma DrainNothing(chunks: seq<Bytes>, total: nat, max: nat)
    ensures Behind(chunks, Drain([], total, max)) == Drained(chunks, [], Starved)
  {
    assert chunks + [] == chunks;
  }

  lemma DrainNext(chunks: seq<Bytes>, script: seq<Message>, total: nat, max: nat)
    requires script != []
    ensures Behind(chunks, Drain(script, total, max)) ==
            match script[0]
            case Disconnect => Drained(chunks, script[1..], Disconnected)
            case Other => Behind(chunks, Drain(script[1..], total, max))
            case Body(chunk, more) =>
              if chunk != [] && total + |chunk| > max then Drained(chunks, script[1..], TooLarge)
              else
                var got := if chunk == [] then chunks else chunks + [chunk];
                if more then Behind(got, Drain(script[1..], total + |chunk|, max))
                else Drained(got, script[1..], Complete)
  {
    assert chunks + [] == chunks;
    if script[0].Body? {
      var chunk := script[0].chunk;
      var later := Drain(script[1..], total + |chunk|, max).chunks;
      assert chunks + ([chunk] + later) == (chunks + [chunk]) + later;
      assert chunks + ([] + later) == chunks + later;
    }
  }

  // ---- The request object ------------------------------------------------------------------

  datatype Reading = Bytes(data: Bytes) | Failed(why: Ending)

  class Request {
    const maxBodySize: nat
    const chunkSize: int
    var incoming: seq<Message>
    var body: Option<Bytes>
    var bodyConsumed: bool
    var disconnected: bool

    constructor (maxBodySize: nat, chunkSize: int, incoming: seq<Message>)
      ensures this.maxBodySize == maxBodySize && this.chunkSize == chunkSize && this.incoming == incoming
      ensures body == None && !bodyConsumed && !disconnected
    {
      this.maxBodySize, this.chunkSize, this.incoming := maxBodySize, chunkSize, incoming;
      body, bodyConsumed, disconnected := None, false, false;
    }

    /** The stream drained to its end or first exception. A zero size means the default. A cached body
        is sliced without receiving anything (a negative step yields nothing); a stream drained before
        without caching yields nothing more. */
    method IterBytes(size: int) returns (chunks: seq<Bytes>, end: Ending)
      modifies this
      ensures body == old(body)
      ensures var step := if size != 0 then size else chunkSize;
        if old(body).Some? then
          && incoming == old(incoming) && bodyConsumed == old(bodyConsumed) && disconnected == old(disconnected)
          && (step == 0 ==> end == BadStep)
          && (step < 0 ==> end == Complete && chunks == [])
          && (step > 0 ==> end == Complete && chunks == Slices(old(body).value, step))
        else if old(bodyConsumed) then
          && incoming == old(incoming) && bodyConsumed && disconnected == old(disconnected)
          && chunks == [] && end == Complete
        else
          && Drained(chunks, incoming, end) == Drain(old(incoming), 0, maxBodySize)
          && bodyConsumed == end.Complete?
          && disconnected == (old(disconnected) || end.Disconnected?)
    {
      var step := if size != 0 then size else chunkSize;
      if body.Some? {
        if step == 0 {
          return [], BadStep;
        }
        chunks := SliceCache(body.value, step);
        return chunks, Complete;
      }
      if bodyConsumed {
        return [], Complete;
      }
      chunks, end := Receive();
    }

    static method SliceCache(data: Bytes, step: int) returns (chunks: seq<Bytes>)
      requires step != 0
      ensures chunks == if step > 0 then Slices(data, step) else []
    {
      chunks := [];
      if step < 0 {
        return;
      }
      SlicesOfEmpty(data, step);
      hide Slices;
      var i := 0;
      while i < |data|
        invariant 0 <= i
        invariant chunks + (if i < |data| then Slices(data[i..], step) else []) == Slices(data, step)
      {
        var stop := if i + step < |data| then i + step else |data|;
        SlicesFrom(data, i, step);
        var rest := if i + step < |data| then Slices(data[i + step..], step) else [];
        assert chunks + ([data[i..stop]] + rest) == (chunks + [data[i..stop]]) + rest;
        chunks := chunks + [data[i..stop]];
        i := i + step;
      }
    }

    method Receive() returns (chunks: seq<Bytes>, end: Ending)
      requires !bodyConsumed
      modifies this
      ensures body == old(body)
      ensures Drained(chunks, incoming, end) == Drain(old(incoming), 0, maxBodySize)
      ensures bodyConsumed == end.Complete?
      ensures disconnected == (old(disconnected) || end.Disconnected?)
    {
      hide Drain;
      chunks := [];
      var total: nat := 0;
      BehindNothing(Drain(incoming, 0, maxBodySize));
      while incoming != []
        invariant body == old(body) && !bodyConsumed && disconnected == old(disconnected)
        invariant Behind(chunks, Drain(incoming, total, maxBodySize)) == Drain(old(incoming), 0, maxBodySize)
        decreases |incoming|
      {
        DrainNext(chunks, incoming, total, maxBodySize);
        var message := incoming[0];
        incoming := incoming[1..];
        match message {
          case Disconnect =>
            disconnected := true;
            return chunks, Disconnected;
          case Other =>
          case Body(chunk, more) =>
            if chunk != [] {
              total := total + |chunk|;
              if total > maxBodySize {
                return chunks, TooLarge;
              }
              chunks := chunks + [chunk];
            }
            if !more {
              bodyConsumed := true;
              return chunks, Complete;
            }
        }
      }
      DrainNothing(chunks, total, maxBodySize);
      return chunks, Starved;
    }

    /** What `body` returns from here: the cache, nothing after an uncached drain, or the stream. */
    ghost function NextBody(): Reading
      reads this
    {
      if body.Some? then Bytes(body.value)
      else if bodyConsumed then Bytes([])
      else
        var end := Drain(incoming, 0, maxBodySize).end;
        if end.Complete? then Bytes(Sent(incoming)) else Failed(end)
    }

    method ReadBody() returns (r: Reading)
      modifies this
      ensures r == old(NextBody())
      ensures r.Bytes? ==> body == Some(r.data)
      ensures r.Failed? ==> body == None && !bodyConsumed
      ensures old(body).None? && !old(bodyConsumed) ==> incoming == Drain(old(incoming), 0, maxBodySize).rest
      ensures old(body).Some? ==> unchanged(this)
    {
      if body.Some? {
        return Bytes(body.value);
      }
      DrainMeaning(incoming, maxBodySize);
      var chunks, end := IterBytes(0);
      if !end.Complete? {
        return Failed(end);
      }
      body := Some(Concat(chunks));
      return Bytes(Concat(chunks));
    }

    /** A first read succeeds exactly when the body is finished and fits; then it returns everything sent,
        and reading or slicing again gives the same bytes without receiving. */
    method ReadTwice(size: int) returns (first: Reading, again: Reading, chunks: seq<Bytes>)
      requires body == None && !bodyConsumed && (size > 0 || (size == 0 && chunkSize > 0))
      modifies this
      ensures first.Bytes? <==> old(Readable(incoming, maxBodySize))
      ensures first.Bytes? ==>
        && first.data == old(Sent(incoming)) && again == first && Concat(chunks) == first.data
        && incoming == old(incoming[EndOf(incoming) + 1..])
    {
      DrainMeaning(incoming, maxBodySize);
      first := ReadBody();
      again, chunks := first, [];
      if first.Bytes? {
        again := ReadBody();
        var end;
        chunks, end := IterBytes(size);
        SlicesRejoin(first.data, if size != 0 then size else chunkSize);
      }
    }

    /** A body that is too large is refused; reading again succeeds exactly when what follows the message
        that went over the limit is a readable body, and returns that. */
    method ReadAfterOverrun() returns (first: Reading, again: Reading)
      requires body == None && !bodyConsumed && |Sent(incoming)| > maxBodySize
      modifies this
      ensures first == Failed(TooLarge)
      ensures var tail := old(incoming[Overrun(incoming, 0, maxBodySize) + 1..]);
        && (again.Bytes? <==> Readable(tail, maxBodySize))
        && (again.Bytes? ==> again.data == Sent(tail) && body == Some(again.data))
    {
      RetryReturnsTail(incoming, maxBodySize);
      hide Drain, Overrun;
      first := ReadBody();
      DrainMeaning(incoming, maxBodySize);
      again := ReadBody();
    }
  }
}
