/** The iterative nesting check `Request._check_json_depth` and the cached `Request.json` around it
    (aquilia/request.py). */
module JsonDepth {

  /** A decoded JSON value; an object is its keys and its values, in order. */
  datatype Json = Scalar | Array(items: seq<Json>) | Object(keys: seq<string>, values: seq<Json>) {

    predicate IsContainer() {
      !Scalar?
    }

    /** The values directly inside. */
    function Children(): seq<Json> {
      match this
      case Scalar => []
      case Array(items) => items
      case Object(_, values) => values
    }
  }

  /** How deep containers nest: 0 for a scalar, 1 for a container of scalars. */
  function Height(v: Json): nat
    decreases v
  {
    match v
    case Scalar => 0
    case Array(items) => 1 + Tallest(items)
    case Object(_, values) => 1 + Tallest(values)
  }

  function Tallest(among: seq<Json>): nat
    decreases among
  {
    if among == [] then 0
    else
      var first, rest := Height(among[0]), Tallest(among[1..]);
      if first > rest then first else rest
  }

  /** The number of containers, this one included. */
  function Size(v: Json): nat
    decreases v
  {
    match v
    case Scalar => 0
    case Array(items) => 1 + SizeOf(items)
    case Object(_, values) => 1 + SizeOf(values)
  }

  function SizeOf(among: seq<Json>): nat
    decreases among
  {
    if among == [] then 0 else Size(among[0]) + SizeOf(among[1..])
  }

  /** The recursive definition: every container lies at a depth of at most `max`. */
  predicate Within(v: Json, depth: int, max: int)
    decreases v
  {
    match v
    case Scalar => true
    case Array(items) => depth <= max && AllIn(items, depth + 1, max)
    case Object(_, values) => depth <= max && AllIn(values, depth + 1, max)
  }

  predicate AllIn(among: seq<Json>, depth: int, max: int)
    decreases among
  {
    among == [] || (Within(among[0], depth, max) && AllIn(among[1..], depth, max))
  }

  /** A value is within the limit exactly when it is a scalar or its nesting height, counted from the
      start depth, does not exceed the limit. */
  lemma {:induction false} WithinIffHeight(v: Json, depth: int, max: int)
    ensures Within(v, depth, max) <==> v.Scalar? || depth + Height(v) - 1 <= max
    decreases v
  {
    match v
    case Scalar =>
    case Array(items) => AllInIffTallest(items, depth + 1, max);
    case Object(_, values) => AllInIffTallest(values, depth + 1, max);
  }

  lemma {:induction false} AllInIffTallest(among: seq<Json>, depth: int, max: int)
    ensures AllIn(among, depth, max) <==> Tallest(among) == 0 || depth + Tallest(among) - 1 <= max
    decreases among
  {
    if among != [] {
      WithinIffHeight(among[0], depth, max);
      AllInIffTallest(among[1..], depth, max);
    }
  }

  lemma {:induction false} AllInAt(among: seq<Json>, depth: int, max: int)
    ensures AllIn(among, depth, max) <==> forall i :: 0 <= i < |among| ==> Within(among[i], depth, max)
    decreases |among|
  {
    if among != [] {
      AllInAt(among[1..], depth, max);
      assert forall i :: 0 < i < |among| ==> among[i] == among[1..][i - 1];
    }
  }

  // ---- The explicit stack ------------------------------------------------------------------

  datatype Frame = Frame(node: Json, depth: int)

  /** Containers still to be looked into, counted once per stack entry. */
  ghost function Work(stack: seq<Frame>): nat {
    if stack == [] then 0 else Work(stack[..|stack| - 1]) + Size(stack[|stack| - 1].node)
  }

  ghost predicate AllWithin(stack: seq<Frame>, max: int) {
    forall i :: 0 <= i < |stack| ==> Within(stack[i].node, stack[i].depth, max)
  }

  lemma {:induction false} SizeOfAppend(a: seq<Json>, c: Json)
    ensures SizeOf(a + [c]) == SizeOf(a) + Size(c)
    decreases |a|
  {
    if a == [] {
      assert a + [c] == [c];
    } else {
      assert (a + [c])[1..] == a[1..] + [c];
      SizeOfAppend(a[1..], c);
    }
  }

  lemma PushWork(stack: seq<Frame>, f: Frame)
    ensures Work(stack + [f]) == Work(stack) + Size(f.node)
  {
    assert (stack + [f])[..|stack|] == stack;
  }

  lemma PushWithin(stack: seq<Frame>, f: Frame, max: int)
    ensures AllWithin(stack + [f], max) <==> AllWithin(stack, max) && Within(f.node, f.depth, max)
  {
    assert (stack + [f])[|stack|] == f;
    assert forall i :: 0 <= i < |stack| ==> (stack + [f])[i] == stack[i];
  }

  /** Pushes the containers directly inside `node`. */
  method PushChildren(below: seq<Frame>, node: Json, childDepth: int, max: int) returns (stack: seq<Frame>)
    requires forall i :: 0 <= i < |below| ==> below[i].node.IsContainer()
    ensures forall i :: 0 <= i < |stack| ==> stack[i].node.IsContainer()
    ensures AllWithin(stack, max) <==> AllWithin(below, max) && AllIn(node.Children(), childDepth, max)
    ensures Work(stack) == Work(below) + SizeOf(node.Children())
  {
    hide Work;
    stack := below;
    var values := node.Children();
    for i := 0 to |values|
      invariant forall j :: 0 <= j < |stack| ==> stack[j].node.IsContainer()
      invariant AllWithin(stack, max) <==>
        AllWithin(below, max) && forall j :: 0 <= j < i ==> Within(values[j], childDepth, max)
      invariant Work(stack) == Work(below) + SizeOf(values[..i])
    {
      assert values[..i + 1] == values[..i] + [values[i]];
      SizeOfAppend(values[..i], values[i]);
      if values[i].IsContainer() {
        PushWork(stack, Frame(values[i], childDepth));
        PushWithin(stack, Frame(values[i], childDepth), max);
        stack := stack + [Frame(values[i], childDepth)];
      }
    }
    assert values[..|values|] == values;
    AllInAt(values, childDepth, max);
  }

  method AnyContainer(values: seq<Json>) returns (found: bool)
    ensures found <==> exists i :: 0 <= i < |values| && values[i].IsContainer()
  {
    for i := 0 to |values|
      invariant forall j :: 0 <= j < i ==> !values[j].IsContainer()
    {
      if values[i].IsContainer() {
        return true;
      }
    }
    return false;
  }

  lemma LastLayer(node: Json, depth: int, max: int)
    requires node.IsContainer() && depth == max
    ensures Within(node, depth, max) <==> forall i :: 0 <= i < |node.Children()| ==> !node.Children()[i].IsContainer()
  {
    AllInAt(node.Children(), depth + 1, max);
  }

  /** The stack version with its last-layer short cut decides `Within`, hence the height bound, and
      terminates: each round removes one container from the remaining work. */
  method CheckJsonDepth(obj: Json, maxDepth: int, currentDepth: int) returns (ok: bool)
    ensures ok <==> Within(obj, currentDepth, maxDepth)
    ensures ok <==> obj.Scalar? || currentDepth + Height(obj) - 1 <= maxDepth
  {
    WithinIffHeight(obj, currentDepth, maxDepth);
    if !obj.IsContainer() {
      return true;
    }
    if currentDepth > maxDepth {
      return false;
    }
    var stack := [Frame(obj, currentDepth)];
    while stack != []
      invariant forall i :: 0 <= i < |stack| ==> stack[i].node.IsContainer()
      invariant Within(obj, currentDepth, maxDepth) <==> AllWithin(stack, maxDepth)
      decreases Work(stack)
    {
      var top := stack[|stack| - 1];
      var below := stack[..|stack| - 1];
      assert AllWithin(stack, maxDepth) <==> AllWithin(below, maxDepth) && Within(top.node, top.depth, maxDepth);
      if top.depth > maxDepth {
        return false;
      }
      if top.depth + 1 > maxDepth {
        LastLayer(top.node, top.depth, maxDepth);
        var found := AnyContainer(top.node.Children());
        if found {
          return false;
        }
        stack := below;
      } else {
        stack := PushChildren(below, top.node, top.depth + 1, maxDepth);
      }
    }
    return true;
  }

  // ---- The cached parse --------------------------------------------------------------------

  datatype Parsed = Value(json: Json) | TooLarge | Malformed | TooDeep

  /** A request whose body has been read. `decoded` is what the JSON codec makes of the body; a body of
      `null` is not cached in the source, which shows nowhere in the results. */
  class JsonBody {
    const size: nat
    const decoded: Decoded
    const maxSize: int
    const maxDepth: int
    var cache: Decoded

    constructor (size: nat, decoded: Decoded, maxSize: int, maxDepth: int)
      ensures this.size == size && this.decoded == decoded && this.maxSize == maxSize && this.maxDepth == maxDepth
      ensures cache == NotJson
    {
      this.size, this.decoded, this.maxSize, this.maxDepth := size, decoded, maxSize, maxDepth;
      cache := NotJson;
    }

    method GetJson() returns (r: Parsed)
      modifies this
      ensures old(cache).Json? ==> r == Value(old(cache).json) && cache == old(cache)
      ensures old(cache).NotJson? && size > maxSize ==> r == TooLarge && cache == NotJson
      ensures old(cache).NotJson? && size <= maxSize ==>
        cache == decoded &&
        match decoded
        case NotJson => r == Malformed
        case Json(v) => r == if v.IsContainer() && Height(v) > maxDepth + 1 then TooDeep else Value(v)
    {
      if cache.Json? {
        return Value(cache.json);
      }
      if size > maxSize {
        return TooLarge;
      }
      if decoded.NotJson? {
        return Malformed;
      }
      cache := decoded;
      var ok := CheckJsonDepth(decoded.json, maxDepth, 0);
      return if ok then Value(decoded.json) else TooDeep;
    }

    /** The depth limit holds for the first call only: a value refused for its depth is cached all the
        same, and every repetition returns it. The other results repeat unchanged. */
    method GetTwice() returns (first: Parsed, again: Parsed)
      requires cache == NotJson
      modifies this
      ensures first == TooDeep <==>
        size <= maxSize && decoded.Json? && decoded.json.IsContainer() && Height(decoded.json) > maxDepth + 1
      ensures again == if first == TooDeep then Value(decoded.json) else first
    {
      first := GetJson();
      again := GetJson();
    }
  }

  datatype Decoded = NotJson | Json(json: Json)
}
