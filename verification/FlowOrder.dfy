/** Flow nodes and their execution order (`FlowNode`, `FlowPipeline._sort_nodes` and `compose` of
    aquilia/flow.py). */
module FlowOrder {
  import opened Common

  datatype NodeKind = Middleware | Guard | Transform | Effect | Handler | Hook

  /** `callable` identifies the wrapped callable and its condition, which the name need not determine.
      `effects` are the node's own effect names, `declared` those attached to its callable. */
  datatype Node = Node(kind: NodeKind, callable: nat, name: string, priority: int, effects: seq<string>,
                       declared: seq<string>)

  /** The sort key: type band, then priority. */
  datatype Key = Key(band: nat, priority: int) {
    predicate Below(other: Key) {
      band < other.band || (band == other.band && priority < other.priority)
    }

    predicate AtMost(other: Key) {
      this == other || Below(other)
    }
  }

  function Band(kind: NodeKind): nat {
    match kind
    case Middleware => 0
    case Guard => 1
    case Transform => 2
    case Effect => 3
    case Handler => 4
    case Hook => 5
  }

  function KeyOf(n: Node): Key {
    Key(Band(n.kind), n.priority)
  }

  ghost predicate Sorted(nodes: seq<Node>) {
    forall i, j :: 0 <= i < j < |nodes| ==> KeyOf(nodes[i]).AtMost(KeyOf(nodes[j]))
  }

  /** The nodes of one key, in their own order. */
  function WithKey(nodes: seq<Node>, k: Key): seq<Node> {
    if nodes == [] then []
    else (if KeyOf(nodes[0]) == k then [nodes[0]] else []) + WithKey(nodes[1..], k)
  }

  /** Nodes sharing a key keep their relative order. */
  ghost predicate StableCopy(a: seq<Node>, b: seq<Node>) {
    forall k :: WithKey(a, k) == WithKey(b, k)
  }

  function Insert(n: Node, nodes: seq<Node>): seq<Node> {
    if nodes == [] || KeyOf(n).AtMost(KeyOf(nodes[0])) then [n] + nodes
    else [nodes[0]] + Insert(n, nodes[1..])
  }

  /** Python's `sorted` by key, as a stable insertion sort. */
  function SortNodes(nodes: seq<Node>): seq<Node> {
    if nodes == [] then [] else Insert(nodes[0], SortNodes(nodes[1..]))
  }

  // ---- The sort is the stable sort ---------------------------------------------------------

  lemma WithKeyConcat(a: seq<Node>, b: seq<Node>, k: Key)
    ensures WithKey(a + b, k) == WithKey(a, k) + WithKey(b, k)
  {
    if a == [] {
      assert a + b == b;
    } else {
      assert (a + b)[1..] == a[1..] + b;
      WithKeyConcat(a[1..], b, k);
    }
  }

  lemma {:induction false} WithKeyMember(nodes: seq<Node>, k: Key, n: Node)
    ensures n in WithKey(nodes, k) <==> n in nodes && KeyOf(n) == k
    ensures multiset(WithKey(nodes, k))[n] == if KeyOf(n) == k then multiset(nodes)[n] else 0
  {
    if nodes != [] {
      assert nodes == [nodes[0]] + nodes[1..];
      WithKeyMember(nodes[1..], k, n);
    }
  }

  lemma {:induction false} InsertSorts(n: Node, nodes: seq<Node>)
    requires Sorted(nodes)
    ensures Sorted(Insert(n, nodes))
    ensures forall x :: x in Insert(n, nodes) <==> x == n || x in nodes
  {
    if nodes != [] && !KeyOf(n).AtMost(KeyOf(nodes[0])) {
      var rest := Insert(n, nodes[1..]);
      InsertSorts(n, nodes[1..]);
      assert forall i :: 0 <= i < |rest| ==> rest[i] in rest;
      assert forall x :: x in nodes <==> x == nodes[0] || x in nodes[1..];
      assert forall x :: x in nodes[1..] ==> KeyOf(nodes[0]).AtMost(KeyOf(x));
    }
  }

  lemma {:induction false} InsertIsStable(n: Node, nodes: seq<Node>, k: Key)
    requires Sorted(nodes)
    ensures WithKey(Insert(n, nodes), k) == WithKey([n], k) + WithKey(nodes, k)
  {
    if nodes == [] || KeyOf(n).AtMost(KeyOf(nodes[0])) {
      WithKeyConcat([n], nodes, k);
    } else {
      InsertIsStable(n, nodes[1..], k);
      WithKeyConcat([nodes[0]], Insert(n, nodes[1..]), k);
    }
  }

  lemma {:induction false} SortSorts(nodes: seq<Node>)
    ensures Sorted(SortNodes(nodes))
  {
    if nodes != [] {
      SortSorts(nodes[1..]);
      InsertSorts(nodes[0], SortNodes(nodes[1..]));
    }
  }

  lemma {:induction false} SortKeepsKey(nodes: seq<Node>, k: Key)
    ensures WithKey(SortNodes(nodes), k) == WithKey(nodes, k)
  {
    if nodes != [] {
      SortKeepsKey(nodes[1..], k);
      SortSorts(nodes[1..]);
      InsertIsStable(nodes[0], SortNodes(nodes[1..]), k);
    }
  }

  /** `_sort_nodes` sorts by key and keeps insertion order within a key. */
  lemma SortIsStable(nodes: seq<Node>)
    ensures Sorted(SortNodes(nodes))
    ensures StableCopy(SortNodes(nodes), nodes)
  {
    SortSorts(nodes);
    hide SortNodes;
    forall k
      ensures WithKey(SortNodes(nodes), k) == WithKey(nodes, k)
    {
      SortKeepsKey(nodes, k);
    }
  }

  /** A stable copy is in particular a permutation. */
  lemma StableCopyIsPermutation(a: seq<Node>, b: seq<Node>)
    requires StableCopy(a, b)
    ensures multiset(a) == multiset(b)
  {
    forall n: Node
      ensures multiset(a)[n] == multiset(b)[n]
    {
      WithKeyMember(a, KeyOf(n), n);
      WithKeyMember(b, KeyOf(n), n);
    }
  }

  /** The order of the phases. */
  ghost predicate RunsBefore(a: NodeKind, b: NodeKind) {
    match a
    case Middleware => !b.Middleware?
    case Guard => b.Transform? || b.Effect? || b.Handler? || b.Hook?
    case Transform => b.Effect? || b.Handler? || b.Hook?
    case Effect => b.Handler? || b.Hook?
    case Handler => b.Hook?
    case Hook => false
  }

  function Alike(nodes: seq<Node>, kind: NodeKind, priority: int): seq<Node> {
    if nodes == [] then []
    else
      var rest := Alike(nodes[1..], kind, priority);
      if nodes[0].kind == kind && nodes[0].priority == priority then [nodes[0]] + rest else rest
  }

  lemma {:induction false} AlikeIsWithKey(nodes: seq<Node>, kind: NodeKind, priority: int)
    ensures Alike(nodes, kind, priority) == WithKey(nodes, Key(Band(kind), priority))
  {
    if nodes != [] {
      AlikeIsWithKey(nodes[1..], kind, priority);
    }
  }

  /** What the order means: middleware, guards, transforms, effects, handlers, hooks; among nodes of one
      kind the lower priority number first; among equals the one inserted first; and no node lost or
      added. */
  lemma SortOrder(nodes: seq<Node>)
    ensures var r := SortNodes(nodes);
      && (forall i, j :: 0 <= i < j < |r| ==>
            RunsBefore(r[i].kind, r[j].kind) || (r[i].kind == r[j].kind && r[i].priority <= r[j].priority))
      && (forall kind, priority :: Alike(r, kind, priority) == Alike(nodes, kind, priority))
      && multiset(r) == multiset(nodes)
  {
    var r := SortNodes(nodes);
    SortIsStable(nodes);
    StableCopyIsPermutation(r, nodes);
    hide SortNodes, WithKey;
    forall i, j | 0 <= i < j < |r|
      ensures RunsBefore(r[i].kind, r[j].kind) || (r[i].kind == r[j].kind && r[i].priority <= r[j].priority)
    {
      assert KeyOf(r[i]).AtMost(KeyOf(r[j]));
    }
    forall kind, priority
      ensures Alike(r, kind, priority) == Alike(nodes, kind, priority)
    {
      AlikeIsWithKey(r, kind, priority);
      AlikeIsWithKey(nodes, kind, priority);
    }
  }

  lemma HeadsAgree(a: seq<Node>, b: seq<Node>)
    requires Sorted(a) && Sorted(b) && StableCopy(a, b) && a != []
    ensures b != [] && a[0] == b[0] && StableCopy(a[1..], b[1..])
  {
    var k := KeyOf(a[0]);
    WithKeyMember(a, k, a[0]);
    WithKeyMember(b, k, a[0]);
    WithKeyMember(b, KeyOf(b[0]), b[0]);
    WithKeyMember(a, KeyOf(b[0]), b[0]);
    assert KeyOf(b[0]) == k;
    assert WithKey(a, k)[0] == a[0] && WithKey(b, k)[0] == b[0];
    forall q
      ensures WithKey(a[1..], q) == WithKey(b[1..], q)
    {
      assert WithKey(a, q) == WithKey(b, q);
      assert q != k ==> WithKey(a, q) == WithKey(a[1..], q) && WithKey(b, q) == WithKey(b[1..], q);
      assert WithKey(a, k) == [a[0]] + WithKey(a[1..], k) && WithKey(b, k) == [b[0]] + WithKey(b[1..], k);
      assert WithKey(a, k)[1..] == WithKey(a[1..], k) && WithKey(b, k)[1..] == WithKey(b[1..], k);
    }
  }

  /** There is only one sorted stable copy: any stable sort by this key computes `SortNodes`. */
  lemma {:induction false} StableSortIsUnique(a: seq<Node>, b: seq<Node>)
    requires Sorted(a) && Sorted(b) && StableCopy(a, b)
    ensures a == b
    decreases |a| + |b|
  {
    if a != [] {
      HeadsAgree(a, b);
      StableSortIsUnique(a[1..], b[1..]);
      assert a == [a[0]] + a[1..] && b == [b[0]] + b[1..];
    } else if b != [] {
      HeadsAgree(b, a);
    }
  }

  // ---- Composition -------------------------------------------------------------------------

  ghost predicate Commute(p: seq<Node>, q: seq<Node>, k: Key) {
    WithKey(p, k) + WithKey(q, k) == WithKey(q, k) + WithKey(p, k)
  }

  /** `p | q` and `q | p` call the same callables in the same order exactly when, key by key, their nodes
      commute. */
  lemma SwapSortsSameIff(p: seq<Node>, q: seq<Node>)
    ensures SortNodes(p + q) == SortNodes(q + p) <==>
            forall k :: Commute(p, q, k)
  {
    SortIsStable(p + q);
    SortIsStable(q + p);
    hide SortNodes;
    forall k
      ensures WithKey(SortNodes(p + q), k) == WithKey(p, k) + WithKey(q, k)
      ensures WithKey(SortNodes(q + p), k) == WithKey(q, k) + WithKey(p, k)
    {
      WithKeyConcat(p, q, k);
      WithKeyConcat(q, p, k);
    }
    if forall k :: Commute(p, q, k) {
      forall k
        ensures WithKey(SortNodes(p + q), k) == WithKey(SortNodes(q + p), k)
      {
        assert Commute(p, q, k);
      }
      StableSortIsUnique(SortNodes(p + q), SortNodes(q + p));
    }
    if SortNodes(p + q) == SortNodes(q + p) {
      forall k
        ensures Commute(p, q, k)
      {
        assert WithKey(SortNodes(p + q), k) == WithKey(SortNodes(q + p), k);
      }
    }
  }

  lemma KeyWithoutTie(p: seq<Node>, q: seq<Node>, k: Key)
    requires forall i, j :: 0 <= i < |p| && 0 <= j < |q| ==> KeyOf(p[i]) != KeyOf(q[j])
    ensures WithKey(p, k) == [] || WithKey(q, k) == []
  {
  }

  /** Without a (band, priority) tie across the two pipelines composition order is irrelevant. */
  lemma SwapWithoutTies(p: seq<Node>, q: seq<Node>)
    requires forall i, j :: 0 <= i < |p| && 0 <= j < |q| ==> KeyOf(p[i]) != KeyOf(q[j])
    ensures SortNodes(p + q) == SortNodes(q + p)
  {
    hide SortNodes;
    forall k
      ensures Commute(p, q, k)
    {
      KeyWithoutTie(p, q, k);
      hide WithKey;
    }
    SwapSortsSameIff(p, q);
  }

  /** A pipeline under construction; `timeout` in milliseconds. */
  class FlowPipeline {
    const name: string
    const timeout: Option<nat>
    var nodes: seq<Node>

    constructor (name: string, timeout: Option<nat>)
      ensures this.name == name && this.timeout == timeout && nodes == []
    {
      this.name, this.timeout, nodes := name, timeout, [];
    }

    method AddNode(n: Node)
      modifies this
      ensures nodes == old(nodes) + [n]
    {
      nodes := nodes + [n];
    }

    /** `compose` with any number of pipelines; `p | q` is `p.Compose([q])`. */
    method Compose(others: seq<FlowPipeline>) returns (composed: FlowPipeline)
      ensures fresh(composed)
      ensures composed.name == name + "+" + JoinNames(others)
      ensures composed.timeout == timeout
      ensures composed.nodes == nodes + AllNodes(others)
      ensures |others| == 1 ==>
        composed.name == name + "+" + others[0].name && composed.nodes == nodes + others[0].nodes
    {
      composed := new FlowPipeline(name + "+" + JoinNames(others), timeout);
      composed.nodes := nodes;
      for i := 0 to |others|
        invariant fresh(composed) && composed !in others
        invariant forall o :: o in others ==> unchanged(o)
        invariant composed.nodes == nodes + AllNodes(others[..i])
      {
        assert others[..i + 1][..i] == others[..i];
        composed.nodes := composed.nodes + others[i].nodes;
      }
      assert others[..|others|] == others;
    }

    /** The `|` operator is associative: both groupings have the same name, timeout and nodes. */
    method ComposeAssociates(q: FlowPipeline, r: FlowPipeline) returns (left: FlowPipeline, right: FlowPipeline)
      ensures left.name == right.name && left.timeout == right.timeout && left.nodes == right.nodes
    {
      var pq := Compose([q]);
      left := pq.Compose([r]);
      var qr := q.Compose([r]);
      right := Compose([qr]);
      calc {
        left.name;
        (name + "+" + q.name) + "+" + r.name;
        name + "+" + (q.name + "+" + r.name);
        right.name;
      }
    }
  }

  function JoinNames(ps: seq<FlowPipeline>): string {
    if ps == [] then "" else if |ps| == 1 then ps[0].name else ps[0].name + "|" + JoinNames(ps[1..])
  }

  function AllNodes(ps: seq<FlowPipeline>): seq<Node>
    reads ps
  {
    if ps == [] then [] else AllNodes(ps[..|ps| - 1]) + ps[|ps| - 1].nodes
  }
}
