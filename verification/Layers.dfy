/** Effect layers: topological build order by depth-first search, and building in that order
    (`LayerComposition` and `Layer` of aquilia/flow.py). */
module Layers {
  import opened Common

  /** Dependency graph of a composition: layer name to declared dependency names. Names that are
      not themselves keys are supplied from outside and are not edges. */
  type Graph = map<string, seq<string>>

  ghost predicate Edge(g: Graph, u: string, v: string) {
    u in g && v in g && v in g[u]
  }

  ghost predicate IsWalk(g: Graph, p: seq<string>) {
    && (forall i :: 0 <= i < |p| ==> p[i] in g)
    && (forall i :: 0 < i < |p| ==> Edge(g, p[i - 1], p[i]))
  }

  /** A closed walk with at least one edge. */
  ghost predicate IsCycle(g: Graph, p: seq<string>) {
    |p| >= 2 && IsWalk(g, p) && p[0] == p[|p| - 1]
  }

  ghost predicate Cyclic(g: Graph) {
    exists p :: IsCycle(g, p)
  }

  ghost function Elems<T>(s: seq<T>): set<T> {
    set x | x in s
  }

  /** Every in-graph dependency of a listed name is listed strictly earlier. */
  ghost predicate DepsFirst(g: Graph, order: seq<string>) {
    forall i, d :: 0 <= i < |order| && Edge(g, order[i], d) ==> d in order[..i]
  }

  ghost predicate TopologicalOrder(g: Graph, order: seq<string>) {
    Distinct(order) && Elems(order) == g.Keys && DepsFirst(g, order)
  }

  // ---- Graph facts -------------------------------------------------------------------------

  /** Along a walk through a dependency-first listing positions strictly fall. */
  lemma {:induction false} WalkFallsThroughOrder(g: Graph, order: seq<string>, p: seq<string>, at: nat)
    requires Distinct(order) && DepsFirst(g, order)
    requires |p| >= 2 && IsWalk(g, p)
    requires at < |order| && order[at] == p[0]
    ensures p[|p| - 1] in order[..at]
  {
    assert Edge(g, p[0], p[1]);
    var next :| 0 <= next < at && order[next] == p[1];
    if |p| > 2 {
      var q := p[1..];
      assert forall i :: 0 < i < |q| ==> q[i - 1] == p[i] && q[i] == p[i + 1] && Edge(g, p[i], p[i + 1]);
      WalkFallsThroughOrder(g, order, q, next);
      assert q[|q| - 1] == p[|p| - 1];
    }
  }

  /** A graph that has a topological order has no cycle. */
  lemma TopologicalOrderExcludesCycles(g: Graph, order: seq<string>)
    requires TopologicalOrder(g, order)
    ensures !Cyclic(g)
  {
    forall p | IsCycle(g, p)
      ensures false
    {
      assert p[0] in Elems(order);
      var at :| 0 <= at < |order| && order[at] == p[0];
      WalkFallsThroughOrder(g, order, p, at);
    }
  }

  /** Re-entering a name on the current search path closes a cycle. */
  lemma PathReentryIsCycle(g: Graph, path: seq<string>, name: string)
    requires IsWalk(g, path) && name in path
    requires Edge(g, path[|path| - 1], name)
    ensures Cyclic(g)
  {
    var k :| 0 <= k < |path| && path[k] == name;
    var p := path[k..] + [name];
    forall i | 0 < i < |p|
      ensures Edge(g, p[i - 1], p[i])
    {
      if i < |p| - 1 {
        assert p[i - 1] == path[k + i - 1] && p[i] == path[k + i];
      }
    }
    assert IsCycle(g, p);
  }

  // ---- The search --------------------------------------------------------------------------

  /** The closure state shared by the nested `visit` calls. */
  class BuildOrderSearch {
    const graph: Graph
    var visited: set<string>
    var order: seq<string>

    constructor (g: Graph)
      ensures graph == g && visited == {} && order == []
    {
      graph := g;
      visited := {};
      order := [];
    }

    ghost predicate Valid()
      reads this
    {
      && visited == Elems(order)
      && visited <= graph.Keys
      && Distinct(order)
      && DepsFirst(graph, order)
    }

    /** `stack` lists the set `path` in call order. Success lists `name`, after everything it
        depends on, and touches nothing on the path; failure happens only on a cycle. */
    method Visit(name: string, path: set<string>, ghost stack: seq<string>) returns (ok: bool)
      requires Valid() && name in graph
      requires IsWalk(graph, stack) && Elems(stack) == path && path !! visited
      requires stack != [] ==> Edge(graph, stack[|stack| - 1], name)
      modifies this
      ensures ok ==> Valid() && name in visited && path !! visited && old(order) <= order
      ensures !ok ==> Cyclic(graph)
      decreases graph.Keys - path
    {
      if name in visited {
        return true;
      }
      if name in path {
        PathReentryIsCycle(graph, stack, name);
        return false;
      }
      ghost var stack' := stack + [name];
      var path' := path + {name};
      assert Elems(stack') == path' by {
        forall x
          ensures x in stack' <==> x in path'
        {
          assert x in stack <==> x in Elems(stack);
        }
      }
      assert name in graph.Keys - path;
      var deps := graph[name];
      var i := 0;
      while i < |deps|
        invariant 0 <= i <= |deps|
        invariant Valid() && path' !! visited && old(order) <= order
        invariant forall j :: 0 <= j < i && deps[j] in graph ==> deps[j] in visited
      {
        if deps[i] in graph {
          var fine := Visit(deps[i], path', stack');
          if !fine {
            return false;
          }
        }
        i := i + 1;
      }
      AppendKeepsOrder(graph, order, name);
      visited := visited + {name};
      order := order + [name];
      assert name !in path;
      return true;
    }
  }

  /** Listing a name once all its dependencies are listed keeps the listing dependency-first. */
  lemma AppendKeepsOrder(g: Graph, order: seq<string>, name: string)
    requires Distinct(order) && DepsFirst(g, order)
    requires name !in order
    requires forall d :: Edge(g, name, d) ==> d in order
    ensures Distinct(order + [name]) && DepsFirst(g, order + [name])
    ensures Elems(order + [name]) == Elems(order) + {name}
  {
    var longer := order + [name];
    forall i, d | 0 <= i < |longer| && Edge(g, longer[i], d)
      ensures d in longer[..i]
    {
      assert longer[..i] == order[..i];
    }
  }

  // ---- Compositions ------------------------------------------------------------------------

  datatype Made<+P> = Raises | Made(value: Option<P>)

  datatype BuildOutcome<+P> =
    | Built(resolved: map<string, Option<P>>)
    | CircularDependency
    | MissingDependency(layer: string, names: seq<string>)
    | FactoryRaised(layer: string)

  /** These arguments are the declared names that are resolved, each with its recorded provider. */
  ghost predicate Hands<P>(args: map<string, Option<P>>, deps: seq<string>, resolved: map<string, Option<P>>) {
    && (forall d :: d in args <==> d in deps && d in resolved)
    && (forall d :: d in args ==> args[d] == resolved[d])
  }

  /** The keyword arguments handed to a factory: the declared names that are resolved. */
  function Kwargs<P>(deps: seq<string>, resolved: map<string, Option<P>>): (args: map<string, Option<P>>)
    ensures Hands(args, deps, resolved)
  {
    map d | d in deps && d in resolved :: resolved[d]
  }

  /** Declared names found in neither of two places, in declaration order. */
  function Unsupplied(deps: seq<string>, supplied: set<string>): (missing: seq<string>)
    ensures missing == [] <==> forall d :: d in deps ==> d in supplied
    ensures forall d :: d in missing <==> d in deps && d !in supplied
  {
    if deps == [] then []
    else
      var rest := Unsupplied(deps[1..], supplied);
      assert forall d :: d in deps <==> d == deps[0] || d in deps[1..];
      if deps[0] in supplied then rest else [deps[0]] + rest
  }

  /** The missing names keep their order and number. */
  lemma {:induction false} UnsuppliedInOrder(a: seq<string>, b: seq<string>, supplied: set<string>)
    ensures Unsupplied(a + b, supplied) == Unsupplied(a, supplied) + Unsupplied(b, supplied)
  {
    if a == [] {
      assert a + b == b;
    } else {
      assert (a + b)[1..] == a[1..] + b;
      UnsuppliedInOrder(a[1..], b, supplied);
    }
  }

  /** An effect layer; a provider of `None` stands for a factory that returned Python's None, which
      is built again on the next call. */
  class Layer<P> {
    const name: string
    const deps: seq<string>
    const factory: map<string, Option<P>> -> Made<P>
    var built: bool
    var provider: Option<P>

    constructor (name: string, deps: seq<string>, factory: map<string, Option<P>> -> Made<P>)
      ensures this.name == name && this.deps == deps && this.factory == factory && !Cached()
    {
      this.name, this.deps, this.factory := name, deps, factory;
      built, provider := false, None;
    }

    predicate Cached()
      reads this
    {
      built && provider.Some?
    }

    method Build(resolved: map<string, Option<P>>) returns (r: Made<P>)
      modifies this
      ensures r == if old(Cached()) then Made(old(provider)) else factory(Kwargs(deps, resolved))
      ensures !old(Cached()) ==> exists args :: Hands(args, deps, resolved) && r == factory(args)
      ensures r.Made? ==> built && provider == r.value
      ensures r.Raises? ==> built == old(built) && provider == old(provider)
    {
      if built && provider.Some? {
        return Made(provider);
      }
      r := factory(Kwargs(deps, resolved));
      if r.Made? {
        provider := r.value;
        built := true;
      }
    }
  }

  /** `layer_map`: a later layer of the same name wins. */
  function GraphOf<P>(layers: seq<Layer<P>>): (g: Graph)
    ensures g.Keys == set l | l in layers :: l.name
  {
    if layers == [] then map[]
    else
      var last := layers[|layers| - 1];
      assert layers == layers[..|layers| - 1] + [last];
      GraphOf(layers[..|layers| - 1])[last.name := last.deps]
  }

  ghost predicate DistinctNames<P>(layers: seq<Layer<P>>) {
    forall i, j :: 0 <= i < j < |layers| ==> layers[i].name != layers[j].name
  }

  lemma {:induction false} GraphOfDistinct<P>(layers: seq<Layer<P>>, l: Layer<P>)
    requires DistinctNames(layers) && l in layers
    ensures l.name in GraphOf(layers) && GraphOf(layers)[l.name] == l.deps
  {
    var front, last := layers[..|layers| - 1], layers[|layers| - 1];
    if l != last {
      assert l in front;
      GraphOfDistinct(front, l);
      var i :| 0 <= i < |layers| - 1 && layers[i] == l;
      assert l.name != last.name;
    }
  }

  lemma {:induction false} UnsuppliedAgree(deps: seq<string>, a: set<string>, b: set<string>)
    requires forall d :: d in deps ==> (d in a <==> d in b)
    ensures Unsupplied(deps, a) == Unsupplied(deps, b)
  {
    if deps != [] {
      UnsuppliedAgree(deps[1..], a, b);
    }
  }

  /** What is missing when a layer's turn comes is what nobody supplies at all. */
  lemma MissingIsUnsupplied(g: Graph, order: seq<string>, k: nat, initial: set<string>)
    requires TopologicalOrder(g, order) && k < |order| && order[k] in g
    ensures Unsupplied(g[order[k]], initial + Elems(order[..k])) == Unsupplied(g[order[k]], initial + g.Keys)
  {
    var a, b := initial + Elems(order[..k]), initial + g.Keys;
    forall d | d in g[order[k]]
      ensures d in a <==> d in b
    {
      if d in g {
        assert Edge(g, order[k], d);
      } else {
        assert d in order[..k] ==> d in Elems(order);
      }
    }
    UnsuppliedAgree(g[order[k]], a, b);
  }

  /** Recording the provider built at position `k` cannot change the arguments of any layer built up
      to then. */
  lemma KwargsStable<P>(g: Graph, order: seq<string>, k: nat, name: string, before: map<string, Option<P>>,
                        made: Option<P>)
    requires TopologicalOrder(g, order) && k < |order| && name in order[..k + 1] && name in g
    ensures Kwargs(g[name], before[order[k] := made]) == Kwargs(g[name], before)
  {
    var at :| 0 <= at <= k && order[at] == name;
    assert order[k] in Elems(order);
    assert forall d :: d in g[name] && d in g ==> Edge(g, order[at], d) && d in order[..at];
    assert order[k] !in g[name];
  }

  lemma TakeOneMore<T>(s: seq<T>, k: nat)
    requires k < |s|
    ensures s[..k + 1] == s[..k] + [s[k]]
    ensures Elems(s[..k + 1]) == Elems(s[..k]) + {s[k]}
  {
    assert s[..k + 1] == s[..k] + [s[k]];
  }

  class LayerComposition<P(!new)> {
    const layers: seq<Layer<P>>
    const explicitOrder: seq<string>

    constructor (layers: seq<Layer<P>>, explicitOrder: seq<string>)
      ensures this.layers == layers && this.explicitOrder == explicitOrder
    {
      this.layers, this.explicitOrder := layers, explicitOrder;
    }

    ghost function Graph(): Graph {
      GraphOf(layers)
    }

    /** A missing order means the dependency graph is cyclic; otherwise it is topological. */
    method ResolveBuildOrder() returns (order: Option<seq<string>>)
      ensures explicitOrder != [] ==> order == Some(explicitOrder)
      ensures explicitOrder == [] ==> (order.None? <==> Cyclic(Graph()))
      ensures explicitOrder == [] && order.Some? ==> TopologicalOrder(Graph(), order.value)
    {
      if explicitOrder != [] {
        return Some(explicitOrder);
      }
      var search := new BuildOrderSearch(GraphOf(layers));
      var i := 0;
      while i < |layers|
        invariant 0 <= i <= |layers|
        invariant search.Valid()
        invariant forall j :: 0 <= j < i ==> layers[j].name in search.visited
        invariant fresh(search)
      {
        var ok := search.Visit(layers[i].name, {}, []);
        if !ok {
          return None;
        }
        i := i + 1;
      }
      assert search.visited == search.graph.Keys;
      TopologicalOrderExcludesCycles(search.graph, search.order);
      return Some(search.order);
    }

    method GetLayer(name: string) returns (layer: Layer?<P>)
      ensures layer == null ==> forall l :: l in layers ==> l.name != name
      ensures layer != null ==> layer in layers && layer.name == name
    {
      for i := 0 to |layers|
        invariant forall j :: 0 <= j < i ==> layers[j].name != name
      {
        if layers[i].name == name {
          return layers[i];
        }
      }
      return null;
    }

    /** The providers already built, by layer. */
    ghost function CacheOf(): map<Layer<P>, Option<P>>
      reads layers
    {
      map l | l in layers && l.Cached() :: l.provider
    }

    /** The provider a build records for `l`: the one cached before, or what its factory makes of
        the recorded values of everything it declared. */
    ghost predicate ResolvedBy(l: Layer<P>, resolved: map<string, Option<P>>, cache: map<Layer<P>, Option<P>>)
      reads l
    {
      && (forall d :: d in l.deps ==> d in resolved)
      && l.name in resolved
      && l.built && l.provider == resolved[l.name]
      && Made(resolved[l.name]) == if l in cache then Made(cache[l]) else l.factory(Kwargs(l.deps, resolved))
    }

    ghost predicate Untouched(l: Layer<P>, cache: map<Layer<P>, Option<P>>)
      reads l
    {
      && (l in cache <==> l.Cached())
      && (l in cache ==> l.provider == cache[l])
    }

    /** The first `k` layers of `order` are resolved and the others are as they were. */
    ghost predicate Progress(order: seq<string>, k: nat, initial: map<string, Option<P>>,
                             resolved: map<string, Option<P>>, cache: map<Layer<P>, Option<P>>)
      requires k <= |order|
      reads layers
    {
      && resolved.Keys == initial.Keys + Elems(order[..k])
      && (forall x :: x in initial && x !in Graph() ==> resolved[x] == initial[x])
      && (forall l :: l in layers ==>
            if l.name in order[..k] then ResolvedBy(l, resolved, cache) else Untouched(l, cache))
    }

    /** Builds the layer at position `k` of a topological order. */
    method BuildNext(order: seq<string>, k: nat, initial: map<string, Option<P>>,
                     resolved: map<string, Option<P>>, ghost cache: map<Layer<P>, Option<P>>)
      returns (r: BuildOutcome<P>)
      requires DistinctNames(layers) && TopologicalOrder(Graph(), order) && k < |order|
      requires Progress(order, k, initial, resolved, cache)
      modifies layers
      ensures !r.CircularDependency?
      ensures r.Built? ==> Progress(order, k + 1, initial, r.resolved, cache)
      ensures r.MissingDependency? ==> r.layer == order[k] && MissingIsReal(r.layer, r.names, initial)
      ensures r.FactoryRaised? ==> r.layer == order[k] && RaiseIsReal(r.layer)
    {
      hide Hands;
      ghost var g := Graph();
      var layer := GetLayer(order[k]);
      assert order[k] in Elems(order);
      assert order[k] in g;
      GraphNamesLayers(order[k]);
      GraphOfDistinct(layers, layer);
      var missing := Unsupplied(layer.deps, resolved.Keys);
      MissingIsUnsupplied(g, order, k, initial.Keys);
      if missing != [] {
        return MissingDependency(layer.name, missing);
      }
      assert layer.name !in order[..k];
      var made := layer.Build(resolved);
      if made.Raises? {
        return FactoryRaised(layer.name);
      }
      AfterBuild(order, k, initial, resolved, layer, made.value, cache);
      return Built(resolved[layer.name := made.value]);
    }

    /** Once the layer at position `k` is built and the others are as they were, there is one more
        step of progress. */
    lemma AfterBuild(order: seq<string>, k: nat, initial: map<string, Option<P>>, resolved: map<string, Option<P>>,
                     layer: Layer<P>, made: Option<P>, cache: map<Layer<P>, Option<P>>)
      requires DistinctNames(layers) && TopologicalOrder(Graph(), order) && k < |order|
      requires resolved.Keys == initial.Keys + Elems(order[..k])
      requires forall x :: x in initial && x !in Graph() ==> resolved[x] == initial[x]
      requires layer in layers && layer.name == order[k] && layer.name in Graph() && Graph()[layer.name] == layer.deps
      requires forall d :: d in layer.deps ==> d in resolved
      requires layer.built && layer.provider == made
      requires Made(made) == if layer in cache then Made(cache[layer]) else layer.factory(Kwargs(layer.deps, resolved))
      requires forall l :: l in layers && l != layer ==>
        if l.name in order[..k] then ResolvedBy(l, resolved, cache) else Untouched(l, cache)
      ensures Progress(order, k + 1, initial, resolved[layer.name := made], cache)
    {
      var more := resolved[layer.name := made];
      TakeOneMore(order, k);
      KwargsStable(Graph(), order, k, layer.name, resolved, made);
      assert ResolvedBy(layer, more, cache);
      forall l | l in layers && l != layer
        ensures if l.name in order[..k + 1] then ResolvedBy(l, more, cache) else Untouched(l, cache)
      {
        SameNameSameLayer(l, layer);
        if l.name in order[..k] {
          GraphOfDistinct(layers, l);
          StillResolved(order, k, l, resolved, made, cache);
        }
      }
    }

    lemma GraphNamesLayers(name: string)
      requires name in Graph()
      ensures exists l :: l in layers && l.name == name
    {
    }

    lemma SameNameSameLayer(a: Layer<P>, b: Layer<P>)
      requires DistinctNames(layers) && a in layers && b in layers
      ensures a.name == b.name ==> a == b
    {
    }

    /** Recording one more provider leaves an earlier layer resolved. */
    lemma StillResolved(order: seq<string>, k: nat, l: Layer<P>, resolved: map<string, Option<P>>, made: Option<P>,
                        cache: map<Layer<P>, Option<P>>)
      requires TopologicalOrder(Graph(), order) && k < |order| && l.name in order[..k]
      requires l.name in Graph() && Graph()[l.name] == l.deps
      requires ResolvedBy(l, resolved, cache)
      ensures ResolvedBy(l, resolved[order[k] := made], cache)
    {
      KwargsStable(Graph(), order, k, l.name, resolved, made);
      assert order[k] !in order[..k];
    }

    ghost predicate MissingIsReal(name: string, names: seq<string>, initial: map<string, Option<P>>) {
      exists l :: l in layers && l.name == name && names != [] &&
        names == Unsupplied(l.deps, initial.Keys + Graph().Keys)
    }

    /** In some dependency-first order every layer before this one has all it needs. */
    ghost predicate FirstUnsupplied(name: string, initial: map<string, Option<P>>) {
      exists order, k :: 0 <= k < |order| && order[k] == name && TopologicalOrder(Graph(), order) &&
        SuppliedUpto(order, k, initial)
    }

    ghost predicate SuppliedUpto(order: seq<string>, k: nat, initial: map<string, Option<P>>)
      requires k <= |order|
    {
      forall l :: l in layers && l.name in order[..k] ==> Unsupplied(l.deps, initial.Keys + Graph().Keys) == []
    }

    lemma ProgressSupplies(order: seq<string>, k: nat, initial: map<string, Option<P>>,
                           resolved: map<string, Option<P>>, cache: map<Layer<P>, Option<P>>)
      requires k < |order| && TopologicalOrder(Graph(), order) && Progress(order, k, initial, resolved, cache)
      ensures FirstUnsupplied(order[k], initial)
    {
      assert forall n :: n in order[..k] ==> n in Elems(order);
      forall l | l in layers && l.name in order[..k]
        ensures Unsupplied(l.deps, initial.Keys + Graph().Keys) == []
      {
        assert ResolvedBy(l, resolved, cache);
      }
      assert SuppliedUpto(order, k, initial);
    }

    /** The provider recorded for `l` is what its factory makes of exactly its declared dependencies, each
        with its own recorded provider. */
    ghost predicate BuiltFrom(l: Layer<P>, resolved: map<string, Option<P>>)
      requires l.name in resolved
    {
      exists args ::
        && (forall d :: d in args <==> d in l.deps)
        && (forall d :: d in args ==> d in resolved && args[d] == resolved[d])
        && l.factory(args) == Made(resolved[l.name])
    }

    lemma ResolvedIsBuilt(resolved: map<string, Option<P>>, cache: map<Layer<P>, Option<P>>, l: Layer<P>)
      requires ResolvedBy(l, resolved, cache) && l !in cache
      ensures BuiltFrom(l, resolved)
    {
      var args := Kwargs(l.deps, resolved);
      assert Hands(args, l.deps, resolved);
    }

    lemma BuiltOrCached(resolved: map<string, Option<P>>, cache: map<Layer<P>, Option<P>>, l: Layer<P>)
      requires ResolvedBy(l, resolved, cache)
      ensures l.name in resolved && if l in cache then resolved[l.name] == cache[l] else BuiltFrom(l, resolved)
    {
      if l !in cache {
        ResolvedIsBuilt(resolved, cache, l);
      }
    }

    ghost predicate RaiseIsReal(name: string) {
      exists l, args ::
        && l in layers && l.name == name && l.factory(args).Raises?
        && forall d :: d in args <==> d in l.deps
    }

    lemma ProgressStarts(order: seq<string>, initial: map<string, Option<P>>)
      ensures Progress(order, 0, initial, initial, CacheOf())
    {
      assert Elems(order[..0]) == {};
    }

    /** Progress through a whole order resolves every layer. */
    lemma ProgressEnds(order: seq<string>, initial: map<string, Option<P>>, resolved: map<string, Option<P>>,
                       cache: map<Layer<P>, Option<P>>)
      requires TopologicalOrder(Graph(), order) && Progress(order, |order|, initial, resolved, cache)
      ensures resolved.Keys == initial.Keys + Graph().Keys
      ensures forall l, d :: l in layers && d in l.deps ==> d in initial.Keys + Graph().Keys
      ensures forall l :: l in layers ==> ResolvedBy(l, resolved, cache)
      ensures forall k :: k in initial && k !in Graph() ==> resolved[k] == initial[k]
    {
      assert order[..|order|] == order;
      forall l | l in layers
        ensures ResolvedBy(l, resolved, cache)
      {
        assert l.name in Elems(order);
      }
    }

    /** For distinct names and no explicit order: the error is exactly a cycle, a dependency is
        reported missing only when it is supplied by nobody, for a layer before which nothing is missing
        in a dependency-first order, and a result solves every layer's construction equation at once. */
    method BuildAll(initial: map<string, Option<P>>) returns (r: BuildOutcome<P>)
      requires DistinctNames(layers) && explicitOrder == []
      modifies layers
      ensures r.CircularDependency? <==> Cyclic(Graph())
      ensures r.MissingDependency? ==>
        MissingIsReal(r.layer, r.names, initial) && FirstUnsupplied(r.layer, initial)
      ensures r.FactoryRaised? ==> RaiseIsReal(r.layer) && FirstUnsupplied(r.layer, initial)
      ensures r.Built? ==>
        && r.resolved.Keys == initial.Keys + Graph().Keys
        && (forall l, d :: l in layers && d in l.deps ==> d in initial.Keys + Graph().Keys)
        && (forall l :: l in layers ==> ResolvedBy(l, r.resolved, old(CacheOf())))
        && (forall l :: l in layers ==>
              if old(l.Cached()) then r.resolved[l.name] == old(l.provider) else BuiltFrom(l, r.resolved))
        && (forall k :: k in initial && k !in Graph() ==> r.resolved[k] == initial[k])
    {
      hide FirstUnsupplied, MissingIsReal, RaiseIsReal, Progress, ResolvedBy;
      var resolved := initial;
      var built := ResolveBuildOrder();
      if built.None? {
        return CircularDependency;
      }
      var order := built.value;
      TopologicalOrderExcludesCycles(Graph(), order);
      ghost var cache := CacheOf();
      ProgressStarts(order, initial);
      var k := 0;
      while k < |order|
        invariant 0 <= k <= |order|
        invariant Progress(order, k, initial, resolved, cache)
      {
        ProgressSupplies(order, k, initial, resolved, cache);
        var step := BuildNext(order, k, initial, resolved, cache);
        if !step.Built? {
          return step;
        }
        resolved := step.resolved;
        k := k + 1;
      }
      ProgressEnds(order, initial, resolved, cache);
      forall l | l in layers
        ensures l.name in resolved
        ensures if old(l.Cached()) then resolved[l.name] == old(l.provider) else BuiltFrom(l, resolved)
      {
        BuiltOrCached(resolved, cache, l);
      }
      return Built(resolved);
    }
  }
}
