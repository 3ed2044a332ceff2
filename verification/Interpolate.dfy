/** Variable expansion in parsed dotenv values (`DotEnv._interpolate`, aquilia/dotenv.py). */
module Interpolate {
  import opened Common
  import opened Dotenv

  type Environ = map<string, string>

  function Lookup(d: Entries, k: string): Option<string> {
    if d == [] then None else if d[0].0 == k then Some(d[0].1) else Lookup(d[1..], k)
  }

  /** The inner `resolve`: values already expanded, then raw values, then the environment. */
  function Resolve(name: string, result: Entries, values: Entries, env: Environ): string {
    if Lookup(result, name).Some? then Lookup(result, name).value
    else if Lookup(values, name).Some? then Lookup(values, name).value
    else if name in env then env[name] else ""
  }

  /** Length of the longest prefix of name characters. */
  function NameSpan(s: string): (n: nat)
    ensures n <= |s| && (forall i :: 0 <= i < n ==> IsNameChar(s[i])) && (n < |s| ==> !IsNameChar(s[n]))
  {
    if s == [] || !IsNameChar(s[0]) then 0 else 1 + NameSpan(s[1..])
  }

  /** The length of `${NAME}` at the front, or 0. */
  function BracesAt(s: string): (n: nat)
    ensures n <= |s| && (n > 0 ==> n >= 4)
  {
    if |s| < 3 || s[0] != '$' || s[1] != '{' || !IsNameStart(s[2]) then 0
    else
      var n := NameSpan(s[2..]);
      if n + 2 < |s| && s[n + 2] == '}' then n + 3 else 0
  }

  /** The length of `$NAME` at the front, or 0. */
  function SimpleAt(s: string): (n: nat)
    ensures n <= |s| && (n > 0 ==> n >= 2)
  {
    if |s| < 2 || s[0] != '$' || !IsNameStart(s[1]) then 0 else 1 + NameSpan(s[1..])
  }

  /** Substitution of all `${NAME}`, left to right, without rescanning. */
  function SubBraces(s: string, result: Entries, values: Entries, env: Environ): string
    decreases |s|
  {
    if s == [] then []
    else
      var n := BracesAt(s);
      if n > 0 then Resolve(s[2..n - 1], result, values, env) + SubBraces(s[n..], result, values, env)
      else [s[0]] + SubBraces(s[1..], result, values, env)
  }

  /** Substitution of all `$NAME`, left to right, without rescanning. */
  function SubSimple(s: string, result: Entries, values: Entries, env: Environ): string
    decreases |s|
  {
    if s == [] then []
    else
      var n := SimpleAt(s);
      if n > 0 then Resolve(s[1..n], result, values, env) + SubSimple(s[n..], result, values, env)
      else [s[0]] + SubSimple(s[1..], result, values, env)
  }

  function Expand(v: string, result: Entries, values: Entries, env: Environ): string {
    SubSimple(SubBraces(v, result, values, env), result, values, env)
  }

  function ExpandFrom(todo: Entries, result: Entries, values: Entries, env: Environ): Entries {
    if todo == [] then result
    else ExpandFrom(todo[1..], Put(result, todo[0].0, Expand(todo[0].1, result, values, env)), values, env)
  }

  method InterpolateAll(values: Entries, env: Environ) returns (result: Entries)
    ensures result == ExpandFrom(values, [], values, env)
  {
    result := [];
    for i := 0 to |values|
      invariant ExpandFrom(values[i..], result, values, env) == ExpandFrom(values, [], values, env)
    {
      assert values[i..][1..] == values[i + 1..];
      var (key, value) := values[i];
      var expanded := SubBraces(value, result, values, env);
      expanded := SubSimple(expanded, result, values, env);
      result := Put(result, key, expanded);
    }
  }

  // ---- Full substitution -------------------------------------------------------------------

  datatype Piece = Lit(text: string) | Ref(name: string)

  /** A value as literals and references. */
  datatype Template = Template(key: string, pieces: seq<Piece>)

  function RenderPiece(p: Piece): string {
    if p.Lit? then p.text else "${" + p.name + "}"
  }

  function RenderPieces(ps: seq<Piece>): string {
    if ps == [] then [] else RenderPiece(ps[0]) + RenderPieces(ps[1..])
  }

  function RenderAll(ts: seq<Template>): (d: Entries)
    ensures |d| == |ts|
  {
    if ts == [] then [] else [(ts[0].key, RenderPieces(ts[0].pieces))] + RenderAll(ts[1..])
  }

  /** Position of a key among the first `n` templates, or `n`. */
  function IndexOf(ts: seq<Template>, n: nat, name: string): (i: nat)
    requires n <= |ts|
    ensures i <= n && (i < n ==> ts[i].key == name)
    ensures i == n ==> forall j :: 0 <= j < n ==> ts[j].key != name
  {
    if n == 0 then 0
    else
      var i := IndexOf(ts, n - 1, name);
      if i < n - 1 then i else if ts[n - 1].key == name then n - 1 else n
  }

  /** A piece with references followed at most `depth` times; None if that is not deep enough. */
  function FullPiece(ts: seq<Template>, env: Environ, p: Piece, depth: nat): Option<string>
    decreases depth, 0, 0
  {
    if p.Lit? then Some(p.text)
    else
      var j := IndexOf(ts, |ts|, p.name);
      if j == |ts| then Some(if p.name in env then env[p.name] else "")
      else if depth == 0 then None
      else FullPieces(ts, env, ts[j].pieces, depth - 1)
  }

  function FullPieces(ts: seq<Template>, env: Environ, ps: seq<Piece>, depth: nat): Option<string>
    decreases depth, 1, |ps|
  {
    if ps == [] then Some([])
    else
      var first, rest := FullPiece(ts, env, ps[0], depth), FullPieces(ts, env, ps[1..], depth);
      if first.None? || rest.None? then None else Some(first.value + rest.value)
  }

  /** `v` is the fully substituted value of template `i`: every reference, back or forward, is followed
      to its end. */
  ghost predicate FullValue(ts: seq<Template>, env: Environ, i: nat, v: string)
    requires i < |ts|
  {
    exists depth: nat :: FullPieces(ts, env, ts[i].pieces, depth) == Some(v)
  }

  ghost predicate NoDollar(s: string) {
    '$' !in s
  }

  ghost predicate PiecesFit(ps: seq<Piece>) {
    forall p :: p in ps ==> if p.Lit? then NoDollar(p.text) else IsName(p.name)
  }

  /** Distinct keys, names as references, and no dollar sign in literals and the environment. */
  ghost predicate Plain(ts: seq<Template>, env: Environ) {
    && (forall i, j :: 0 <= i < j < |ts| ==> ts[i].key != ts[j].key)
    && (forall k :: k in env ==> NoDollar(env[k]))
    && (forall i :: 0 <= i < |ts| ==> PiecesFit(ts[i].pieces))
  }

  ghost predicate Refers(ps: seq<Piece>, name: string) {
    Ref(name) in ps
  }

  ghost predicate HasReference(ps: seq<Piece>) {
    exists name :: Refers(ps, name)
  }

  /** No value refers to its own or a later key whose value contains a reference. */
  ghost predicate OnlyPlainAhead(ts: seq<Template>) {
    forall i, j :: 0 <= i <= j < |ts| && Refers(ts[i].pieces, ts[j].key) ==> !HasReference(ts[j].pieces)
  }

  lemma {:induction false} FullMonotone(ts: seq<Template>, env: Environ, ps: seq<Piece>, depth: nat, more: nat)
    requires depth <= more && FullPieces(ts, env, ps, depth).Some?
    ensures FullPieces(ts, env, ps, more) == FullPieces(ts, env, ps, depth)
    decreases depth, |ps|
  {
    if ps != [] {
      FullMonotone(ts, env, ps[1..], depth, more);
      var p := ps[0];
      if p.Ref? && IndexOf(ts, |ts|, p.name) < |ts| {
        FullMonotone(ts, env, ts[IndexOf(ts, |ts|, p.name)].pieces, depth - 1, more - 1);
      }
    }
  }

  /** There is at most one full value. */
  lemma FullValueIsUnique(ts: seq<Template>, env: Environ, i: nat, v: string, w: string)
    requires i < |ts| && FullValue(ts, env, i, v) && FullValue(ts, env, i, w)
    ensures v == w
  {
    var a: nat :| FullPieces(ts, env, ts[i].pieces, a) == Some(v);
    var b: nat :| FullPieces(ts, env, ts[i].pieces, b) == Some(w);
    FullMonotone(ts, env, ts[i].pieces, a, a + b);
    FullMonotone(ts, env, ts[i].pieces, b, a + b);
  }

  /** A value that refers to itself has no full value. */
  lemma {:induction false} SelfReferenceNeverEnds(ts: seq<Template>, env: Environ, i: nat, ps: seq<Piece>, depth: nat)
    requires i < |ts| && Plain(ts, env) && Refers(ts[i].pieces, ts[i].key) && Refers(ps, ts[i].key)
    ensures FullPieces(ts, env, ps, depth) == None
    decreases depth, |ps|
  {
    if ps[0] == Ref(ts[i].key) {
      assert IndexOf(ts, |ts|, ts[i].key) == i;
      if depth > 0 {
        SelfReferenceNeverEnds(ts, env, i, ts[i].pieces, depth - 1);
      }
    } else {
      SelfReferenceNeverEnds(ts, env, i, ps[1..], depth);
    }
  }

  lemma {:induction false} FullHasNoDollar(ts: seq<Template>, env: Environ, ps: seq<Piece>, depth: nat)
    requires Plain(ts, env) && PiecesFit(ps) && FullPieces(ts, env, ps, depth).Some?
    ensures NoDollar(FullPieces(ts, env, ps, depth).value)
    decreases depth, |ps|
  {
    if ps != [] {
      var p := ps[0];
      assert p in ps && forall q :: q in ps[1..] ==> q in ps;
      FullHasNoDollar(ts, env, ps[1..], depth);
      if p.Ref? && IndexOf(ts, |ts|, p.name) < |ts| {
        FullHasNoDollar(ts, env, ts[IndexOf(ts, |ts|, p.name)].pieces, depth - 1);
      }
      assert NoDollar(FullPiece(ts, env, p, depth).value);
    }
  }

  // ---- What the single pass computes -------------------------------------------------------

  /** References to earlier keys give their expanded and references to later keys their raw values. */
  function OncePiece(ts: seq<Template>, env: Environ, i: nat, p: Piece): string
    requires i < |ts|
    decreases i, 0, 0
  {
    if p.Lit? then p.text
    else
      var j := IndexOf(ts, |ts|, p.name);
      if j == |ts| then (if p.name in env then env[p.name] else "")
      else if j < i then OncePieces(ts, env, j, ts[j].pieces)
      else RenderPieces(ts[j].pieces)
  }

  function OncePieces(ts: seq<Template>, env: Environ, i: nat, ps: seq<Piece>): string
    requires i < |ts|
    decreases i, 1, |ps|
  {
    if ps == [] then [] else OncePiece(ts, env, i, ps[0]) + OncePieces(ts, env, i, ps[1..])
  }

  function Once(ts: seq<Template>, env: Environ, i: nat): string
    requires i < |ts|
  {
    OncePieces(ts, env, i, ts[i].pieces)
  }

  function OnceEntries(ts: seq<Template>, env: Environ, n: nat): (d: Entries)
    requires n <= |ts|
    ensures |d| == n && forall i :: 0 <= i < n ==> d[i] == (ts[i].key, Once(ts, env, i))
  {
    seq(n, i requires 0 <= i < n => (ts[i].key, Once(ts, env, i)))
  }

  /** Every dollar sign is followed by an opening brace. */
  ghost predicate OnlyBraced(s: string) {
    forall k :: 0 <= k < |s| && s[k] == '$' ==> k + 1 < |s| && s[k + 1] == '{'
  }

  lemma BracedConcat(a: string, b: string)
    requires OnlyBraced(a) && OnlyBraced(b)
    ensures OnlyBraced(a + b)
  {
  }

  lemma {:induction false} RenderBraced(ps: seq<Piece>)
    requires PiecesFit(ps)
    ensures OnlyBraced(RenderPieces(ps))
  {
    if ps != [] {
      assert ps[0] in ps && forall q :: q in ps[1..] ==> q in ps;
      RenderBraced(ps[1..]);
      PieceBraced(ps[0]);
      BracedConcat(RenderPiece(ps[0]), RenderPieces(ps[1..]));
    }
  }

  lemma PieceBraced(p: Piece)
    requires if p.Lit? then NoDollar(p.text) else IsName(p.name)
    ensures OnlyBraced(RenderPiece(p))
  {
    assert !IsNameChar('$');
  }

  lemma {:induction false} OnceBraced(ts: seq<Template>, env: Environ, i: nat, ps: seq<Piece>)
    requires i < |ts| && Plain(ts, env) && PiecesFit(ps)
    ensures OnlyBraced(OncePieces(ts, env, i, ps))
    decreases i, |ps|
  {
    if ps != [] {
      var p := ps[0];
      assert p in ps && forall q :: q in ps[1..] ==> q in ps;
      OnceBraced(ts, env, i, ps[1..]);
      if p.Ref? {
        var j := IndexOf(ts, |ts|, p.name);
        if j < i {
          OnceBraced(ts, env, j, ts[j].pieces);
        } else if j < |ts| {
          RenderBraced(ts[j].pieces);
        }
      }
      hide PiecesFit, RenderPieces;
      assert OnlyBraced(OncePiece(ts, env, i, p));
      BracedConcat(OncePiece(ts, env, i, p), OncePieces(ts, env, i, ps[1..]));
    }
  }

  lemma {:induction false} SubSimpleIdentity(s: string, result: Entries, values: Entries, env: Environ)
    requires OnlyBraced(s)
    ensures SubSimple(s, result, values, env) == s
    decreases |s|
  {
    if s != [] {
      assert s == [s[0]] + s[1..];
      assert forall k :: 0 <= k < |s[1..]| ==> s[1..][k] == s[k + 1];
      SubSimpleIdentity(s[1..], result, values, env);
    }
  }

  lemma {:induction false} LookupAt(d: Entries, i: nat)
    requires i < |d| && forall j :: 0 <= j < i ==> d[j].0 != d[i].0
    ensures Lookup(d, d[i].0) == Some(d[i].1)
  {
    if i > 0 {
      LookupAt(d[1..], i - 1);
    }
  }

  lemma {:induction false} LookupAbsent(d: Entries, k: string)
    requires forall j :: 0 <= j < |d| ==> d[j].0 != k
    ensures Lookup(d, k) == None
  {
    if d != [] {
      LookupAbsent(d[1..], k);
    }
  }

  lemma {:induction false} RenderAllKeys(ts: seq<Template>)
    ensures |RenderAll(ts)| == |ts|
    ensures forall i :: 0 <= i < |ts| ==> RenderAll(ts)[i] == (ts[i].key, RenderPieces(ts[i].pieces))
  {
    if ts != [] {
      RenderAllKeys(ts[1..]);
    }
  }

  lemma ResolveIsOnce(ts: seq<Template>, env: Environ, i: nat, name: string)
    requires i < |ts| && Plain(ts, env)
    ensures Resolve(name, OnceEntries(ts, env, i), RenderAll(ts), env) == OncePiece(ts, env, i, Ref(name))
  {
    hide Once, OncePieces, RenderPieces, PiecesFit;
    var d := OnceEntries(ts, env, i);
    var j := IndexOf(ts, |ts|, name);
    RenderAllKeys(ts);
    if j < i {
      LookupAt(d, j);
      assert Once(ts, env, j) == OncePieces(ts, env, j, ts[j].pieces) by {
        OnceIs(ts, env, j);
      }
    } else {
      assert forall l :: 0 <= l < i ==> ts[l].key != name;
      LookupAbsent(d, name);
      if j < |ts| {
        LookupAt(RenderAll(ts), j);
      } else {
        LookupAbsent(RenderAll(ts), name);
      }
    }
  }

  lemma OnceIs(ts: seq<Template>, env: Environ, i: nat)
    requires i < |ts|
    ensures Once(ts, env, i) == OncePieces(ts, env, i, ts[i].pieces)
  {
  }

  lemma {:induction false} SubBracesLiteral(t: string, rest: string, result: Entries, values: Entries, env: Environ)
    requires NoDollar(t)
    ensures SubBraces(t + rest, result, values, env) == t + SubBraces(rest, result, values, env)
    decreases |t|
  {
    if t == [] {
      assert t + rest == rest;
    } else {
      assert t[0] in t && (t + rest)[1..] == t[1..] + rest;
      SubBracesLiteral(t[1..], rest, result, values, env);
    }
  }

  lemma {:induction false} NameSpanOf(name: string, rest: string)
    requires (forall c :: c in name ==> IsNameChar(c)) && rest != [] && !IsNameChar(rest[0])
    ensures NameSpan(name + rest) == |name|
  {
    if name == [] {
      assert name + rest == rest;
    } else {
      assert name[0] in name && (name + rest)[1..] == name[1..] + rest;
      NameSpanOf(name[1..], rest);
    }
  }

  lemma BracesAtReference(name: string, rest: string)
    requires IsName(name)
    ensures var s := "${" + name + "}" + rest;
      BracesAt(s) == |name| + 3 && s[2..|name| + 2] == name && s[|name| + 3..] == rest
  {
    var s := "${" + name + "}" + rest;
    assert s[2..] == name + ("}" + rest);
    assert s[2] == name[0];
    NameSpanOf(name, "}" + rest);
    hide NameSpan;
    assert s[|name| + 2] == '}';
  }

  lemma SubBracesReference(name: string, rest: string, result: Entries, values: Entries, env: Environ)
    requires IsName(name)
    ensures SubBraces("${" + name + "}" + rest, result, values, env) ==
            Resolve(name, result, values, env) + SubBraces(rest, result, values, env)
  {
    BracesAtReference(name, rest);
    hide Resolve, BracesAt, IsName;
    var s := "${" + name + "}" + rest;
    assert s != [];
  }

  lemma {:induction false} SubBracesIsOnce(ts: seq<Template>, env: Environ, i: nat, ps: seq<Piece>)
    requires i < |ts| && Plain(ts, env) && PiecesFit(ps)
    ensures SubBraces(RenderPieces(ps), OnceEntries(ts, env, i), RenderAll(ts), env) == OncePieces(ts, env, i, ps)
    decreases |ps|
  {
    if ps != [] {
      var d, values := OnceEntries(ts, env, i), RenderAll(ts);
      var p, rest := ps[0], RenderPieces(ps[1..]);
      assert p in ps && forall q :: q in ps[1..] ==> q in ps;
      SubBracesIsOnce(ts, env, i, ps[1..]);
      if p.Lit? {
        SubBracesLiteral(p.text, rest, d, values, env);
      } else {
        SubBracesReference(p.name, rest, d, values, env);
        ResolveIsOnce(ts, env, i, p.name);
      }
      hide SubBraces, Plain, PiecesFit;
    }
  }

  lemma ExpandOne(ts: seq<Template>, env: Environ, i: nat)
    requires i < |ts| && Plain(ts, env)
    ensures Expand(RenderPieces(ts[i].pieces), OnceEntries(ts, env, i), RenderAll(ts), env) == Once(ts, env, i)
  {
    SubBracesIsOnce(ts, env, i, ts[i].pieces);
    OnceBraced(ts, env, i, ts[i].pieces);
    SubSimpleIdentity(Once(ts, env, i), OnceEntries(ts, env, i), RenderAll(ts), env);
    hide SubBraces, SubSimple, OncePieces, Plain;
  }

  lemma PutOnce(ts: seq<Template>, env: Environ, i: nat)
    requires i < |ts| && Plain(ts, env)
    ensures Put(OnceEntries(ts, env, i), ts[i].key, Once(ts, env, i)) == OnceEntries(ts, env, i + 1)
  {
    hide Once, PiecesFit;
    PutNew(OnceEntries(ts, env, i), ts[i].key, Once(ts, env, i));
    assert OnceEntries(ts, env, i + 1) == OnceEntries(ts, env, i) + [(ts[i].key, Once(ts, env, i))];
  }

  lemma {:induction false} ExpandReaches(ts: seq<Template>, env: Environ, i: nat)
    requires i <= |ts| && Plain(ts, env)
    ensures ExpandFrom(RenderAll(ts)[i..], OnceEntries(ts, env, i), RenderAll(ts), env) == OnceEntries(ts, env, |ts|)
    decreases |ts| - i
  {
    hide Expand, Once, Put, OnceEntries, Plain, RenderPieces;
    RenderAllKeys(ts);
    hide RenderAll;
    var values := RenderAll(ts);
    if i < |ts| {
      ExpandOne(ts, env, i);
      PutOnce(ts, env, i);
      assert values[i..][1..] == values[i + 1..];
      ExpandReaches(ts, env, i + 1);
    } else {
      assert values[i..] == [];
    }
  }

  lemma PassIsOnce(ts: seq<Template>, env: Environ)
    requires Plain(ts, env)
    ensures ExpandFrom(RenderAll(ts), [], RenderAll(ts), env) == OnceEntries(ts, env, |ts|)
  {
    assert RenderAll(ts)[0..] == RenderAll(ts);
    assert OnceEntries(ts, env, 0) == [];
    ExpandReaches(ts, env, 0);
  }

  // ---- When the single pass is full substitution -------------------------------------------

  lemma {:induction false} PlainRenders(ts: seq<Template>, env: Environ, ps: seq<Piece>, depth: nat)
    requires !HasReference(ps)
    ensures FullPieces(ts, env, ps, depth) == Some(RenderPieces(ps))
    decreases |ps|
  {
    if ps != [] {
      assert forall name :: Refers(ps[1..], name) ==> Refers(ps, name);
      assert ps[0].Ref? ==> Refers(ps, ps[0].name);
      PlainRenders(ts, env, ps[1..], depth);
    }
  }

  /** Then a template needs no more than its own position as depth. */
  lemma {:induction false} OnceIsFull(ts: seq<Template>, env: Environ, i: nat, ps: seq<Piece>)
    requires i < |ts| && OnlyPlainAhead(ts) && forall p :: p in ps ==> p in ts[i].pieces
    ensures FullPieces(ts, env, ps, i + 1) == Some(OncePieces(ts, env, i, ps))
    decreases i, |ps|
  {
    if ps != [] {
      var p := ps[0];
      assert p in ps && forall q :: q in ps[1..] ==> q in ps;
      OnceIsFull(ts, env, i, ps[1..]);
      if p.Ref? {
        var j := IndexOf(ts, |ts|, p.name);
        if j < i {
          OnceIsFull(ts, env, j, ts[j].pieces);
          FullMonotone(ts, env, ts[j].pieces, j + 1, i);
        } else if j < |ts| {
          assert Refers(ts[i].pieces, ts[j].key);
          PlainRenders(ts, env, ts[j].pieces, i);
        }
      }
      assert FullPiece(ts, env, p, i + 1) == Some(OncePiece(ts, env, i, p));
    }
  }

  lemma {:induction false} ReferenceRenders(ps: seq<Piece>, name: string)
    requires Refers(ps, name)
    ensures '$' in RenderPieces(ps)
  {
    if ps[0] == Ref(name) {
      assert RenderPiece(ps[0])[0] == '$';
    } else {
      ReferenceRenders(ps[1..], name);
    }
  }

  lemma {:induction false} RawReferenceShows(ts: seq<Template>, env: Environ, i: nat, ps: seq<Piece>, j: nat)
    requires i <= j < |ts| && Refers(ps, ts[j].key) && HasReference(ts[j].pieces)
    requires forall a, b :: 0 <= a < b < |ts| ==> ts[a].key != ts[b].key
    ensures '$' in OncePieces(ts, env, i, ps)
    decreases |ps|
  {
    if ps[0] == Ref(ts[j].key) {
      assert IndexOf(ts, |ts|, ts[j].key) == j;
      var name :| Refers(ts[j].pieces, name);
      ReferenceRenders(ts[j].pieces, name);
    } else {
      RawReferenceShows(ts, env, i, ps[1..], j);
    }
  }

  /** The pass leaves no dollar sign, and gives every key its full value, if and only if no value refers
      to its own or a later key whose value contains a reference. */
  lemma ExpansionIsFullIff(ts: seq<Template>, env: Environ)
    requires Plain(ts, env)
    ensures var d := ExpandFrom(RenderAll(ts), [], RenderAll(ts), env);
      && |d| == |ts| && (forall i :: 0 <= i < |ts| ==> d[i].0 == ts[i].key)
      && ((forall i :: 0 <= i < |ts| ==> NoDollar(d[i].1)) <==> OnlyPlainAhead(ts))
      && ((forall i :: 0 <= i < |ts| ==> FullValue(ts, env, i, d[i].1)) <==> OnlyPlainAhead(ts))
  {
    PassIsOnce(ts, env);
    hide ExpandFrom, RenderAll;
    forall i | 0 <= i < |ts| && FullValue(ts, env, i, Once(ts, env, i))
      ensures NoDollar(Once(ts, env, i))
    {
      var depth: nat :| FullPieces(ts, env, ts[i].pieces, depth) == Some(Once(ts, env, i));
      FullHasNoDollar(ts, env, ts[i].pieces, depth);
    }
    if OnlyPlainAhead(ts) {
      forall i | 0 <= i < |ts|
        ensures FullValue(ts, env, i, Once(ts, env, i))
      {
        OnceIsFull(ts, env, i, ts[i].pieces);
      }
    } else {
      var i, j :| 0 <= i <= j < |ts| && Refers(ts[i].pieces, ts[j].key) && HasReference(ts[j].pieces);
      RawReferenceShows(ts, env, i, ts[i].pieces, j);
      assert !NoDollar(Once(ts, env, i));
    }
  }

  /** In particular the pass is full substitution when references only name earlier keys or nothing in
      the file. */
  lemma ExpansionIsFull(ts: seq<Template>, env: Environ)
    requires Plain(ts, env)
    requires forall i, j :: 0 <= i <= j < |ts| ==> !Refers(ts[i].pieces, ts[j].key)
    ensures var d := ExpandFrom(RenderAll(ts), [], RenderAll(ts), env);
      |d| == |ts| && forall i :: 0 <= i < |ts| ==> FullValue(ts, env, i, d[i].1) && NoDollar(d[i].1)
  {
    hide ExpandFrom;
    ExpansionIsFullIff(ts, env);
    assert OnlyPlainAhead(ts);
  }

  // ---- References without braces -----------------------------------------------------------

  lemma SubSimpleReference(name: string, rest: string, result: Entries, values: Entries, env: Environ)
    requires IsName(name) && (rest != [] ==> !IsNameChar(rest[0]))
    ensures SubSimple("$" + name + rest, result, values, env) ==
            Resolve(name, result, values, env) + SubSimple(rest, result, values, env)
  {
    var s := "$" + name + rest;
    assert s[1..] == name + rest && s[1] == name[0];
    if rest == [] {
      NameSpanAll(name);
      assert name + rest == name;
    } else {
      NameSpanOf(name, rest);
    }
    assert SimpleAt(s) == |name| + 1;
    assert s[1..|name| + 1] == name && s[|name| + 1..] == rest;
    hide Resolve, SimpleAt;
  }

  lemma {:induction false} NameSpanAll(name: string)
    requires forall c :: c in name ==> IsNameChar(c)
    ensures NameSpan(name) == |name|
  {
    if name != [] {
      NameSpanAll(name[1..]);
    }
  }

  function RenderBare(ps: seq<Piece>): string {
    if ps == [] then [] else (if ps[0].Lit? then ps[0].text else "$" + ps[0].name) + RenderBare(ps[1..])
  }

  /** Every name ends where its reference does. */
  ghost predicate BareFit(ps: seq<Piece>) {
    ps != [] ==>
      && (if ps[0].Lit? then NoDollar(ps[0].text)
          else IsName(ps[0].name) && (RenderBare(ps[1..]) != [] ==> !IsNameChar(RenderBare(ps[1..])[0])))
      && BareFit(ps[1..])
  }

  function ResolvePieces(ps: seq<Piece>, result: Entries, values: Entries, env: Environ): string {
    if ps == [] then []
    else
      (if ps[0].Lit? then ps[0].text else Resolve(ps[0].name, result, values, env))
      + ResolvePieces(ps[1..], result, values, env)
  }

  lemma {:induction false} SubBracesKeepsBare(ps: seq<Piece>, result: Entries, values: Entries, env: Environ)
    requires BareFit(ps)
    ensures SubBraces(RenderBare(ps), result, values, env) == RenderBare(ps)
  {
    if ps != [] {
      var rest := RenderBare(ps[1..]);
      SubBracesKeepsBare(ps[1..], result, values, env);
      if ps[0].Lit? {
        SubBracesLiteral(ps[0].text, rest, result, values, env);
      } else {
        BareSkipped(ps[0].name, rest, result, values, env);
      }
      hide SubBraces;
    }
  }

  lemma BareIsNoBrace(name: string, rest: string)
    requires IsName(name)
    ensures var s := "$" + name + rest;
      BracesAt(s) == 0 && s[0] == '$' && s[1..] == name + rest
  {
    var s := "$" + name + rest;
    assert s[1] == name[0];
    hide NameSpan;
    assert s[1..] == name + rest;
  }

  lemma FirstStays(s: string, result: Entries, values: Entries, env: Environ)
    requires s != [] && BracesAt(s) == 0
    ensures SubBraces(s, result, values, env) == [s[0]] + SubBraces(s[1..], result, values, env)
  {
  }

  /** The first substitution leaves `$NAME` alone. */
  lemma BareSkipped(name: string, rest: string, result: Entries, values: Entries, env: Environ)
    requires IsName(name)
    ensures SubBraces("$" + name + rest, result, values, env) == "$" + name + SubBraces(rest, result, values, env)
  {
    NoDollarInName(name);
    BareIsNoBrace(name, rest);
    hide BracesAt, SubBraces, IsName, NoDollar;
    FirstStays("$" + name + rest, result, values, env);
    SubBracesLiteral(name, rest, result, values, env);
    assert ['$'] + (name + SubBraces(rest, result, values, env)) == "$" + name + SubBraces(rest, result, values, env);
  }

  lemma NoDollarInName(name: string)
    requires IsName(name)
    ensures NoDollar(name)
  {
    assert !IsNameChar('$');
  }

  lemma {:induction false} SubSimpleLiteral(t: string, rest: string, result: Entries, values: Entries, env: Environ)
    requires NoDollar(t)
    ensures SubSimple(t + rest, result, values, env) == t + SubSimple(rest, result, values, env)
    decreases |t|
  {
    if t == [] {
      assert t + rest == rest;
    } else {
      assert t[0] in t && (t + rest)[1..] == t[1..] + rest;
      SubSimpleLiteral(t[1..], rest, result, values, env);
    }
  }

  /** A value with references without braces expands to what each of them resolves to, and nothing that
      was put in is expanded again. */
  lemma {:induction false} BareReferencesResolve(ps: seq<Piece>, result: Entries, values: Entries, env: Environ)
    requires BareFit(ps)
    ensures Expand(RenderBare(ps), result, values, env) == ResolvePieces(ps, result, values, env)
  {
    SubBracesKeepsBare(ps, result, values, env);
    if ps != [] {
      var rest := RenderBare(ps[1..]);
      SubBracesKeepsBare(ps[1..], result, values, env);
      BareReferencesResolve(ps[1..], result, values, env);
      if ps[0].Lit? {
        SubSimpleLiteral(ps[0].text, rest, result, values, env);
      } else {
        SubSimpleReference(ps[0].name, rest, result, values, env);
      }
      hide SubBraces, SubSimple, Resolve, IsName;
    }
  }

  lemma BareThenBraces(a: string, b: string, result: Entries, values: Entries, env: Environ)
    requires IsName(a) && IsName(b)
    ensures SubBraces("$" + a + ("${" + b + "}"), result, values, env) == "$" + a + Resolve(b, result, values, env)
  {
    var tail := "${" + b + "}";
    BareSkipped(a, tail, result, values, env);
    SubBracesReference(b, [], result, values, env);
    assert tail + [] == tail;
    assert SubBraces([], result, values, env) == [];
    hide SubBraces, Resolve, IsName;
    var v := Resolve(b, result, values, env);
    assert v + [] == v;
  }

  lemma BareAlone(name: string, result: Entries, values: Entries, env: Environ)
    requires IsName(name)
    ensures SubSimple("$" + name, result, values, env) == Resolve(name, result, values, env)
  {
    SubSimpleReference(name, [], result, values, env);
    assert SubSimple([], result, values, env) == [];
    hide SubSimple, Resolve, IsName;
    assert "$" + name + [] == "$" + name;
    assert Resolve(name, result, values, env) + [] == Resolve(name, result, values, env);
  }

  /** A reference without braces swallows what a braced one behind it expands to. */
  lemma BraceRunsIntoName(a: string, b: string, result: Entries, values: Entries, env: Environ)
    requires IsName(a) && IsName(b) && forall c :: c in Resolve(b, result, values, env) ==> IsNameChar(c)
    ensures Expand("$" + a + ("${" + b + "}"), result, values, env) ==
            Resolve(a + Resolve(b, result, values, env), result, values, env)
  {
    var v := Resolve(b, result, values, env);
    assert IsName(a + v);
    hide Resolve, IsName, SubBraces, SubSimple;
    BareThenBraces(a, b, result, values, env);
    BareAlone(a + v, result, values, env);
    assert "$" + (a + v) == "$" + a + v;
  }

  /** The second substitution leaves `${NAME}` alone. */
  lemma BracesSurviveSimple(c: string, result: Entries, values: Entries, env: Environ)
    requires IsName(c)
    ensures SubSimple("${" + c + "}", result, values, env) == "${" + c + "}"
  {
    var raw := "${" + c + "}";
    assert raw[0] == '$' && raw[1] == '{' && raw[1..] == "{" + c + "}";
    assert !IsNameChar('$');
    SubSimpleIdentity(raw[1..], result, values, env);
    assert SimpleAt(raw) == 0;
    assert raw == [raw[0]] + raw[1..];
  }

  /** A reference to a later key takes its raw value: what that value refers to stays unexpanded. */
  lemma LaterReferenceStaysRaw(a: string, b: string, c: string, env: Environ)
    requires IsName(a) && IsName(b) && IsName(c) && a != b
    ensures var values := [(a, "${" + b + "}"), (b, "${" + c + "}")];
      Expand(values[0].1, [], values, env) == "${" + c + "}"
  {
    var raw := "${" + c + "}";
    var values := [(a, "${" + b + "}"), (b, raw)];
    assert Lookup(values[1..], b) == Some(raw);
    assert Resolve(b, [], values, env) == raw;
    SubBracesReference(b, [], [], values, env);
    BracesSurviveSimple(c, [], values, env);
    assert "${" + b + "}" + [] == "${" + b + "}" && raw + [] == raw;
    assert SubBraces([], [], values, env) == [];
    hide SubBraces, SubSimple, Resolve, Lookup, IsName;
  }
}
