/** The other half: for every type graph that is not guarded there is a server on which a
    repeated declaration changes what a client reads. */
module UnguardedTypes {
  import opened OpcUa
  import opened Instance
  import opened ModelToJson
  import opened ValueFeed
  import opened RepeatedChildren
  import opened GuardedTypes

  /** Different children of one type have different names. */
  predicate NamesApart(g: TypeGraph)
    requires g.Valid()
  {
    forall t, i, j :: 0 <= t < |g.nodes| && 0 <= i < |g.nodes[t].children| && 0 <= j < |g.nodes[t].children| ==>
      Apart(g, g.nodes[t].children[i], g.nodes[t].children[j])
  }

  predicate Apart(g: TypeGraph, c: nat, d: nat)
    requires c < |g.nodes| && d < |g.nodes|
  {
    c != d ==> g.nodes[c].def.name != g.nodes[d].def.name
  }

  function Names(g: TypeGraph): set<QualifiedName> {
    set t | 0 <= t < |g.nodes| :: g.nodes[t].def.name
  }

  function Queries(g: TypeGraph): set<(NodeId, NodeId)> {
    set t | 0 <= t < |g.nodes| :: (g.nodes[t].reference, g.nodes[t].typeId)
  }

  // ---------- trees that differ ----------

  predicate Named(ns: seq<Node>, name: QualifiedName) {
    exists k :: 0 <= k < |ns| && ns[k].def.name == name
  }

  lemma {:induction false} SimilarNames(xs: seq<Node>, ys: seq<Node>, name: QualifiedName)
    requires SimilarChildren(xs, ys) && Named(xs, name)
    ensures Named(ys, name)
    decreases |xs|
  {
    var front, last := xs[..|xs| - 1], xs[|xs| - 1];
    var k :| 0 <= k < |xs| && xs[k].def.name == name;
    assert k < |front| ==> front[k].def.name == name;
    if ys != [] && Similar(last, ys[|ys| - 1]) && SimilarChildren(front, ys[..|ys| - 1]) {
      if k < |front| {
        SimilarNames(front, ys[..|ys| - 1], name);
        var j :| 0 <= j < |ys| - 1 && ys[..|ys| - 1][j].def.name == name;
        assert ys[j].def.name == name;
      } else {
        assert ys[|ys| - 1].def.name == name;
      }
    } else {
      var j :| 0 <= j < |front| && Echo(front[j], last);
      assert Named(front, name);
      SimilarNames(front, ys, name);
    }
  }

  lemma TreesDiffer(g: TypeGraph, srv: Server, t: nat, name: QualifiedName)
    requires g.Valid() && Dedup(g).Valid() && srv.Valid() && ROOT in srv.ids && t < |g.nodes|
    requires var o := Transform(g, srv, {}, ROOT, t).0; o.Ok? && o.value.Simple? && Named(o.value.children, name)
    requires var o' := Transform(Dedup(g), srv, {}, ROOT, t).0; o'.Ok? ==> o'.value.Simple? && !Named(o'.value.children, name)
    ensures !SameTree(g, srv, ROOT, t)
  {
    var o, o' := Transform(g, srv, {}, ROOT, t).0, Transform(Dedup(g), srv, {}, ROOT, t).0;
    if o'.Ok? && Similar(o.value, o'.value) {
      SimilarNames(o.value.children, o'.value.children, name);
    }
  }

  lemma NamedMore(ns: seq<Node>, n: Node, name: QualifiedName)
    ensures Named(ns + [n], name) <==> Named(ns, name) || n.def.name == name
  {
    assert (ns + [n])[|ns|] == n;
    if Named(ns, name) {
      var k :| 0 <= k < |ns| && ns[k].def.name == name;
      assert (ns + [n])[k] == ns[k];
    }
  }

  lemma {:induction false} FirstsDistinct(cs: seq<nat>)
    ensures forall i, j :: 0 <= i < j < |Firsts(cs)| ==> Firsts(cs)[i] != Firsts(cs)[j]
  {
    if cs != [] {
      FirstsDistinct(cs[..|cs| - 1]);
    }
  }

  /** The graph and the graph without repetitions declare the same children. */
  ghost predicate SameDeclarations(g: TypeGraph, h: TypeGraph) {
    && g.Valid() && h.Valid() && |h.nodes| == |g.nodes| && h.typeMap == g.typeMap
    && forall t :: 0 <= t < |g.nodes| ==> SameNode(g.nodes[t], h.nodes[t])
  }

  ghost predicate SameNode(a: TypeNode, b: TypeNode) {
    && a.def == b.def && a.reference == b.reference && a.typeId == b.typeId
    && forall c :: c in a.children <==> c in b.children
  }

  lemma DedupDeclaresTheSame(g: TypeGraph)
    requires g.Valid()
    ensures SameDeclarations(g, g) && SameDeclarations(g, Dedup(g))
  {
    DedupIsValid(g);
  }

  // ---------- an optional child with a mandatory placeholder ----------

  const ROOT := NodeId("root", "i=1")
  const BELOW := NodeId("below", "i=1")

  lemma NodesDiffer()
    ensures ROOT != BELOW && ROOT != NULL_ID && BELOW != NULL_ID
  {
    assert "root"[0] == 'r' && "below"[0] == 'b';
  }

  /** Only the child of that name exists, and nothing below it can be browsed. */
  function OptionalServer(g: TypeGraph, name: QualifiedName): Server {
    NodesDiffer();
    Server({ROOT, BELOW},
           (map n | n in Names(g) :: (ROOT, n) := if n == name then BELOW else NULL_ID) +
           (map n | n in Names(g) :: (BELOW, n) := NULL_ID),
           map q | q in Queries(g) :: (ROOT, q.0, q.1) := [],
           map[])
  }

  /** What such a server answers about one declared child. */
  predicate OptionalAnswers(srv: Server, child: TypeNode, name: QualifiedName) {
    var root, below := (ROOT, child.def.name), (BELOW, child.def.name);
    && root in srv.paths && srv.paths[root] == (if child.def.name == name then BELOW else NULL_ID)
    && below in srv.paths && srv.paths[below] == NULL_ID
    && (ROOT, child.reference, child.typeId) in srv.lists && srv.lists[(ROOT, child.reference, child.typeId)] == []
    && (BELOW, child.reference, child.typeId) !in srv.lists
  }

  predicate OptionalWorld(h: TypeGraph, srv: Server, name: QualifiedName) {
    h.Valid() && srv.Valid() && srv.ids == {ROOT, BELOW} && forall t :: 0 <= t < |h.nodes| ==> OptionalAnswers(srv, h.nodes[t], name)
  }

  lemma OptionalServerAnswers(g: TypeGraph, h: TypeGraph, name: QualifiedName)
    requires SameDeclarations(g, h)
    ensures OptionalWorld(h, OptionalServer(g, name), name)
  {
    NodesDiffer();
    forall t | 0 <= t < |h.nodes|
      ensures OptionalAnswers(OptionalServer(g, name), h.nodes[t], name)
    {
      assert SameNode(g.nodes[t], h.nodes[t]);
      assert h.nodes[t].def.name in Names(g) && (h.nodes[t].reference, h.nodes[t].typeId) in Queries(g);
    }
  }

  lemma {:induction false} BelowChildren(h: TypeGraph, srv: Server, name: QualifiedName, browsed: set<NodeId>, cs: seq<nat>, i: nat,
                                         found: seq<Node>)
    requires OptionalWorld(h, srv, name) && i <= |cs| && forall k :: 0 <= k < |cs| ==> cs[k] < |h.nodes|
    requires exists k :: i <= k < |cs| && h.nodes[cs[k]].def.rule.MandatoryPlaceholder?
    ensures Children(h, srv, browsed, BELOW, cs, i, found) == (Plain, browsed)
    decreases |cs| - i
  {
    assert OptionalAnswers(srv, h.nodes[cs[i]], name);
    if !h.nodes[cs[i]].def.rule.MandatoryPlaceholder? {
      assert LinkOf(h, srv, browsed, BELOW, cs[i]) == (Skip, browsed);
      BelowChildren(h, srv, name, browsed, cs, i + 1, found);
    }
  }

  /** The child `c`, the only one of its name, is dropped the first time and a leaf afterwards. */
  lemma OptionalLink(h: TypeGraph, srv: Server, browsed: set<NodeId>, c: nat, x: nat)
    requires c < |h.nodes| && OptionalWorld(h, srv, h.nodes[c].def.name) && x < |h.nodes| && Apart(h, c, x)
    requires h.nodes[c].def.rule.Optional? && HasMandatoryPlaceholder(h, c)
    ensures var link := LinkOf(h, srv, browsed, ROOT, x);
            if x != c then
              link.1 == browsed && (link.0.Skip? || (link.0.Push? && link.0.node.def == h.nodes[x].def))
            else if BELOW in browsed then link == (Push(Simple(BELOW, h.nodes[c].def, [], Null)), browsed)
            else link == (Skip, browsed + {BELOW})
  {
    NodesDiffer();
    assert OptionalAnswers(srv, h.nodes[x], h.nodes[c].def.name);
    if x == c && BELOW !in browsed {
      BelowChildren(h, srv, h.nodes[c].def.name, browsed + {BELOW}, h.nodes[c].children, 0, []);
      assert Transform(h, srv, browsed, BELOW, c) == (Plain, browsed + {BELOW});
    }
  }

  /** `c` is still to come often enough to be pushed. */
  predicate Due(cs: seq<nat>, i: nat, c: nat, met: bool)
    requires i <= |cs|
  {
    if met then exists k :: i <= k < |cs| && cs[k] == c
    else exists k, l :: i <= k < l < |cs| && cs[k] == c && cs[l] == c
  }

  lemma DueStep(cs: seq<nat>, i: nat, c: nat, met: bool)
    requires i < |cs|
    ensures cs[i] != c ==> (Due(cs, i, c, met) <==> Due(cs, i + 1, c, met))
    ensures cs[i] == c && !met ==> (Due(cs, i, c, false) <==> Due(cs, i + 1, c, true))
    ensures cs[i] == c && met ==> Due(cs, i, c, met)
  {
    if cs[i] == c && !met && Due(cs, i + 1, c, true) {
      var l :| i + 1 <= l < |cs| && cs[l] == c;
      assert cs[i] == c && cs[l] == c;
    }
  }

  lemma {:induction false} OptionalChildren(h: TypeGraph, srv: Server, browsed: set<NodeId>, c: nat, cs: seq<nat>, i: nat, found: seq<Node>)
    requires c < |h.nodes| && OptionalWorld(h, srv, h.nodes[c].def.name) && i <= |cs|
    requires forall k :: 0 <= k < |cs| ==> cs[k] < |h.nodes| && Apart(h, c, cs[k])
    requires h.nodes[c].def.rule.Optional? && HasMandatoryPlaceholder(h, c)
    ensures var name := h.nodes[c].def.name;
            var o := Children(h, srv, browsed, ROOT, cs, i, found).0;
            o.Ok? && (Named(o.value, name) <==> Named(found, name) || Due(cs, i, c, BELOW in browsed))
    decreases |cs| - i
  {
    if i < |cs| {
      OptionalLink(h, srv, browsed, c, cs[i]);
      var (link, b) := LinkOf(h, srv, browsed, ROOT, cs[i]);
      DueStep(cs, i, c, BELOW in browsed);
      if link.Push? {
        NamedMore(found, link.node, h.nodes[c].def.name);
      }
      OptionalChildren(h, srv, b, c, cs, i + 1, if link.Push? then found + [link.node] else found);
    }
  }

  /** The tree of a fresh client has the child exactly if it is declared twice. */
  lemma OptionalTree(h: TypeGraph, srv: Server, t: nat, c: nat)
    requires t < |h.nodes| && c < |h.nodes| && OptionalWorld(h, srv, h.nodes[c].def.name)
    requires forall k :: 0 <= k < |h.nodes[t].children| ==> Apart(h, c, h.nodes[t].children[k])
    requires h.nodes[c].def.rule.Optional? && HasMandatoryPlaceholder(h, c)
    ensures var o := Transform(h, srv, {}, ROOT, t).0;
            o.Ok? && o.value.Simple? && (Named(o.value.children, h.nodes[c].def.name) <==> Due(h.nodes[t].children, 0, c, false))
  {
    NodesDiffer();
    OptionalChildren(h, srv, {} + {ROOT}, c, h.nodes[t].children, 0, []);
  }

  lemma SameMandatoryPlaceholders(g: TypeGraph, h: TypeGraph, u: nat)
    requires SameDeclarations(g, h) && u < |g.nodes|
    ensures HasMandatoryPlaceholder(g, u) <==> HasMandatoryPlaceholder(h, u)
  {
    assert SameNode(g.nodes[u], h.nodes[u]);
    if k :| 0 <= k < |g.nodes[u].children| && g.nodes[g.nodes[u].children[k]].def.rule.MandatoryPlaceholder? {
      var c := g.nodes[u].children[k];
      assert c in h.nodes[u].children && SameNode(g.nodes[c], h.nodes[c]);
      var j :| 0 <= j < |h.nodes[u].children| && h.nodes[u].children[j] == c;
    }
    if k :| 0 <= k < |h.nodes[u].children| && h.nodes[h.nodes[u].children[k]].def.rule.MandatoryPlaceholder? {
      var c := h.nodes[u].children[k];
      assert c in g.nodes[u].children && SameNode(g.nodes[c], h.nodes[c]);
      var j :| 0 <= j < |g.nodes[u].children| && g.nodes[u].children[j] == c;
    }
  }

  lemma ApartInDedup(g: TypeGraph, h: TypeGraph, t: nat, c: nat)
    requires SameDeclarations(g, h) && NamesApart(g) && t < |g.nodes| && c in g.nodes[t].children && c < |g.nodes|
    ensures forall k :: 0 <= k < |h.nodes[t].children| ==> Apart(h, c, h.nodes[t].children[k])
  {
    forall k | 0 <= k < |h.nodes[t].children|
      ensures Apart(h, c, h.nodes[t].children[k])
    {
      var x := h.nodes[t].children[k];
      assert SameNode(g.nodes[t], h.nodes[t]) && SameNode(g.nodes[x], h.nodes[x]) && SameNode(g.nodes[c], h.nodes[c]);
      assert x in g.nodes[t].children;
      var i :| 0 <= i < |g.nodes[t].children| && g.nodes[t].children[i] == c;
      var j :| 0 <= j < |g.nodes[t].children| && g.nodes[t].children[j] == x;
      assert Apart(g, g.nodes[t].children[i], g.nodes[t].children[j]);
    }
  }

  lemma DueTwice(cs: seq<nat>, i: nat)
    requires i < |cs| && cs[i] in cs[i + 1..]
    ensures Due(cs, 0, cs[i], false) && !Due(Firsts(cs), 0, cs[i], false)
  {
    var l :| 0 <= l < |cs[i + 1..]| && cs[i + 1..][l] == cs[i];
    assert cs[i + 1 + l] == cs[i];
    FirstsDistinct(cs);
  }

  lemma OptionalReading(g: TypeGraph, h: TypeGraph, t: nat, c: nat)
    requires SameDeclarations(g, h) && NamesApart(g) && t < |g.nodes| && c in g.nodes[t].children && c < |g.nodes|
    requires g.nodes[c].def.rule.Optional? && HasMandatoryPlaceholder(g, c)
    ensures var srv := OptionalServer(g, g.nodes[c].def.name);
            srv.Valid() && ROOT in srv.ids &&
            var o := Transform(h, srv, {}, ROOT, t).0;
            o.Ok? && o.value.Simple? && (Named(o.value.children, g.nodes[c].def.name) <==> Due(h.nodes[t].children, 0, c, false))
  {
    assert SameNode(g.nodes[c], h.nodes[c]);
    SameMandatoryPlaceholders(g, h, c);
    ApartInDedup(g, h, t, c);
    OptionalServerAnswers(g, h, g.nodes[c].def.name);
    OptionalTree(h, OptionalServer(g, g.nodes[c].def.name), t, c);
  }

  /** A repeated optional child with a mandatory placeholder below it tells the graphs apart. */
  lemma UnguardedOptional(g: TypeGraph, t: nat, i: nat)
    requires g.Valid() && NamesApart(g) && t < |g.nodes| && i < |g.nodes[t].children|
    requires var c := g.nodes[t].children[i];
             g.nodes[c].def.rule.Optional? && HasMandatoryPlaceholder(g, c) && c in g.nodes[t].children[i + 1..]
    ensures exists srv: Server, start :: srv.Valid() && start in srv.ids && !SameTree(g, srv, start, t)
  {
    var c := g.nodes[t].children[i];
    DedupDeclaresTheSame(g);
    DueTwice(g.nodes[t].children, i);
    OptionalReading(g, g, t, c);
    OptionalReading(g, Dedup(g), t, c);
    TreesDiffer(g, OptionalServer(g, g.nodes[c].def.name), t, g.nodes[c].def.name);
  }

  // ---------- an optional placeholder whose elements can fail ----------

  function TypeAt(u: nat, walk: seq<nat>, d: nat): nat
    requires d <= |walk|
  {
    if d == 0 then u else walk[d - 1]
  }

  /** The walk ends at a mandatory child, or, at once, at a mandatory placeholder. */
  predicate FailWalk(h: TypeGraph, u: nat, walk: seq<nat>)
    requires h.Valid() && u < |h.nodes|
  {
    && walk != [] && (forall d :: 0 <= d < |walk| ==> walk[d] < |h.nodes|)
    && (forall d :: 0 <= d < |walk| ==> StepOk(h, u, walk, d))
  }

  predicate StepOk(h: TypeGraph, u: nat, walk: seq<nat>, d: nat)
    requires u < |h.nodes| && d < |walk| && forall k :: 0 <= k < |walk| ==> walk[k] < |h.nodes|
  {
    && walk[d] in h.nodes[TypeAt(u, walk, d)].children
    && var rule := h.nodes[walk[d]].def.rule;
       if d < |walk| - 1 then rule.Optional? else rule.Mandatory? || (d == 0 && rule.MandatoryPlaceholder?)
  }

  predicate IsPlain(h: TypeGraph, walk: seq<nat>)
    requires walk != [] && walk[|walk| - 1] < |h.nodes|
  {
    h.nodes[walk[|walk| - 1]].def.rule.MandatoryPlaceholder?
  }

  lemma {:induction false} InvalidIsFail(g: TypeGraph, u: nat, walk: seq<nat>)
    requires g.Valid() && u < |g.nodes| && InvalidWalk(g, u, walk)
    ensures FailWalk(g, u, walk) && !IsPlain(g, walk)
    decreases |walk|
  {
    if |walk| > 1 {
      InvalidIsFail(g, walk[0], walk[1..]);
      forall d | 0 <= d < |walk|
        ensures walk[d] < |g.nodes|
      {
        if d > 0 {
          assert walk[1..][d - 1] == walk[d];
        }
      }
      forall d | 0 <= d < |walk|
        ensures StepOk(g, u, walk, d)
      {
        if d > 0 {
          assert StepOk(g, walk[0], walk[1..], d - 1);
          assert TypeAt(walk[0], walk[1..], d - 1) == TypeAt(u, walk, d);
        }
      }
      assert walk[1..][|walk| - 2] == walk[|walk| - 1];
    }
  }

  lemma FailingTypeHasWalk(g: TypeGraph, u: nat)
    requires g.Valid() && u < |g.nodes| && CanFail(g, u)
    ensures exists walk :: FailWalk(g, u, walk)
  {
    if HasMandatoryPlaceholder(g, u) {
      var k :| 0 <= k < |g.nodes[u].children| && g.nodes[g.nodes[u].children[k]].def.rule.MandatoryPlaceholder?;
      assert StepOk(g, u, [g.nodes[u].children[k]], 0);
      assert FailWalk(g, u, [g.nodes[u].children[k]]);
    } else {
      var walk :| InvalidWalk(g, u, walk);
      InvalidIsFail(g, u, walk);
    }
  }

  function Es(n: nat): (r: string)
    ensures |r| == n + 1 && r[0] == 'e'
  {
    if n == 0 then "e" else Es(n - 1) + "e"
  }

  /** Node `d` of the `j`th failing element. */
  function E(j: nat, d: nat): NodeId {
    NodeId(Es(j), Es(d))
  }

  lemma EDiffer()
    ensures forall j, d, k, l :: E(j, d) == E(k, l) ==> j == k && d == l
    ensures forall j, d :: E(j, d) != ROOT && E(j, d) != NULL_ID
  {
    assert "root"[0] == 'r';
    forall j: nat, d: nat, k: nat, l: nat | E(j, d) == E(k, l)
      ensures j == k && d == l
    {
      assert |E(j, d).uri| == j + 1 && |E(k, l).uri| == k + 1 && |E(j, d).id| == d + 1 && |E(k, l).id| == l + 1;
    }
    forall j: nat, d: nat
      ensures E(j, d) != ROOT && E(j, d) != NULL_ID
    {
      assert E(j, d).uri[0] == 'e';
    }
  }

  function Chain(walk: seq<nat>, j: nat): set<NodeId> {
    set d | 0 <= d < |walk| :: E(j, d)
  }

  /** Parameters of the failing server: the type of the elements, the walk on which they fail,
      the placeholder's query and the number of elements. */
  datatype Plan = Plan(typ: NodeId, walk: seq<nat>, query: (NodeId, NodeId), count: nat)

  /** What such a server answers about one declared child at a node of a failing element. */
  predicate ChainAnswers(h: TypeGraph, srv: Server, p: Plan, j: nat, d: nat, child: TypeNode)
    requires d < |p.walk| && (forall k :: 0 <= k < |p.walk| ==> p.walk[k] < |h.nodes|)
  {
    var path, query := (E(j, d), child.def.name), (E(j, d), child.reference, child.typeId);
    && (if child.def.name != h.nodes[p.walk[d]].def.name then path in srv.paths && srv.paths[path] == NULL_ID
        else if d == |p.walk| - 1 then path !in srv.paths
        else path in srv.paths && srv.paths[path] == E(j, d + 1))
    && (if IsPlain(h, p.walk) then query !in srv.lists else query in srv.lists && srv.lists[query] == [])
  }

  predicate RootAnswers(srv: Server, p: Plan, child: TypeNode) {
    var path, query := (ROOT, child.def.name), (ROOT, child.reference, child.typeId);
    && path in srv.paths && srv.paths[path] == NULL_ID && query in srv.lists
    && ((child.reference, child.typeId) != p.query ==> srv.lists[query] == [])
  }

  /** The elements the placeholder lists. */
  predicate BadList(srv: Server, p: Plan, list: seq<BrowseResult>) {
    |list| == p.count &&
    forall j :: 0 <= j < p.count ==> list[j].nodeId == E(j, 0) && ElementType(srv, list[j]) == Some(p.typ)
  }

  predicate FailWorld(h: TypeGraph, srv: Server, p: Plan) {
    && h.Valid() && srv.Valid() && ROOT in srv.ids
    && p.typ in h.typeMap && FailWalk(h, h.typeMap[p.typ], p.walk)
    && (forall j, d :: 0 <= j < p.count && 0 <= d < |p.walk| ==> E(j, d) in srv.ids)
    && (forall t :: 0 <= t < |h.nodes| ==> RootAnswers(srv, p, h.nodes[t]))
    && (forall t, j, d :: 0 <= t < |h.nodes| && 0 <= j < p.count && 0 <= d < |p.walk| ==> ChainAnswers(h, srv, p, j, d, h.nodes[t]))
    && (ROOT, p.query.0, p.query.1) in srv.lists && BadList(srv, p, srv.lists[(ROOT, p.query.0, p.query.1)])
  }

  // ---------- one failing element ----------

  /** The other children at a node of the walk have other names. */
  predicate WalkApart(h: TypeGraph, u: nat, walk: seq<nat>)
    requires h.Valid() && u < |h.nodes| && FailWalk(h, u, walk)
  {
    forall d, k :: 0 <= d < |walk| && 0 <= k < |h.nodes[TypeAt(u, walk, d)].children| ==>
      Apart(h, walk[d], h.nodes[TypeAt(u, walk, d)].children[k])
  }

  /** Nodes from `d` on of element `j` were not browsed. */
  predicate FreshFrom(p: Plan, browsed: set<NodeId>, j: nat, d: nat) {
    forall k :: d <= k < |p.walk| ==> E(j, k) !in browsed
  }

  predicate FailsAs<T>(o: Outcome<T>, plain: bool) {
    if plain then o.Plain? else o.InvalidChild?
  }

  lemma {:induction false} ChainFails(h: TypeGraph, srv: Server, p: Plan, browsed: set<NodeId>, j: nat, d: nat)
    requires FailWorld(h, srv, p) && WalkApart(h, h.typeMap[p.typ], p.walk) && j < p.count && d < |p.walk| && FreshFrom(p, browsed, j, d)
    ensures var (o, b) := Transform(h, srv, browsed, E(j, d), TypeAt(h.typeMap[p.typ], p.walk, d));
            FailsAs(o, IsPlain(h, p.walk)) && E(j, d) in b && b <= browsed + Chain(p.walk, j)
    decreases |p.walk| - d, 1, 0
  {
    EDiffer();
    var t := TypeAt(h.typeMap[p.typ], p.walk, d);
    assert StepOk(h, h.typeMap[p.typ], p.walk, d);
    assert E(j, d) in Chain(p.walk, j);
    ChainChildren(h, srv, p, browsed + {E(j, d)}, j, d, 0, []);
  }

  lemma {:induction false} ChainChildren(h: TypeGraph, srv: Server, p: Plan, browsed: set<NodeId>, j: nat, d: nat, i: nat, found: seq<Node>)
    requires FailWorld(h, srv, p) && WalkApart(h, h.typeMap[p.typ], p.walk) && j < p.count && d < |p.walk| && FreshFrom(p, browsed, j, d + 1)
    requires var cs := h.nodes[TypeAt(h.typeMap[p.typ], p.walk, d)].children; i <= |cs| && p.walk[d] in cs[i..]
    ensures var cs := h.nodes[TypeAt(h.typeMap[p.typ], p.walk, d)].children;
            var (o, b) := Children(h, srv, browsed, E(j, d), cs, i, found);
            FailsAs(o, IsPlain(h, p.walk)) && b <= browsed + Chain(p.walk, j)
    decreases |p.walk| - d, 0, |h.nodes[TypeAt(h.typeMap[p.typ], p.walk, d)].children| - i
  {
    var cs := h.nodes[TypeAt(h.typeMap[p.typ], p.walk, d)].children;
    assert cs[i..] == [cs[i]] + cs[i + 1..];
    assert Apart(h, p.walk[d], cs[i]);
    var (link, b) := LinkOf(h, srv, browsed, E(j, d), cs[i]);
    if cs[i] == p.walk[d] {
      ChainStep(h, srv, p, browsed, j, d);
    } else {
      ChainSibling(h, srv, p, browsed, j, d, cs[i]);
      if link.Skip? || link.Push? {
        ChainChildren(h, srv, p, b, j, d, i + 1, if link.Push? then found + [link.node] else found);
      }
    }
  }

  lemma ChainSibling(h: TypeGraph, srv: Server, p: Plan, browsed: set<NodeId>, j: nat, d: nat, x: nat)
    requires FailWorld(h, srv, p) && j < p.count && d < |p.walk| && x < |h.nodes| && x != p.walk[d] && Apart(h, p.walk[d], x)
    ensures var link := LinkOf(h, srv, browsed, E(j, d), x);
            link.1 == browsed && (link.0.Skip? || link.0.Push? || (link.0.RaisePlain? && IsPlain(h, p.walk)))
  {
    assert ChainAnswers(h, srv, p, j, d, h.nodes[x]);
  }

  lemma {:induction false} ChainStep(h: TypeGraph, srv: Server, p: Plan, browsed: set<NodeId>, j: nat, d: nat)
    requires FailWorld(h, srv, p) && WalkApart(h, h.typeMap[p.typ], p.walk) && j < p.count && d < |p.walk| && FreshFrom(p, browsed, j, d + 1)
    ensures var (link, b) := LinkOf(h, srv, browsed, E(j, d), p.walk[d]);
            (if IsPlain(h, p.walk) then link.RaisePlain? else link.RaiseInvalidChild?) && b <= browsed + Chain(p.walk, j)
    decreases |p.walk| - d, 0, 0
  {
    EDiffer();
    assert StepOk(h, h.typeMap[p.typ], p.walk, d);
    assert ChainAnswers(h, srv, p, j, d, h.nodes[p.walk[d]]);
    if d < |p.walk| - 1 {
      assert StepOk(h, h.typeMap[p.typ], p.walk, |p.walk| - 1);
      ChainFails(h, srv, p, browsed, j, d + 1);
    }
  }

  // ---------- the list of failing elements ----------

  /** The first `r` failing elements were met, the others were not touched. */
  predicate Met(p: Plan, browsed: set<NodeId>, r: nat) {
    && (forall j :: 0 <= j < r ==> E(j, 0) in browsed)
    && (forall j :: r <= j < p.count ==> FreshFrom(p, browsed, j, 0))
  }

  lemma MetMore(p: Plan, browsed: set<NodeId>, b: set<NodeId>, r: nat)
    requires Met(p, browsed, r) && browsed <= b <= browsed + Chain(p.walk, r) && E(r, 0) in b
    ensures Met(p, b, r + 1)
  {
    EDiffer();
    forall j, k | r + 1 <= j < p.count && 0 <= k < |p.walk|
      ensures E(j, k) !in b
    {
      assert FreshFrom(p, browsed, j, 0);
    }
  }

  /** Every reading meets one more failing element, until there is none left. */
  lemma {:induction false} BadElements(h: TypeGraph, srv: Server, p: Plan, browsed: set<NodeId>, r: nat, i: nat, found: seq<Element>)
    requires FailWorld(h, srv, p) && WalkApart(h, h.typeMap[p.typ], p.walk) && i <= r <= p.count && Met(p, browsed, r)
    ensures var (o, b) := Elements(h, srv, browsed, srv.lists[(ROOT, p.query.0, p.query.1)], i, found);
            if r < p.count then !o.Ok? && Met(p, b, r + 1) else o.Ok? && b == browsed
    decreases r - i
  {
    var list := srv.lists[(ROOT, p.query.0, p.query.1)];
    if i < p.count {
      assert list[i].nodeId == E(i, 0) && ElementType(srv, list[i]) == Some(p.typ);
      if i < r {
        var n := Transform(h, srv, browsed, list[i].nodeId, h.typeMap[p.typ]).0.value;
        BadElements(h, srv, p, browsed, r, i + 1, found + [Element(list[i].browseName, p.typ, n)]);
      } else {
        ChainFails(h, srv, p, browsed, r, 0);
        MetMore(p, browsed, Transform(h, srv, browsed, E(r, 0), h.typeMap[p.typ]).1, r);
      }
    }
  }

  predicate Asks(h: TypeGraph, query: (NodeId, NodeId), x: nat)
    requires x < |h.nodes|
  {
    h.nodes[x].def.rule.IsPlaceholder() && (h.nodes[x].reference, h.nodes[x].typeId) == query
  }

  /** One more reading, if the child asks for the elements. */
  function ReadingsAfter(h: TypeGraph, p: Plan, r: nat, x: nat): nat
    requires x < |h.nodes|
  {
    if Asks(h, p.query, x) && r < p.count then r + 1 else r
  }

  lemma RootLink(h: TypeGraph, srv: Server, p: Plan, browsed: set<NodeId>, r: nat, x: nat)
    requires FailWorld(h, srv, p) && WalkApart(h, h.typeMap[p.typ], p.walk) && x < |h.nodes| && r <= p.count && Met(p, browsed, r)
    ensures var (link, b) := LinkOf(h, srv, browsed, ROOT, x);
            && Met(p, b, ReadingsAfter(h, p, r, x))
            && (link.Push? ==> link.node.def == h.nodes[x].def)
            && (Asks(h, p.query, x) ==>
                  if r == p.count then link.Push?
                  else if h.nodes[x].def.rule.OptionalPlaceholder? then link.Skip? else link.RaisePlain?)
            && (!Asks(h, p.query, x) ==> link.Push? || link.Skip?)
  {
    assert RootAnswers(srv, p, h.nodes[x]);
    if Asks(h, p.query, x) {
      BadElements(h, srv, p, browsed, r, 0, []);
    }
  }

  /** How often the children of a list ask. */
  function Readings(h: TypeGraph, query: (NodeId, NodeId), cs: seq<nat>): nat
    requires forall k :: 0 <= k < |cs| ==> cs[k] < |h.nodes|
  {
    if cs == [] then 0 else Readings(h, query, cs[..|cs| - 1]) + if Asks(h, query, cs[|cs| - 1]) then 1 else 0
  }

  function Least(a: nat, b: nat): nat {
    if a <= b then a else b
  }

  lemma ReadingsStep(h: TypeGraph, p: Plan, cs: seq<nat>, i: nat)
    requires i < |cs| && forall k :: 0 <= k < |cs| ==> cs[k] < |h.nodes|
    ensures ReadingsAfter(h, p, Least(Readings(h, p.query, cs[..i]), p.count), cs[i]) == Least(Readings(h, p.query, cs[..i + 1]), p.count)
    ensures Readings(h, p.query, cs[..i + 1]) == Readings(h, p.query, cs[..i]) + if Asks(h, p.query, cs[i]) then 1 else 0
  {
    assert cs[..i + 1][..i] == cs[..i];
  }

  /** With repetitions: the child is dropped at place `k`, where the last failing element is
      met, and is there when it is declared again at place `l`. */
  lemma {:induction false} ComesBack(h: TypeGraph, srv: Server, p: Plan, browsed: set<NodeId>, cs: seq<nat>, k: nat, l: nat, i: nat, found: seq<Node>)
    requires FailWorld(h, srv, p) && WalkApart(h, h.typeMap[p.typ], p.walk) && (forall j :: 0 <= j < |cs| ==> cs[j] < |h.nodes|)
    requires k < l < |cs| && i <= |cs| && cs[k] == cs[l] && Asks(h, p.query, cs[k]) && p.count == Readings(h, p.query, cs[..k + 1])
    requires forall j :: 0 <= j <= k && Asks(h, p.query, cs[j]) ==> h.nodes[cs[j]].def.rule.OptionalPlaceholder?
    requires Met(p, browsed, Least(Readings(h, p.query, cs[..i]), p.count))
    requires i > l ==> Named(found, h.nodes[cs[l]].def.name)
    ensures var o := Children(h, srv, browsed, ROOT, cs, i, found).0; o.Ok? && Named(o.value, h.nodes[cs[l]].def.name)
    decreases |cs| - i
  {
    if i < |cs| {
      var r := Least(Readings(h, p.query, cs[..i]), p.count);
      RootLink(h, srv, p, browsed, r, cs[i]);
      ReadingsStep(h, p, cs, i);
      var (link, b) := LinkOf(h, srv, browsed, ROOT, cs[i]);
      if i > k {
        ReadingsGrow(h, p, cs, k + 1, i);
      }
      if link.Push? {
        NamedMore(found, link.node, h.nodes[cs[l]].def.name);
      }
      ComesBack(h, srv, p, b, cs, k, l, i + 1, if link.Push? then found + [link.node] else found);
    }
  }

  lemma {:induction false} ReadingsGrow(h: TypeGraph, p: Plan, cs: seq<nat>, i: nat, j: nat)
    requires i <= j <= |cs| && forall k :: 0 <= k < |cs| ==> cs[k] < |h.nodes|
    ensures Readings(h, p.query, cs[..i]) <= Readings(h, p.query, cs[..j])
    decreases j - i
  {
    if i < j {
      ReadingsGrow(h, p, cs, i, j - 1);
      ReadingsStep(h, p, cs, j - 1);
    }
  }

  /** Without repetitions the child is dropped for good. */
  lemma {:induction false} StaysAway(h: TypeGraph, srv: Server, p: Plan, browsed: set<NodeId>, cs: seq<nat>, k: nat, i: nat, found: seq<Node>)
    requires FailWorld(h, srv, p) && WalkApart(h, h.typeMap[p.typ], p.walk) && (forall j :: 0 <= j < |cs| ==> cs[j] < |h.nodes|)
    requires k < |cs| && i <= |cs| && Asks(h, p.query, cs[k]) && h.nodes[cs[k]].def.rule.OptionalPlaceholder?
    requires Readings(h, p.query, cs[..k]) < p.count
    requires forall j :: 0 <= j < |cs| && j != k ==> h.nodes[cs[j]].def.name != h.nodes[cs[k]].def.name
    requires Met(p, browsed, Least(Readings(h, p.query, cs[..i]), p.count)) && !Named(found, h.nodes[cs[k]].def.name)
    ensures var o := Children(h, srv, browsed, ROOT, cs, i, found).0; o.Ok? ==> !Named(o.value, h.nodes[cs[k]].def.name)
    decreases |cs| - i
  {
    if i < |cs| {
      var r := Least(Readings(h, p.query, cs[..i]), p.count);
      RootLink(h, srv, p, browsed, r, cs[i]);
      ReadingsStep(h, p, cs, i);
      var (link, b) := LinkOf(h, srv, browsed, ROOT, cs[i]);
      if link.Push? {
        NamedMore(found, link.node, h.nodes[cs[k]].def.name);
      }
      if link.Push? || link.Skip? {
        StaysAway(h, srv, p, b, cs, k, i + 1, if link.Push? then found + [link.node] else found);
      }
    }
  }

  // ---------- building the server ----------

  function FailIds(p: Plan): set<NodeId> {
    {ROOT} + set j, d | 0 <= j < p.count && 0 <= d < |p.walk| :: E(j, d)
  }

  /** How deep the walk is at the node. */
  function DepthOf(id: NodeId): nat {
    if |id.id| == 0 then 0 else |id.id| - 1
  }

  /** Whether the path leads along the walk. */
  predicate OnWalk(g: TypeGraph, p: Plan, id: NodeId, name: QualifiedName)
    requires forall k :: 0 <= k < |p.walk| ==> p.walk[k] < |g.nodes|
  {
    id != ROOT && DepthOf(id) < |p.walk| && name == g.nodes[p.walk[DepthOf(id)]].def.name
  }

  /** The next node on the walk. */
  function NextId(id: NodeId): NodeId {
    NodeId(id.uri, Es(DepthOf(id) + 1))
  }

  function FailPaths(g: TypeGraph, p: Plan): map<(NodeId, QualifiedName), NodeId>
    requires forall k :: 0 <= k < |p.walk| ==> p.walk[k] < |g.nodes|
  {
    var keys := set id, m | id in FailIds(p) && m in Names(g) :: (id, m);
    map k | k in keys && !(OnWalk(g, p, k.0, k.1) && DepthOf(k.0) == |p.walk| - 1)
      :: if OnWalk(g, p, k.0, k.1) then NextId(k.0) else NULL_ID
  }

  function BadElementsOf(p: Plan): seq<BrowseResult> {
    seq(p.count, j requires 0 <= j < p.count => BrowseResult(E(j, 0), p.typ, QualifiedName("", "")))
  }

  function FailLists(g: TypeGraph, p: Plan): map<(NodeId, NodeId, NodeId), seq<BrowseResult>>
    requires p.walk != [] && p.walk[|p.walk| - 1] < |g.nodes|
  {
    var keys := set id, q | id in FailIds(p) && q in Queries(g) :: (id, q.0, q.1);
    map k | k in keys && (k.0 == ROOT || !IsPlain(g, p.walk))
      :: if k.0 == ROOT && (k.1, k.2) == p.query then BadElementsOf(p) else []
  }

  function FailServer(g: TypeGraph, p: Plan): Server
    requires p.walk != [] && forall k :: 0 <= k < |p.walk| ==> p.walk[k] < |g.nodes|
  {
    Server(FailIds(p), FailPaths(g, p), FailLists(g, p), map id | id in FailIds(p) :: p.typ)
  }

  lemma EInServer(p: Plan, j: nat, d: nat)
    requires j < p.count && d < |p.walk|
    ensures E(j, d) in FailIds(p) && DepthOf(E(j, d)) == d && NextId(E(j, d)) == E(j, d + 1) && E(j, d) != ROOT
  {
    EDiffer();
  }

  lemma PathIsAnswered(g: TypeGraph, p: Plan, id: NodeId, m: QualifiedName)
    requires p.walk != [] && (forall k :: 0 <= k < |p.walk| ==> p.walk[k] < |g.nodes|) && id in FailIds(p) && m in Names(g)
    ensures var paths := FailPaths(g, p);
            if !OnWalk(g, p, id, m) then (id, m) in paths && paths[(id, m)] == NULL_ID
            else if DepthOf(id) == |p.walk| - 1 then (id, m) !in paths
            else (id, m) in paths && paths[(id, m)] == NextId(id)
  {
  }

  lemma ListIsAnswered(g: TypeGraph, p: Plan, id: NodeId, q: (NodeId, NodeId))
    requires p.walk != [] && p.walk[|p.walk| - 1] < |g.nodes| && id in FailIds(p) && q in Queries(g)
    ensures var lists := FailLists(g, p);
            if id != ROOT && IsPlain(g, p.walk) then (id, q.0, q.1) !in lists
            else (id, q.0, q.1) in lists && lists[(id, q.0, q.1)] == if id == ROOT && q == p.query then BadElementsOf(p) else []
  {
  }

  lemma FailPathsStay(g: TypeGraph, p: Plan)
    requires p.walk != [] && forall k :: 0 <= k < |p.walk| ==> p.walk[k] < |g.nodes|
    ensures forall k :: k in FailPaths(g, p) && FailPaths(g, p)[k] != NULL_ID ==> FailPaths(g, p)[k] in FailIds(p)
  {
    var paths := FailPaths(g, p);
    forall k | k in paths && paths[k] != NULL_ID
      ensures paths[k] in FailIds(p)
    {
      assert OnWalk(g, p, k.0, k.1);
      var j, d :| 0 <= j < p.count && 0 <= d < |p.walk| && k.0 == E(j, d);
      EInServer(p, j, d);
      EInServer(p, j, d + 1);
    }
  }

  lemma FailListsStay(g: TypeGraph, p: Plan)
    requires p.walk != [] && p.walk[|p.walk| - 1] < |g.nodes|
    ensures forall k, i :: k in FailLists(g, p) && 0 <= i < |FailLists(g, p)[k]| ==> FailLists(g, p)[k][i].nodeId in FailIds(p)
  {
    forall k: (NodeId, NodeId, NodeId), i | k in FailLists(g, p) && 0 <= i < |FailLists(g, p)[k]|
      ensures FailLists(g, p)[k][i].nodeId in FailIds(p)
    {
      EInServer(p, i, 0);
    }
  }

  lemma FailServerIsValid(g: TypeGraph, p: Plan)
    requires p.walk != [] && forall k :: 0 <= k < |p.walk| ==> p.walk[k] < |g.nodes|
    ensures FailServer(g, p).Valid()
  {
    FailPathsStay(g, p);
    FailListsStay(g, p);
    NodesDiffer();
    EDiffer();
  }

  lemma BadElementsAreListed(g: TypeGraph, p: Plan)
    requires p.walk != [] && (forall k :: 0 <= k < |p.walk| ==> p.walk[k] < |g.nodes|) && p.query in Queries(g)
    ensures var srv := FailServer(g, p);
            (ROOT, p.query.0, p.query.1) in srv.lists && BadList(srv, p, srv.lists[(ROOT, p.query.0, p.query.1)])
  {
    ListIsAnswered(g, p, ROOT, p.query);
    forall j | 0 <= j < p.count
      ensures E(j, 0) in FailIds(p)
    {
      EInServer(p, j, 0);
    }
  }

  lemma SameFailWalk(g: TypeGraph, h: TypeGraph, u: nat, walk: seq<nat>)
    requires SameDeclarations(g, h) && u < |g.nodes| && FailWalk(g, u, walk)
    ensures FailWalk(h, u, walk) && IsPlain(h, walk) == IsPlain(g, walk)
  {
    forall d | 0 <= d < |walk|
      ensures StepOk(h, u, walk, d) && h.nodes[walk[d]].def == g.nodes[walk[d]].def
    {
      assert StepOk(g, u, walk, d);
      assert SameNode(g.nodes[walk[d]], h.nodes[walk[d]]);
      assert SameNode(g.nodes[TypeAt(u, walk, d)], h.nodes[TypeAt(u, walk, d)]);
    }
  }

  lemma FailWalkIsApart(g: TypeGraph, h: TypeGraph, u: nat, walk: seq<nat>)
    requires SameDeclarations(g, h) && NamesApart(g) && u < |g.nodes| && FailWalk(g, u, walk) && FailWalk(h, u, walk)
    ensures WalkApart(h, u, walk)
  {
    forall d | 0 <= d < |walk|
      ensures forall k :: 0 <= k < |h.nodes[TypeAt(u, walk, d)].children| ==> Apart(h, walk[d], h.nodes[TypeAt(u, walk, d)].children[k])
    {
      assert StepOk(g, u, walk, d);
      ApartInDedup(g, h, TypeAt(u, walk, d), walk[d]);
    }
  }

  lemma FailServerAnswers(g: TypeGraph, h: TypeGraph, p: Plan, t: nat, j: nat, d: nat)
    requires SameDeclarations(g, h) && t < |h.nodes| && j < p.count && d < |p.walk|
    requires forall k :: 0 <= k < |p.walk| ==> p.walk[k] < |g.nodes|
    requires IsPlain(h, p.walk) == IsPlain(g, p.walk)
    ensures ChainAnswers(h, FailServer(g, p), p, j, d, h.nodes[t])
  {
    assert SameNode(g.nodes[t], h.nodes[t]) && SameNode(g.nodes[p.walk[d]], h.nodes[p.walk[d]]);
    EInServer(p, j, d);
    PathIsAnswered(g, p, E(j, d), h.nodes[t].def.name);
    ListIsAnswered(g, p, E(j, d), (h.nodes[t].reference, h.nodes[t].typeId));
  }

  lemma FailRootAnswers(g: TypeGraph, h: TypeGraph, p: Plan, t: nat)
    requires SameDeclarations(g, h) && t < |h.nodes|
    requires p.walk != [] && forall k :: 0 <= k < |p.walk| ==> p.walk[k] < |g.nodes|
    ensures RootAnswers(FailServer(g, p), p, h.nodes[t])
  {
    assert SameNode(g.nodes[t], h.nodes[t]);
    PathIsAnswered(g, p, ROOT, h.nodes[t].def.name);
    ListIsAnswered(g, p, ROOT, (h.nodes[t].reference, h.nodes[t].typeId));
  }

  lemma FailServerFails(g: TypeGraph, h: TypeGraph, p: Plan)
    requires SameDeclarations(g, h) && p.typ in g.typeMap && FailWalk(g, g.typeMap[p.typ], p.walk) && p.query in Queries(g)
    ensures FailWorld(h, FailServer(g, p), p)
  {
    FailServerIsValid(g, p);
    SameFailWalk(g, h, g.typeMap[p.typ], p.walk);
    BadElementsAreListed(g, p);
    forall t | 0 <= t < |h.nodes|
      ensures RootAnswers(FailServer(g, p), p, h.nodes[t])
    {
      FailRootAnswers(g, h, p, t);
    }
    forall t, j, d | 0 <= t < |h.nodes| && 0 <= j < p.count && 0 <= d < |p.walk|
      ensures ChainAnswers(h, FailServer(g, p), p, j, d, h.nodes[t])
    {
      FailServerAnswers(g, h, p, t, j, d);
    }
    forall j, d | 0 <= j < p.count && 0 <= d < |p.walk|
      ensures E(j, d) in FailIds(p)
    {
      EInServer(p, j, d);
    }
  }

  // ---------- a repeated placeholder tells the graphs apart ----------

  lemma {:induction false} FirstPlace(cs: seq<nat>, i: nat) returns (k: nat)
    requires i < |cs|
    ensures k <= i && cs[k] == cs[i] && cs[k] !in cs[..k]
    decreases i
  {
    k := i;
    if cs[i] in cs[..i] {
      var j :| 0 <= j < i && cs[..i][j] == cs[i];
      k := FirstPlace(cs, j);
    }
  }

  lemma {:induction false} FirstsAskLess(h: TypeGraph, query: (NodeId, NodeId), cs: seq<nat>)
    requires (forall k :: 0 <= k < |cs| ==> cs[k] < |h.nodes|) && forall k :: 0 <= k < |Firsts(cs)| ==> Firsts(cs)[k] < |h.nodes|
    ensures Readings(h, query, Firsts(cs)) <= Readings(h, query, cs)
    decreases |cs|
  {
    if cs != [] {
      var front := cs[..|cs| - 1];
      FirstsBound(front, |h.nodes|);
      FirstsAskLess(h, query, front);
      if cs[|cs| - 1] !in front {
        assert Firsts(cs)[..|Firsts(cs)| - 1] == Firsts(front);
      }
    }
  }

  lemma {:induction false} SameReadings(g: TypeGraph, h: TypeGraph, query: (NodeId, NodeId), cs: seq<nat>)
    requires SameDeclarations(g, h) && forall k :: 0 <= k < |cs| ==> cs[k] < |g.nodes|
    ensures Readings(h, query, cs) == Readings(g, query, cs)
    decreases |cs|
  {
    if cs != [] {
      SameReadings(g, h, query, cs[..|cs| - 1]);
      assert SameNode(g.nodes[cs[|cs| - 1]], h.nodes[cs[|cs| - 1]]);
    }
  }

  /** Where the child at place `k` is without the repetitions. */
  lemma FirstsPlace(h: TypeGraph, t: nat, cs: seq<nat>, k: nat)
    requires h.Valid() && NamesApart(h) && t < |h.nodes| && h.nodes[t].children == Firsts(cs)
    requires k < |cs| && cs[k] !in cs[..k]
    ensures var k' := |Firsts(cs[..k])|;
            && k' < |Firsts(cs)| && Firsts(cs)[k'] == cs[k] && Firsts(cs)[..k'] == Firsts(cs[..k])
            && forall j :: 0 <= j < |Firsts(cs)| && j != k' ==> h.nodes[Firsts(cs)[j]].def.name != h.nodes[Firsts(cs)[k']].def.name
  {
    FirstsPrefix(cs, k);
    FirstsExtends(cs, k);
    FirstsDistinct(cs);
    var k' := |Firsts(cs[..k])|;
    forall j | 0 <= j < |Firsts(cs)| && j != k'
      ensures h.nodes[Firsts(cs)[j]].def.name != h.nodes[Firsts(cs)[k']].def.name
    {
      assert Apart(h, h.nodes[t].children[j], h.nodes[t].children[k']);
    }
  }

  lemma WithRepetitions(g: TypeGraph, srv: Server, p: Plan, t: nat, k: nat, l: nat)
    requires FailWorld(g, srv, p) && WalkApart(g, g.typeMap[p.typ], p.walk) && t < |g.nodes|
    requires var cs := g.nodes[t].children;
             && k < l < |cs| && cs[k] == cs[l] && Asks(g, p.query, cs[k]) && p.count == Readings(g, p.query, cs[..k + 1])
             && forall j :: 0 <= j <= k && Asks(g, p.query, cs[j]) ==> g.nodes[cs[j]].def.rule.OptionalPlaceholder?
    ensures var o := Transform(g, srv, {}, ROOT, t).0;
            o.Ok? && o.value.Simple? && Named(o.value.children, g.nodes[g.nodes[t].children[k]].def.name)
  {
    EDiffer();
    var cs := g.nodes[t].children;
    assert cs[..0] == [];
    ComesBack(g, srv, p, {} + {ROOT}, cs, k, l, 0, []);
  }

  lemma WithoutRepetitions(h: TypeGraph, srv: Server, p: Plan, t: nat, k: nat)
    requires FailWorld(h, srv, p) && WalkApart(h, h.typeMap[p.typ], p.walk) && t < |h.nodes|
    requires var cs := h.nodes[t].children;
             && k < |cs| && Asks(h, p.query, cs[k]) && h.nodes[cs[k]].def.rule.OptionalPlaceholder?
             && Readings(h, p.query, cs[..k]) < p.count
             && forall j :: 0 <= j < |cs| && j != k ==> h.nodes[cs[j]].def.name != h.nodes[cs[k]].def.name
    ensures var o := Transform(h, srv, {}, ROOT, t).0;
            o.Ok? ==> o.value.Simple? && !Named(o.value.children, h.nodes[h.nodes[t].children[k]].def.name)
  {
    EDiffer();
    var cs := h.nodes[t].children;
    assert cs[..0] == [];
    StaysAway(h, srv, p, {} + {ROOT}, cs, k, 0, []);
  }

  /** The failing server for the repeated placeholder at place `k`. */
  function PlanFor(g: TypeGraph, cs: seq<nat>, k: nat, typ: NodeId, walk: seq<nat>): Plan
    requires k < |cs| && forall j :: 0 <= j < |cs| ==> cs[j] < |g.nodes|
  {
    var query := (g.nodes[cs[k]].reference, g.nodes[cs[k]].typeId);
    Plan(typ, walk, query, Readings(g, query, cs[..k + 1]))
  }

  lemma PlaceholderComesBack(g: TypeGraph, srv: Server, t: nat, k: nat, l: nat, typ: NodeId, walk: seq<nat>)
    requires g.Valid() && t < |g.nodes| && k < l < |g.nodes[t].children|
    requires var cs := g.nodes[t].children;
             cs[k] == cs[l] && g.nodes[cs[k]].def.rule.OptionalPlaceholder? && !ReadBefore(g, cs, k)
    requires var p := PlanFor(g, g.nodes[t].children, k, typ, walk); FailWorld(g, srv, p) && WalkApart(g, g.typeMap[typ], walk)
    ensures var o := Transform(g, srv, {}, ROOT, t).0;
            o.Ok? && o.value.Simple? && Named(o.value.children, g.nodes[g.nodes[t].children[k]].def.name)
  {
    WithRepetitions(g, srv, PlanFor(g, g.nodes[t].children, k, typ, walk), t, k, l);
  }

  lemma PlaceholderStaysAway(g: TypeGraph, h: TypeGraph, srv: Server, t: nat, k: nat, typ: NodeId, walk: seq<nat>)
    requires SameDeclarations(g, h) && NamesApart(h) && t < |g.nodes| && k < |g.nodes[t].children|
    requires var cs := g.nodes[t].children;
             h.nodes[t].children == Firsts(cs) && cs[k] !in cs[..k] && g.nodes[cs[k]].def.rule.OptionalPlaceholder?
    requires var p := PlanFor(g, g.nodes[t].children, k, typ, walk); FailWorld(h, srv, p) && WalkApart(h, h.typeMap[typ], walk)
    ensures var o := Transform(h, srv, {}, ROOT, t).0;
            o.Ok? ==> o.value.Simple? && !Named(o.value.children, g.nodes[g.nodes[t].children[k]].def.name)
  {
    var cs := g.nodes[t].children;
    var p := PlanFor(g, cs, k, typ, walk);
    assert SameNode(g.nodes[cs[k]], h.nodes[cs[k]]);
    FirstsPlace(h, t, cs, k);
    ReadingsStep(g, p, cs, k);
    SameReadings(g, h, p.query, cs[..k]);
    FirstsBound(cs[..k], |h.nodes|);
    FirstsAskLess(h, p.query, cs[..k]);
    WithoutRepetitions(h, srv, p, t, |Firsts(cs[..k])|);
  }

  lemma FailServerFor(g: TypeGraph, h: TypeGraph, p: Plan)
    requires SameDeclarations(g, h) && NamesApart(g)
    requires p.typ in g.typeMap && FailWalk(g, g.typeMap[p.typ], p.walk) && p.query in Queries(g)
    ensures FailWorld(h, FailServer(g, p), p) && WalkApart(h, h.typeMap[p.typ], p.walk)
  {
    FailServerFails(g, h, p);
    FailWalkIsApart(g, h, g.typeMap[p.typ], p.walk);
  }

  lemma NamesStayApart(g: TypeGraph, h: TypeGraph)
    requires SameDeclarations(g, h) && NamesApart(g)
    ensures NamesApart(h)
  {
    forall t, i, j | 0 <= t < |h.nodes| && 0 <= i < |h.nodes[t].children| && 0 <= j < |h.nodes[t].children|
      ensures Apart(h, h.nodes[t].children[i], h.nodes[t].children[j])
    {
      assert SameNode(g.nodes[t], h.nodes[t]) && h.nodes[t].children[i] in g.nodes[t].children;
      ApartInDedup(g, h, t, h.nodes[t].children[i]);
    }
  }

  lemma StillReadLater(g: TypeGraph, cs: seq<nat>, k: nat, i: nat)
    requires (forall j :: 0 <= j < |cs| ==> cs[j] < |g.nodes|) && k <= i < |cs| && cs[k] == cs[i]
    ensures ReadBefore(g, cs, k) ==> ReadBefore(g, cs, i)
  {
  }

  lemma PlaceholderTreesDiffer(g: TypeGraph, srv: Server, t: nat, k: nat, l: nat, typ: NodeId, walk: seq<nat>)
    requires SameDeclarations(g, Dedup(g)) && NamesApart(Dedup(g)) && t < |g.nodes| && k < l < |g.nodes[t].children|
    requires var cs := g.nodes[t].children;
             && cs[k] == cs[l] && cs[k] !in cs[..k]
             && g.nodes[cs[k]].def.rule.OptionalPlaceholder? && !ReadBefore(g, cs, k)
    requires var p := PlanFor(g, g.nodes[t].children, k, typ, walk);
             && FailWorld(g, srv, p) && WalkApart(g, g.typeMap[typ], walk)
             && FailWorld(Dedup(g), srv, p) && WalkApart(Dedup(g), g.typeMap[typ], walk)
    ensures !SameTree(g, srv, ROOT, t)
  {
    PlaceholderComesBack(g, srv, t, k, l, typ, walk);
    PlaceholderStaysAway(g, Dedup(g), srv, t, k, typ, walk);
    TreesDiffer(g, srv, t, g.nodes[g.nodes[t].children[k]].def.name);
  }

  /** The two readings differ on the failing server. */
  lemma FailServerTells(g: TypeGraph, t: nat, k: nat, l: nat, typ: NodeId, walk: seq<nat>)
    requires g.Valid() && NamesApart(g) && t < |g.nodes| && k < l < |g.nodes[t].children|
    requires var cs := g.nodes[t].children;
             && cs[k] == cs[l] && cs[k] !in cs[..k]
             && g.nodes[cs[k]].def.rule.OptionalPlaceholder? && !ReadBefore(g, cs, k)
    requires typ in g.typeMap && FailWalk(g, g.typeMap[typ], walk)
    ensures var srv := FailServer(g, PlanFor(g, g.nodes[t].children, k, typ, walk));
            srv.Valid() && ROOT in srv.ids && !SameTree(g, srv, ROOT, t)
  {
    var p := PlanFor(g, g.nodes[t].children, k, typ, walk);
    DedupDeclaresTheSame(g);
    NamesStayApart(g, Dedup(g));
    FailServerFor(g, g, p);
    FailServerFor(g, Dedup(g), p);
    PlaceholderTreesDiffer(g, FailServer(g, p), t, k, l, typ, walk);
  }

  /** A repeated optional placeholder tells the graphs apart, if elements can fail and no
      mandatory placeholder before it reads the same elements. */
  lemma UnguardedPlaceholder(g: TypeGraph, t: nat, i: nat)
    requires g.Valid() && NamesApart(g) && t < |g.nodes| && i < |g.nodes[t].children|
    requires var cs := g.nodes[t].children;
             g.nodes[cs[i]].def.rule.OptionalPlaceholder? && cs[i] in cs[i + 1..] && !NoElementCanFail(g) && !ReadBefore(g, cs, i)
    ensures exists srv: Server, start :: srv.Valid() && start in srv.ids && !SameTree(g, srv, start, t)
  {
    var cs := g.nodes[t].children;
    var k := FirstPlace(cs, i);
    var l :| 0 <= l < |cs[i + 1..]| && cs[i + 1..][l] == cs[i];
    assert cs[i + 1 + l] == cs[k];
    StillReadLater(g, cs, k, i);
    var typ :| typ in g.typeMap && CanFail(g, g.typeMap[typ]);
    FailingTypeHasWalk(g, g.typeMap[typ]);
    var walk :| FailWalk(g, g.typeMap[typ], walk);
    FailServerTells(g, t, k, i + 1 + l, typ, walk);
  }

  /** On every type graph whose siblings have different names: repeated declarations never
      change what a fresh client reads, whatever the server answers, exactly if the graph is
      guarded. */
  lemma GuardedIff(g: TypeGraph)
    requires g.Valid() && NamesApart(g)
    ensures Guarded(g) <==>
            forall srv: Server, start, t :: srv.Valid() && start in srv.ids && 0 <= t < |g.nodes| ==> SameTree(g, srv, start, t)
  {
    if Guarded(g) {
      forall srv: Server, start, t | srv.Valid() && start in srv.ids && 0 <= t < |g.nodes|
        ensures SameTree(g, srv, start, t)
      {
        GuardedReadsTheSame(g, srv, start, t);
      }
    } else {
      var t, i :| 0 <= t < |g.nodes| && 0 <= i < |g.nodes[t].children| && !GuardedAt(g, g.nodes[t].children, i);
      if g.nodes[g.nodes[t].children[i]].def.rule.Optional? {
        UnguardedOptional(g, t, i);
      } else {
        UnguardedPlaceholder(g, t, i);
      }
    }
  }

  // ---------- one graph on which the published JSON differs ----------

  const VARIABLE := Def(NodeClass.Variable, ModellingRule.Optional, QualifiedName("", "v"))
  const MACHINE := Def(NodeClass.Object, ModellingRule.Mandatory, QualifiedName("", "m"))

  /** A machine type that lists its optional variable twice; the variable has a mandatory
      placeholder. */
  const REPEATING := TypeGraph([
    TypeNode(MACHINE, NULL_ID, NULL_ID, [1, 1]),
    TypeNode(VARIABLE, NULL_ID, NULL_ID, [2]),
    TypeNode(Def(NodeClass.Object, ModellingRule.MandatoryPlaceholder, QualifiedName("", "p")), NULL_ID, NULL_ID, [])],
    map[])

  /** The variable is there and cannot be browsed. */
  const CLOSED := Server({ROOT, BELOW}, map[(ROOT, QualifiedName("", "v")) := BELOW], map[], map[])

  lemma VariableFails(h: TypeGraph)
    requires h.Valid() && CLOSED.Valid() && |h.nodes| == 3 && h.nodes[1] == REPEATING.nodes[1]
    requires h.nodes[2].def == REPEATING.nodes[2].def
    ensures LinkOf(h, CLOSED, {ROOT}, ROOT, 1) == (Skip, {ROOT, BELOW})
    ensures LinkOf(h, CLOSED, {ROOT, BELOW}, ROOT, 1) == (Push(Simple(BELOW, VARIABLE, [], Null)), {ROOT, BELOW})
  {
    NodesDiffer();
    assert LinkOf(h, CLOSED, {ROOT, BELOW}, BELOW, 2) == (RaisePlain, {ROOT, BELOW});
    assert Children(h, CLOSED, {ROOT, BELOW}, BELOW, [2], 0, []) == (Plain, {ROOT, BELOW});
    assert {ROOT} + {BELOW} == {ROOT, BELOW};
  }

  lemma ReadTwice(h: TypeGraph)
    requires h.Valid() && CLOSED.Valid() && |h.nodes| == 3 && h.nodes[1] == REPEATING.nodes[1]
    requires h.nodes[2].def == REPEATING.nodes[2].def && ROOT in CLOSED.ids
    ensures Children(h, CLOSED, {ROOT}, ROOT, [1, 1], 0, []).0 == Ok([Simple(BELOW, VARIABLE, [], Null)])
    ensures Children(h, CLOSED, {ROOT}, ROOT, [1], 0, []).0 == Ok([])
  {
    VariableFails(h);
    var leaf := Simple(BELOW, VARIABLE, [], Null);
    assert [] + [leaf] == [leaf];
    assert Children(h, CLOSED, {ROOT, BELOW}, ROOT, [1, 1], 2, [leaf]).0 == Ok([leaf]);
    assert Children(h, CLOSED, {ROOT, BELOW}, ROOT, [1, 1], 1, []).0 == Ok([leaf]);
    assert Children(h, CLOSED, {ROOT, BELOW}, ROOT, [1], 1, []).0 == Ok([]);
  }

  lemma TreeOf(h: TypeGraph)
    requires h.Valid() && CLOSED.Valid() && |h.nodes| == 3 && h.nodes[1] == REPEATING.nodes[1]
    requires h.nodes[0].def == MACHINE && h.nodes[2].def == REPEATING.nodes[2].def && ROOT in CLOSED.ids
    ensures h.nodes[0].children == [1, 1] ==>
              Transform(h, CLOSED, {}, ROOT, 0).0 == Ok(Simple(ROOT, MACHINE, [Simple(BELOW, VARIABLE, [], Null)], Null))
    ensures h.nodes[0].children == [1] ==> Transform(h, CLOSED, {}, ROOT, 0).0 == Ok(Simple(ROOT, MACHINE, [], Null))
  {
    ReadTwice(h);
    assert {} + {ROOT} == {ROOT};
  }

  lemma OnlyKid(n: Node, j: Json)
    requires ToJson(n) == Some(j) && !j.Null?
    ensures ToKids([n]) == Some(Kids({n.def.name}, map[n.def.name.name := j]))
  {
    assert [n][..0] == [];
    assert {} + {n.def.name} == {n.def.name};
  }

  lemma OnlyKidFed(n: Node, seen: set<NodeId>, feed: map<NodeId, Json>)
    requires Published(n)
    ensures FeedChildren([n], seen, feed).0 == [Feed(n, seen, feed).0]
  {
    assert [n][..0] == [];
    assert [] + [Feed(n, seen, feed).0] == [Feed(n, seen, feed).0];
  }

  /** A machine with one variable publishes its value, a machine without children nothing. */
  lemma LeafIsPublished(leaf: Node, root: Node, feed: map<NodeId, Json>)
    requires leaf == Simple(BELOW, VARIABLE, [], Null) && root == Simple(ROOT, MACHINE, [leaf], Null)
    requires BELOW in feed && !feed[BELOW].Null?
    ensures ToJson(Feed(root, {}, feed).0) == Some(Record(map["v" := feed[BELOW]]))
  {
    var fed := Feed(leaf, {}, feed).0;
    assert fed == Simple(BELOW, VARIABLE, [], feed[BELOW]);
    OnlyKidFed(leaf, {}, feed);
    OnlyKid(fed, feed[BELOW]);
    var all := Simple(ROOT, MACHINE, [fed], Null);
    assert Feed(root, {}, feed).0 == all;
    var members := ToKids(all.children).value.members;
    assert VARIABLE.name.name in members && members == map["v" := feed[BELOW]];
  }

  lemma NothingIsPublished(root: Node, feed: map<NodeId, Json>)
    requires root == Simple(ROOT, MACHINE, [], Null)
    ensures ToJson(Feed(root, {}, feed).0) == Some(Null)
  {
  }

  lemma MachineJsonOf(h: TypeGraph, srv: Server, n: Node, feed: map<NodeId, Json>)
    requires h.Valid() && srv.Valid() && ROOT in srv.ids && 0 < |h.nodes| && Transform(h, srv, {}, ROOT, 0).0 == Ok(n)
    ensures MachineJson(h, srv, ROOT, 0, feed) == Ok(ToJson(Feed(n, {}, feed).0))
  {
  }

  lemma SeqFirsts(c: nat)
    ensures Firsts([c]) == [c] && Firsts([c, c]) == [c] && Firsts([]) == []
  {
    assert [c, c][..1] == [c] && [c][..0] == [];
    assert Firsts([c]) == [] + [c];
  }

  lemma RepeatingIsValid()
    ensures REPEATING.Valid() && CLOSED.Valid() && ROOT in CLOSED.ids && Dedup(REPEATING).Valid()
    ensures Dedup(REPEATING).nodes[0].children == [1] && Dedup(REPEATING).nodes[1] == REPEATING.nodes[1]
  {
    NodesDiffer();
    DedupIsValid(REPEATING);
    SeqFirsts(1);
    SeqFirsts(2);
  }

  /** With the repetition the value of the variable is published, without it nothing is. */
  lemma RepetitionShows(feed: map<NodeId, Json>)
    requires BELOW in feed && !feed[BELOW].Null?
    ensures REPEATING.Valid() && CLOSED.Valid() && ROOT in CLOSED.ids && Dedup(REPEATING).Valid()
    ensures MachineJson(REPEATING, CLOSED, ROOT, 0, feed) == Ok(Some(Record(map["v" := feed[BELOW]])))
    ensures MachineJson(Dedup(REPEATING), CLOSED, ROOT, 0, feed) == Ok(Some(Null))
  {
    RepeatingIsValid();
    TreeOf(REPEATING);
    TreeOf(Dedup(REPEATING));
    var leaf := Simple(BELOW, VARIABLE, [], Null);
    var root, bare := Simple(ROOT, MACHINE, [leaf], Null), Simple(ROOT, MACHINE, [], Null);
    LeafIsPublished(leaf, root, feed);
    NothingIsPublished(bare, feed);
    MachineJsonOf(REPEATING, CLOSED, root, feed);
    MachineJsonOf(Dedup(REPEATING), CLOSED, bare, feed);
  }
}
