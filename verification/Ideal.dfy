/** The meaning of `TransformToNodeIds` on address spaces without repeated nodes: every
    declared child is read on its own, with no memory of what was browsed before. */
module Ideal {
  import opened OpcUa
  import opened Instance

  // ---------- address spaces without repeated nodes ----------

  /** `parent` and `depth` of every node id, witnesses that the answers form a forest. */
  datatype Shape = Shape(parent: map<NodeId, NodeId>, depth: map<NodeId, nat>, bound: nat) {
    function Height(n: NodeId): nat {
      if n in depth && depth[n] <= bound then bound - depth[n] else 0
    }
  }

  predicate Under(sh: Shape, child: NodeId, n: NodeId) {
    && n in sh.depth && child in sh.depth && child in sh.parent
    && sh.parent[child] == n && sh.depth[child] == sh.depth[n] + 1 <= sh.bound
  }

  predicate Forest(srv: Server, sh: Shape) {
    && sh.depth.Keys == srv.ids
    && (forall k :: k in srv.paths && srv.paths[k] != NULL_ID ==> Under(sh, srv.paths[k], k.0))
    && (forall k, i :: k in srv.lists && 0 <= i < |srv.lists[k]| ==> Under(sh, srv.lists[k][i].nodeId, k.0))
  }

  /** The node ids that the declared child `c` can lead to from node `n`. */
  function Targets(g: TypeGraph, srv: Server, n: NodeId, c: nat): set<NodeId>
    requires c < |g.nodes|
  {
    var child := g.nodes[c];
    match child.def.rule
    case NoRule => {}
    case Optional | Mandatory =>
      var path := (n, child.def.name);
      if path in srv.paths && srv.paths[path] != NULL_ID then {srv.paths[path]} else {}
    case OptionalPlaceholder | MandatoryPlaceholder =>
      var query := (n, child.reference, child.typeId);
      if query in srv.lists then set e | e in srv.lists[query] :: e.nodeId else {}
  }

  predicate DistinctTargets(g: TypeGraph, srv: Server, n: NodeId, cs: seq<nat>)
    requires forall k :: 0 <= k < |cs| ==> cs[k] < |g.nodes|
  {
    forall i, j :: 0 <= i < j < |cs| ==> Targets(g, srv, n, cs[i]) !! Targets(g, srv, n, cs[j])
  }

  predicate DistinctList(list: seq<BrowseResult>) {
    forall i, j :: 0 <= i < j < |list| ==> list[i].nodeId != list[j].nodeId
  }

  predicate NoRepeats(g: TypeGraph, srv: Server, sh: Shape) {
    && g.Valid() && srv.Valid() && Forest(srv, sh)
    && (forall n, t :: n in srv.ids && 0 <= t < |g.nodes| ==> DistinctTargets(g, srv, n, g.nodes[t].children))
    && (forall k :: k in srv.lists ==> DistinctList(srv.lists[k]))
  }

  // ---------- the ideal reading ----------

  /** The first exception wins; without one, the pushed nodes in declaration order. */
  function Combine(links: seq<Link>): Outcome<seq<Node>> {
    if links == [] then Ok([])
    else
      match links[0]
      case RaiseInvalidChild => InvalidChild
      case RaisePlain => Plain
      case Skip => Combine(links[1..])
      case Push(n) =>
        match Combine(links[1..])
        case Ok(rest) => Ok([n] + rest)
        case InvalidChild => InvalidChild
        case Plain => Plain
  }

  function CombineElements(os: seq<Outcome<Option<Element>>>): Outcome<seq<Element>> {
    if os == [] then Ok([])
    else
      match os[0]
      case InvalidChild => InvalidChild
      case Plain => Plain
      case Ok(e) =>
        match CombineElements(os[1..])
        case Ok(rest) => Ok((if e.Some? then [e.value] else []) + rest)
        case InvalidChild => InvalidChild
        case Plain => Plain
  }

  function IdealNode(g: TypeGraph, srv: Server, sh: Shape, start: NodeId, t: nat): Outcome<Node>
    requires g.Valid() && srv.Valid() && Forest(srv, sh) && start in srv.ids && t < |g.nodes|
    decreases sh.Height(start), 2
  {
    var cs := g.nodes[t].children;
    match Combine(seq(|cs|, i requires 0 <= i < |cs| => IdealLink(g, srv, sh, start, cs[i])))
    case Ok(children) => Ok(Simple(start, g.nodes[t].def, children, Null))
    case InvalidChild => InvalidChild
    case Plain => Plain
  }

  function IdealLink(g: TypeGraph, srv: Server, sh: Shape, start: NodeId, c: nat): Link
    requires g.Valid() && srv.Valid() && Forest(srv, sh) && start in srv.ids && c < |g.nodes|
    decreases sh.Height(start), 1
  {
    var child := g.nodes[c];
    match child.def.rule
    case NoRule => Skip
    case Optional | Mandatory =>
      var path := (start, child.def.name);
      if path !in srv.paths then SimpleLink(child.def.rule, Plain)
      else if srv.paths[path] == NULL_ID then Skip
      else SimpleLink(child.def.rule, IdealNode(g, srv, sh, srv.paths[path], c))
    case OptionalPlaceholder | MandatoryPlaceholder =>
      var query := (start, child.reference, child.typeId);
      if query !in srv.lists then PlaceholderLink(child.def, Plain)
      else
        var list := srv.lists[query];
        var os := seq(|list|, i requires 0 <= i < |list| => IdealElement(g, srv, sh, start, list[i]));
        PlaceholderLink(child.def, CombineElements(os))
  }

  function IdealElement(g: TypeGraph, srv: Server, sh: Shape, start: NodeId, e: BrowseResult): Outcome<Option<Element>>
    requires g.Valid() && srv.Valid() && Forest(srv, sh) && start in srv.ids && e.nodeId in srv.ids && Under(sh, e.nodeId, start)
    decreases sh.Height(start), 0
  {
    var typ := ElementType(srv, e);
    if typ.None? then Plain
    else if typ.value !in g.typeMap then Ok(None)
    else
      match IdealNode(g, srv, sh, e.nodeId, g.typeMap[typ.value])
      case Ok(n) => Ok(Some(Element(e.browseName, typ.value, n)))
      case InvalidChild => InvalidChild
      case Plain => Plain
  }

  // ---------- the memory of browsed nodes does not matter ----------

  /** `x` is `n` or one of its descendants. */
  predicate Below(sh: Shape, x: NodeId, n: NodeId)
    decreases if x in sh.depth then sh.depth[x] else 0
  {
    x == n ||
    (x in sh.depth && x in sh.parent && sh.parent[x] in sh.depth && sh.depth[sh.parent[x]] < sh.depth[x] &&
     Below(sh, sh.parent[x], n))
  }

  lemma {:induction false} BelowIsDeeper(sh: Shape, x: NodeId, n: NodeId)
    requires x in sh.depth && n in sh.depth && Below(sh, x, n)
    ensures x == n || sh.depth[x] > sh.depth[n]
    decreases sh.depth[x]
  {
    if x != n {
      BelowIsDeeper(sh, sh.parent[x], n);
    }
  }

  lemma {:induction false} BelowChild(sh: Shape, x: NodeId, child: NodeId, n: NodeId)
    requires x in sh.depth && Under(sh, child, n) && Below(sh, x, child)
    ensures Below(sh, x, n) && x != n
    decreases sh.depth[x]
  {
    BelowIsDeeper(sh, x, child);
    if x != child {
      BelowChild(sh, sh.parent[x], child, n);
    }
  }

  lemma {:induction false} BelowUnique(sh: Shape, x: NodeId, a: NodeId, b: NodeId)
    requires x in sh.depth && a in sh.depth && b in sh.depth && sh.depth[a] == sh.depth[b]
    requires Below(sh, x, a) && Below(sh, x, b)
    ensures a == b
    decreases sh.depth[x]
  {
    if x != a && x != b {
      BelowUnique(sh, sh.parent[x], a, b);
    } else {
      BelowIsDeeper(sh, x, a);
      BelowIsDeeper(sh, x, b);
    }
  }

  /** No browsed node lies in the subtrees of `roots`. */
  predicate Clear(sh: Shape, browsed: set<NodeId>, roots: set<NodeId>) {
    forall x, y :: x in browsed && y in roots ==> !Below(sh, x, y)
  }

  /** Everything browsed since `before` lies in the subtrees of `roots`. */
  predicate Grown(sh: Shape, before: set<NodeId>, after: set<NodeId>, roots: set<NodeId>) {
    forall x :: x in after && x !in before ==> exists y :: y in roots && Below(sh, x, y)
  }

  lemma TargetsAreUnder(g: TypeGraph, srv: Server, sh: Shape, n: NodeId, c: nat)
    requires Forest(srv, sh) && c < |g.nodes|
    ensures forall y :: y in Targets(g, srv, n, c) ==> Under(sh, y, n)
  {
    var child := g.nodes[c];
    if child.def.rule.IsPlaceholder() {
      var query := (n, child.reference, child.typeId);
      if query in srv.lists {
        forall y | y in Targets(g, srv, n, c)
          ensures Under(sh, y, n)
        {
          var i :| 0 <= i < |srv.lists[query]| && srv.lists[query][i].nodeId == y;
        }
      }
    }
  }

  /** What was browsed below `done` leaves a disjoint set of siblings clear. */
  lemma SiblingsStayClear(sh: Shape, n: NodeId, before: set<NodeId>, after: set<NodeId>, done: set<NodeId>, next: set<NodeId>)
    requires done !! next && after <= sh.depth.Keys
    requires (forall y :: y in done ==> Under(sh, y, n)) && (forall y :: y in next ==> Under(sh, y, n))
    requires Grown(sh, before, after, done) && Clear(sh, before, next)
    ensures Clear(sh, after, next)
  {
    forall x, y | x in after && y in next
      ensures !Below(sh, x, y)
    {
      if x !in before && Below(sh, x, y) {
        var d :| d in done && Below(sh, x, d);
        BelowUnique(sh, x, d, y);
      }
    }
  }

  lemma GrownBelowParent(sh: Shape, n: NodeId, before: set<NodeId>, after: set<NodeId>, done: set<NodeId>)
    requires after <= sh.depth.Keys && Grown(sh, before, after, done)
    requires forall y :: y in done ==> Under(sh, y, n)
    ensures Grown(sh, before, after, {n})
  {
    forall x | x in after && x !in before
      ensures Below(sh, x, n)
    {
      var d :| d in done && Below(sh, x, d);
      BelowChild(sh, x, d, n);
    }
  }

  function After<T>(found: seq<T>, o: Outcome<seq<T>>): Outcome<seq<T>> {
    match o
    case Ok(rest) => Ok(found + rest)
    case InvalidChild => InvalidChild
    case Plain => Plain
  }

  lemma AfterSteps<T>(found: seq<T>, n: T, o: Outcome<seq<T>>)
    ensures After(found + [n], o) == After(found, if o.Ok? then Ok([n] + o.value) else o)
  {
    if o.Ok? {
      assert found + [n] + o.value == found + ([n] + o.value);
    }
  }

  lemma AfterNothing<T>(o: Outcome<seq<T>>)
    ensures After([], o) == o
  {
    if o.Ok? {
      assert [] + o.value == o.value;
    }
  }

  function Links(g: TypeGraph, srv: Server, sh: Shape, start: NodeId, cs: seq<nat>): seq<Link>
    requires g.Valid() && srv.Valid() && Forest(srv, sh) && start in srv.ids
    requires forall k :: 0 <= k < |cs| ==> cs[k] < |g.nodes|
  {
    seq(|cs|, i requires 0 <= i < |cs| => IdealLink(g, srv, sh, start, cs[i]))
  }

  lemma NodeCombinesLinks(g: TypeGraph, srv: Server, sh: Shape, start: NodeId, t: nat)
    requires g.Valid() && srv.Valid() && Forest(srv, sh) && start in srv.ids && t < |g.nodes|
    ensures IdealNode(g, srv, sh, start, t) ==
            match Combine(Links(g, srv, sh, start, g.nodes[t].children))
            case Ok(children) => Ok(Simple(start, g.nodes[t].def, children, Null))
            case InvalidChild => InvalidChild
            case Plain => Plain
  {
    var cs := g.nodes[t].children;
    assert Links(g, srv, sh, start, cs) == seq(|cs|, i requires 0 <= i < |cs| => IdealLink(g, srv, sh, start, cs[i]));
  }

  function ElementsOf(g: TypeGraph, srv: Server, sh: Shape, start: NodeId, list: seq<BrowseResult>): seq<Outcome<Option<Element>>>
    requires g.Valid() && srv.Valid() && Forest(srv, sh) && start in srv.ids
    requires forall k :: 0 <= k < |list| ==> list[k].nodeId in srv.ids && Under(sh, list[k].nodeId, start)
  {
    seq(|list|, i requires 0 <= i < |list| => IdealElement(g, srv, sh, start, list[i]))
  }

  lemma {:induction false} TransformIsIdeal(g: TypeGraph, srv: Server, sh: Shape, browsed: set<NodeId>, start: NodeId, t: nat)
    requires NoRepeats(g, srv, sh) && start in srv.ids && t < |g.nodes|
    requires browsed <= srv.ids && Clear(sh, browsed, {start})
    ensures var (o, b) := Transform(g, srv, browsed, start, t);
            o == IdealNode(g, srv, sh, start, t) && b <= srv.ids && Grown(sh, browsed, b, {start})
    decreases srv.ids - browsed, 0, 0
  {
    assert Below(sh, start, start);
    var cs := g.nodes[t].children;
    forall k, x, y | 0 <= k < |cs| && x in browsed + {start} && y in Targets(g, srv, start, cs[k])
      ensures !Below(sh, x, y)
    {
      TargetsAreUnder(g, srv, sh, start, cs[k]);
      if Below(sh, x, y) {
        BelowChild(sh, x, y, start);
      }
    }
    ChildrenIsIdeal(g, srv, sh, browsed + {start}, start, cs, 0, []);
    var links := Links(g, srv, sh, start, cs);
    assert links[0..] == links;
    AfterNothing(Combine(links));
    NodeCombinesLinks(g, srv, sh, start, t);
  }

  lemma {:induction false} ChildrenIsIdeal(g: TypeGraph, srv: Server, sh: Shape, browsed: set<NodeId>, start: NodeId,
                                           cs: seq<nat>, i: nat, found: seq<Node>)
    requires NoRepeats(g, srv, sh) && start in srv.ids && i <= |cs| && forall k :: 0 <= k < |cs| ==> cs[k] < |g.nodes|
    requires browsed <= srv.ids && DistinctTargets(g, srv, start, cs)
    requires forall k :: i <= k < |cs| ==> Clear(sh, browsed, Targets(g, srv, start, cs[k]))
    ensures var (o, b) := Children(g, srv, browsed, start, cs, i, found);
            o == After(found, Combine(Links(g, srv, sh, start, cs)[i..])) && b <= srv.ids && Grown(sh, browsed, b, {start})
    decreases srv.ids - browsed, 3, |cs| - i
  {
    var links := Links(g, srv, sh, start, cs);
    if i < |cs| {
      var (link, b) := LinkOf(g, srv, browsed, start, cs[i]);
      var done := Targets(g, srv, start, cs[i]);
      LinkIsIdeal(g, srv, sh, browsed, start, cs[i]);
      TargetsAreUnder(g, srv, sh, start, cs[i]);
      GrownBelowParent(sh, start, browsed, b, done);
      assert links[i..][0] == link && links[i..][1..] == links[i + 1..];
      if link.Push? || link.Skip? {
        forall k | i + 1 <= k < |cs|
          ensures Clear(sh, b, Targets(g, srv, start, cs[k]))
        {
          TargetsAreUnder(g, srv, sh, start, cs[k]);
          SiblingsStayClear(sh, start, browsed, b, done, Targets(g, srv, start, cs[k]));
        }
        ChildrenIsIdeal(g, srv, sh, b, start, cs, i + 1, if link.Push? then found + [link.node] else found);
        if link.Push? {
          AfterSteps(found, link.node, Combine(links[i + 1..]));
        }
      }
    } else {
      assert links[i..] == [] && found + [] == found;
    }
  }

  lemma {:induction false} LinkIsIdeal(g: TypeGraph, srv: Server, sh: Shape, browsed: set<NodeId>, start: NodeId, c: nat)
    requires NoRepeats(g, srv, sh) && start in srv.ids && c < |g.nodes|
    requires browsed <= srv.ids && Clear(sh, browsed, Targets(g, srv, start, c))
    ensures var (link, b) := LinkOf(g, srv, browsed, start, c);
            link == IdealLink(g, srv, sh, start, c) && b <= srv.ids && Grown(sh, browsed, b, Targets(g, srv, start, c))
    decreases srv.ids - browsed, 2, 0
  {
    var child := g.nodes[c];
    match child.def.rule
    case NoRule =>
    case Optional | Mandatory =>
      var path := (start, child.def.name);
      if path in srv.paths && srv.paths[path] != NULL_ID {
        TransformIsIdeal(g, srv, sh, browsed, srv.paths[path], c);
      }
    case OptionalPlaceholder | MandatoryPlaceholder =>
      var query := (start, child.reference, child.typeId);
      if query in srv.lists {
        var list := srv.lists[query];
        ElementsIsIdeal(g, srv, sh, browsed, start, list, 0, []);
        var os := ElementsOf(g, srv, sh, start, list);
        assert os[0..] == os;
        AfterNothing(CombineElements(os));
        assert os == seq(|list|, i requires 0 <= i < |list| => IdealElement(g, srv, sh, start, list[i]));
      }
  }

  lemma {:induction false} ElementsIsIdeal(g: TypeGraph, srv: Server, sh: Shape, browsed: set<NodeId>, start: NodeId,
                                           list: seq<BrowseResult>, i: nat, found: seq<Element>)
    requires NoRepeats(g, srv, sh) && start in srv.ids && i <= |list| && browsed <= srv.ids && DistinctList(list)
    requires forall k :: 0 <= k < |list| ==> list[k].nodeId in srv.ids && Under(sh, list[k].nodeId, start)
    requires forall k :: i <= k < |list| ==> Clear(sh, browsed, {list[k].nodeId})
    ensures var (o, b) := Elements(g, srv, browsed, list, i, found);
            && o == After(found, CombineElements(ElementsOf(g, srv, sh, start, list)[i..]))
            && b <= srv.ids && Grown(sh, browsed, b, set e | e in list :: e.nodeId)
    decreases srv.ids - browsed, 1, |list| - i
  {
    var os := ElementsOf(g, srv, sh, start, list);
    if i < |list| {
      assert os[i..][0] == IdealElement(g, srv, sh, start, list[i]) && os[i..][1..] == os[i + 1..];
      var typ := ElementType(srv, list[i]);
      if typ.Some? && typ.value !in g.typeMap {
        ElementsIsIdeal(g, srv, sh, browsed, start, list, i + 1, found);
        AfterNothing(CombineElements(os[i + 1..]));
      } else if typ.Some? {
        var (o, b) := Transform(g, srv, browsed, list[i].nodeId, g.typeMap[typ.value]);
        TransformIsIdeal(g, srv, sh, browsed, list[i].nodeId, g.typeMap[typ.value]);
        assert list[i].nodeId in set e | e in list :: e.nodeId;
        if o.Ok? {
          forall k | i + 1 <= k < |list|
            ensures Clear(sh, b, {list[k].nodeId})
          {
            SiblingsStayClear(sh, start, browsed, b, {list[i].nodeId}, {list[k].nodeId});
          }
          var e := Element(list[i].browseName, typ.value, o.value);
          ElementsIsIdeal(g, srv, sh, b, start, list, i + 1, found + [e]);
          AfterSteps(found, e, CombineElements(os[i + 1..]));
        }
      }
    } else {
      assert os[i..] == [] && found + [] == found;
    }
  }

  /** A fresh client on an address space without repeated nodes reads the ideal instance. */
  lemma FreshClientReadsIdeal(g: TypeGraph, srv: Server, sh: Shape, start: NodeId, t: nat)
    requires NoRepeats(g, srv, sh) && start in srv.ids && t < |g.nodes|
    ensures Transform(g, srv, {}, start, t).0 == IdealNode(g, srv, sh, start, t)
  {
    TransformIsIdeal(g, srv, sh, {}, start, t);
  }
}
