/** What the tree of an accepted machine looks like, and which machines are rejected. */
module Conformance {
  import opened OpcUa
  import opened Instance
  import opened Ideal

  // ---------- the tree of an accepted machine, on any address space ----------

  /** A base object without interface has no type. */
  predicate Untyped(srv: Server, e: BrowseResult) {
    e.typeDefinition.id == "i=58" && e.nodeId !in srv.interfaces
  }

  /** The type a listed element is read as: its own, or the interface of a base object. */
  function ReadType(srv: Server, e: BrowseResult): NodeId
    requires !Untyped(srv, e)
  {
    if e.typeDefinition.id == "i=58" then srv.interfaces[e.nodeId] else e.typeDefinition
  }

  /** When a declared child is missing: its rule is none; the server has resolved its path to
      the null id; it is optional and its path does not resolve or reading it throws; or it is
      an optional placeholder and browsing or reading its elements throws. */
  predicate Missing(g: TypeGraph, srv: Server, browsed: set<NodeId>, id: NodeId, c: nat)
    requires g.Valid() && srv.Valid() && c < |g.nodes|
  {
    var path, query := (id, g.nodes[c].def.name), (id, g.nodes[c].reference, g.nodes[c].typeId);
    match g.nodes[c].def.rule
    case NoRule => true
    case Optional => path !in srv.paths || srv.paths[path] == NULL_ID || !Transform(g, srv, browsed, srv.paths[path], c).0.Ok?
    case Mandatory => path in srv.paths && srv.paths[path] == NULL_ID
    case OptionalPlaceholder => query !in srv.lists || !Elements(g, srv, browsed, srv.lists[query], 0, []).0.Ok?
    case MandatoryPlaceholder => false
  }

  predicate IsSimple(rule: ModellingRule) {
    rule.Optional? || rule.Mandatory?
  }

  /** A node whose id is in `browsed` is a bare leaf; any other has the children its type
      declares. */
  predicate Conforms(g: TypeGraph, srv: Server, browsed: set<NodeId>, n: Node, c: nat)
    requires g.Valid() && srv.Valid() && c < |g.nodes| && n.Simple?
    decreases n, 0
  {
    && n.def == g.nodes[c].def
    && if n.id in browsed then n.children == []
       else Fits(g, srv, browsed + {n.id}, n.id, g.nodes[c].children, n.children)
  }

  /** `kids` are, in declaration order, the instances of the declared children `cs` of node
      `id`; each is judged by what was browsed when its turn came. */
  predicate Fits(g: TypeGraph, srv: Server, browsed: set<NodeId>, id: NodeId, cs: seq<nat>, kids: seq<Node>)
    requires g.Valid() && srv.Valid() && forall k :: 0 <= k < |cs| ==> cs[k] < |g.nodes|
    decreases kids, |cs|
  {
    if cs == [] then kids == []
    else
      var after := LinkOf(g, srv, browsed, id, cs[0]).1;
      if Missing(g, srv, browsed, id, cs[0]) then Fits(g, srv, after, id, cs[1..], kids)
      else kids != [] && Matches(g, srv, browsed, id, cs[0], kids[0]) && Fits(g, srv, after, id, cs[1..], kids[1..])
  }

  predicate Matches(g: TypeGraph, srv: Server, browsed: set<NodeId>, id: NodeId, c: nat, kid: Node)
    requires g.Valid() && srv.Valid() && c < |g.nodes|
    decreases kid, 1
  {
    match kid
    case Simple(child, def, _, _) =>
      var path := (id, g.nodes[c].def.name);
      && IsSimple(def.rule) && path in srv.paths && srv.paths[path] == child != NULL_ID
      && Conforms(g, srv, browsed, kid, c)
    case Placeholder(def, elements) =>
      var query := (id, g.nodes[c].reference, g.nodes[c].typeId);
      && def == g.nodes[c].def && def.rule.IsPlaceholder()
      && query in srv.lists && Selected(g, srv, browsed, srv.lists[query], elements)
  }

  /** The elements are the listed nodes whose type is in the type map, in list order. */
  predicate Selected(g: TypeGraph, srv: Server, browsed: set<NodeId>, list: seq<BrowseResult>, elements: seq<Element>)
    requires g.Valid() && srv.Valid() && forall k :: 0 <= k < |list| ==> list[k].nodeId in srv.ids
    decreases elements, |list|
  {
    if list == [] then elements == []
    else
      !Untyped(srv, list[0]) &&
      var typ := ReadType(srv, list[0]);
      if typ !in g.typeMap then Selected(g, srv, browsed, list[1..], elements)
      else
        && elements != [] && IsElement(list[0], typ, elements[0])
        && (assert elements[0].node < elements[0]; Conforms(g, srv, browsed, elements[0].node, g.typeMap[typ]))
        && Selected(g, srv, Transform(g, srv, browsed, list[0].nodeId, g.typeMap[typ]).1, list[1..], elements[1..])
  }

  predicate IsElement(r: BrowseResult, typ: NodeId, e: Element) {
    e.name == r.browseName && e.typeDefinition == typ && e.node.Simple? && e.node.id == r.nodeId
  }

  /** Every accepted tree follows the declarations, below the root as well: a node is bare
      exactly if it was browsed before, and a declared child is there exactly if it is not
      missing. */
  lemma {:induction false} AcceptedConforms(g: TypeGraph, srv: Server, browsed: set<NodeId>, start: NodeId, t: nat)
    requires g.Valid() && srv.Valid() && start in srv.ids && t < |g.nodes|
    ensures var o := Transform(g, srv, browsed, start, t).0;
            o.Ok? ==> o.value.Simple? && o.value.id == start && Conforms(g, srv, browsed, o.value, t)
    decreases srv.ids - browsed, 0, 0
  {
    if start !in browsed {
      ChildrenFit(g, srv, browsed + {start}, start, g.nodes[t].children, 0, []);
    }
  }

  lemma {:induction false} ChildrenFit(g: TypeGraph, srv: Server, browsed: set<NodeId>, start: NodeId,
                                       cs: seq<nat>, i: nat, found: seq<Node>)
    requires g.Valid() && srv.Valid() && i <= |cs| && forall k :: 0 <= k < |cs| ==> cs[k] < |g.nodes|
    ensures var o := Children(g, srv, browsed, start, cs, i, found).0;
            o.Ok? ==> |found| <= |o.value| && o.value[..|found|] == found && Fits(g, srv, browsed, start, cs[i..], o.value[|found|..])
    decreases srv.ids - browsed, 3, |cs| - i
  {
    var o := Children(g, srv, browsed, start, cs, i, found).0;
    if i < |cs| {
      var (link, b) := LinkOf(g, srv, browsed, start, cs[i]);
      LinkFits(g, srv, browsed, start, cs[i]);
      assert cs[i..][0] == cs[i] && cs[i..][1..] == cs[i + 1..];
      if link.Skip? {
        ChildrenFit(g, srv, b, start, cs, i + 1, found);
      } else if link.Push? {
        ChildrenFit(g, srv, b, start, cs, i + 1, found + [link.node]);
        if o.Ok? {
          Pushed(o.value, found, link.node);
        }
      }
    } else {
      assert cs[i..] == [];
    }
  }

  lemma Pushed<T>(all: seq<T>, found: seq<T>, n: T)
    requires |found| < |all| && all[..|found| + 1] == found + [n]
    ensures all[..|found|] == found && all[|found|..][0] == n && all[|found|..][1..] == all[|found + [n]|..]
  {
    assert all[..|found|] == all[..|found| + 1][..|found|];
    assert all[|found|] == all[..|found| + 1][|found|];
  }

  lemma {:induction false} LinkFits(g: TypeGraph, srv: Server, browsed: set<NodeId>, start: NodeId, c: nat)
    requires g.Valid() && srv.Valid() && c < |g.nodes|
    ensures var link := LinkOf(g, srv, browsed, start, c).0;
            && (link.Push? ==> Matches(g, srv, browsed, start, c, link.node) && !Missing(g, srv, browsed, start, c))
            && (link.Skip? ==> Missing(g, srv, browsed, start, c))
    decreases srv.ids - browsed, 2, 0
  {
    var child := g.nodes[c];
    match child.def.rule
    case NoRule =>
    case Optional | Mandatory =>
      var path := (start, child.def.name);
      if path in srv.paths && srv.paths[path] != NULL_ID {
        AcceptedConforms(g, srv, browsed, srv.paths[path], c);
      }
    case OptionalPlaceholder | MandatoryPlaceholder =>
      var query := (start, child.reference, child.typeId);
      if query in srv.lists {
        ElementsFit(g, srv, browsed, srv.lists[query], 0, []);
        assert srv.lists[query][0..] == srv.lists[query];
      }
  }

  lemma {:induction false} ElementsFit(g: TypeGraph, srv: Server, browsed: set<NodeId>,
                                       list: seq<BrowseResult>, i: nat, found: seq<Element>)
    requires g.Valid() && srv.Valid() && i <= |list| && forall k :: 0 <= k < |list| ==> list[k].nodeId in srv.ids
    ensures var o := Elements(g, srv, browsed, list, i, found).0;
            o.Ok? ==> |found| <= |o.value| && o.value[..|found|] == found && Selected(g, srv, browsed, list[i..], o.value[|found|..])
    decreases srv.ids - browsed, 1, |list| - i
  {
    var o := Elements(g, srv, browsed, list, i, found).0;
    if i < |list| {
      assert list[i..][0] == list[i] && list[i..][1..] == list[i + 1..];
      var typ := ElementType(srv, list[i]);
      if typ.Some? && typ.value !in g.typeMap {
        ElementsFit(g, srv, browsed, list, i + 1, found);
      } else if typ.Some? {
        var (n, b) := Transform(g, srv, browsed, list[i].nodeId, g.typeMap[typ.value]);
        AcceptedConforms(g, srv, browsed, list[i].nodeId, g.typeMap[typ.value]);
        if n.Ok? {
          var e := Element(list[i].browseName, typ.value, n.value);
          ElementsFit(g, srv, b, list, i + 1, found + [e]);
          if o.Ok? {
            Pushed(o.value, found, e);
          }
        }
      }
    } else {
      assert list[i..] == [];
    }
  }

  /** The element stands for the listed node: under its type, with what that type declares. */
  ghost predicate StandsFor(g: TypeGraph, srv: Server, browsed: set<NodeId>, r: BrowseResult, typ: NodeId, e: Element)
    requires g.Valid() && srv.Valid() && typ in g.typeMap
  {
    IsElement(r, typ, e) && exists b :: browsed <= b && Conforms(g, srv, b, e.node, g.typeMap[typ])
  }

  ghost predicate HasElement(g: TypeGraph, srv: Server, browsed: set<NodeId>, r: BrowseResult, typ: NodeId, elements: seq<Element>)
    requires g.Valid() && srv.Valid() && typ in g.typeMap
  {
    exists k :: 0 <= k < |elements| && StandsFor(g, srv, browsed, r, typ, elements[k])
  }

  lemma HasElementLater(g: TypeGraph, srv: Server, browsed: set<NodeId>, later: set<NodeId>, r: BrowseResult, typ: NodeId,
                        elements: seq<Element>)
    requires g.Valid() && srv.Valid() && typ in g.typeMap && browsed <= later && elements != []
    requires HasElement(g, srv, later, r, typ, elements[1..])
    ensures HasElement(g, srv, browsed, r, typ, elements)
  {
    var k :| 0 <= k < |elements[1..]| && StandsFor(g, srv, later, r, typ, elements[1..][k]);
    var b :| later <= b && Conforms(g, srv, b, elements[1..][k].node, g.typeMap[typ]);
    assert elements[k + 1] == elements[1..][k] && browsed <= b;
    assert StandsFor(g, srv, browsed, r, typ, elements[k + 1]);
  }

  lemma {:induction false} SelectedHas(g: TypeGraph, srv: Server, browsed: set<NodeId>, list: seq<BrowseResult>, elements: seq<Element>, i: nat)
    requires g.Valid() && srv.Valid() && (forall k :: 0 <= k < |list| ==> list[k].nodeId in srv.ids) && i < |list|
    requires Selected(g, srv, browsed, list, elements)
    ensures !Untyped(srv, list[i])
    ensures ReadType(srv, list[i]) in g.typeMap ==> HasElement(g, srv, browsed, list[i], ReadType(srv, list[i]), elements)
    decreases |list|
  {
    var typ := ReadType(srv, list[0]);
    if typ !in g.typeMap {
      if i > 0 {
        SelectedHas(g, srv, browsed, list[1..], elements, i - 1);
      }
    } else if i == 0 {
      assert browsed <= browsed;
      assert StandsFor(g, srv, browsed, list[0], typ, elements[0]);
    } else {
      var later := Transform(g, srv, browsed, list[0].nodeId, g.typeMap[typ]).1;
      SelectedHas(g, srv, later, list[1..], elements[1..], i - 1);
      if ReadType(srv, list[i]) in g.typeMap {
        HasElementLater(g, srv, browsed, later, list[i], ReadType(srv, list[i]), elements);
      }
    }
  }

  /** What becomes of each listed element of a placeholder `c` that was read: one of a type of
      its own is there under that type, a base object under its interface. */
  lemma PlaceholderElements(g: TypeGraph, srv: Server, browsed: set<NodeId>, start: NodeId, c: nat, i: nat)
    requires g.Valid() && srv.Valid() && c < |g.nodes| && g.nodes[c].def.rule.IsPlaceholder()
    requires var query := (start, g.nodes[c].reference, g.nodes[c].typeId); query in srv.lists && i < |srv.lists[query]|
    requires LinkOf(g, srv, browsed, start, c).0.Push?
    ensures var e := srv.lists[(start, g.nodes[c].reference, g.nodes[c].typeId)][i];
            var node := LinkOf(g, srv, browsed, start, c).0.node;
            && node.Placeholder? && node.def == g.nodes[c].def
            && (e.typeDefinition.id != "i=58" && e.typeDefinition in g.typeMap ==>
                  HasElement(g, srv, browsed, e, e.typeDefinition, node.elements))
            && (e.typeDefinition.id == "i=58" ==> e.nodeId in srv.interfaces)
            && (e.typeDefinition.id == "i=58" && srv.interfaces[e.nodeId] in g.typeMap ==>
                  HasElement(g, srv, browsed, e, srv.interfaces[e.nodeId], node.elements))
  {
    LinkFits(g, srv, browsed, start, c);
    var list := srv.lists[(start, g.nodes[c].reference, g.nodes[c].typeId)];
    SelectedHas(g, srv, browsed, list, LinkOf(g, srv, browsed, start, c).0.node.elements, i);
  }

  /** A listed base object without interface makes reading the placeholder throw. */
  lemma BaseObjectThrows(g: TypeGraph, srv: Server, browsed: set<NodeId>, start: NodeId, c: nat, i: nat)
    requires g.Valid() && srv.Valid() && c < |g.nodes| && g.nodes[c].def.rule.IsPlaceholder()
    requires var query := (start, g.nodes[c].reference, g.nodes[c].typeId);
             && query in srv.lists && i < |srv.lists[query]|
             && srv.lists[query][i].typeDefinition.id == "i=58" && srv.lists[query][i].nodeId !in srv.interfaces
    ensures !LinkOf(g, srv, browsed, start, c).0.Push?
  {
    if LinkOf(g, srv, browsed, start, c).0.Push? {
      PlaceholderElements(g, srv, browsed, start, c, i);
    }
  }

  /** So a mandatory child whose path resolved is there, at every node that is not bare. */
  lemma {:induction false} MandatoryChildPresent(g: TypeGraph, srv: Server, browsed: set<NodeId>, id: NodeId,
                                                 cs: seq<nat>, kids: seq<Node>, k: nat)
    requires g.Valid() && srv.Valid() && (forall j :: 0 <= j < |cs| ==> cs[j] < |g.nodes|) && Fits(g, srv, browsed, id, cs, kids)
    requires k < |cs| && g.nodes[cs[k]].def.rule.Mandatory?
    requires var path := (id, g.nodes[cs[k]].def.name); path in srv.paths && srv.paths[path] != NULL_ID
    ensures exists j :: 0 <= j < |kids| && kids[j].Simple? && kids[j].def == g.nodes[cs[k]].def &&
                        kids[j].id == srv.paths[(id, g.nodes[cs[k]].def.name)]
    decreases |cs|
  {
    var after := LinkOf(g, srv, browsed, id, cs[0]).1;
    if !Missing(g, srv, browsed, id, cs[0]) {
      if k > 0 {
        MandatoryChildPresent(g, srv, after, id, cs[1..], kids[1..], k - 1);
        var j :| 0 <= j < |kids[1..]| && kids[1..][j].Simple? && kids[1..][j].def == g.nodes[cs[k]].def &&
                 kids[1..][j].id == srv.paths[(id, g.nodes[cs[k]].def.name)];
        assert kids[j + 1] == kids[1..][j];
      } else {
        assert kids[0].Simple? ==> Conforms(g, srv, browsed, kids[0], cs[0]);
        assert kids[0].Simple?;
      }
    } else {
      MandatoryChildPresent(g, srv, after, id, cs[1..], kids, k - 1);
    }
  }

  // ---------- which machines are rejected ----------

  /** One step of a walk: a declared child, and for a placeholder one of the listed elements. */
  datatype Hop = Hop(child: nat, element: nat)

  /** A walk from a node to where reading throws: over simple children and over elements of
      mandatory placeholders, to a mandatory child whose lookup throws, a mandatory placeholder
      whose browsing throws, or an element of one that has no type. An optional child is only
      crossed if its first failure is that of a simple child. */
  ghost predicate Fatal(g: TypeGraph, srv: Server, sh: Shape, start: NodeId, t: nat, walk: seq<Hop>)
    requires g.Valid() && srv.Valid() && Forest(srv, sh) && start in srv.ids && t < |g.nodes|
    decreases sh.Height(start), 0
  {
    walk != [] && walk[0].child < |g.nodes[t].children| &&
    var c := g.nodes[t].children[walk[0].child];
    var child := g.nodes[c];
    if IsSimple(child.def.rule) then
      var path := (start, child.def.name);
      if path !in srv.paths then child.def.rule.Mandatory? && |walk| == 1
      else
        && srv.paths[path] != NULL_ID && Fatal(g, srv, sh, srv.paths[path], c, walk[1..])
        && (child.def.rule.Optional? ==> RaisesInvalid(g, srv, sh, srv.paths[path], c, walk[1].child))
    else
      var query := (start, child.reference, child.typeId);
      child.def.rule.MandatoryPlaceholder? &&
      if query !in srv.lists then |walk| == 1
      else
        walk[0].element < |srv.lists[query]| &&
        var e := srv.lists[query][walk[0].element];
        if Untyped(srv, e) then |walk| == 1
        else ReadType(srv, e) in g.typeMap && Fatal(g, srv, sh, e.nodeId, g.typeMap[ReadType(srv, e)], walk[1..])
  }

  /** A failure of the simple child `k` is what node `n` fails with: no mandatory placeholder
      before it fails. */
  ghost predicate RaisesInvalid(g: TypeGraph, srv: Server, sh: Shape, n: NodeId, t: nat, k: nat)
    requires g.Valid() && srv.Valid() && Forest(srv, sh) && n in srv.ids && t < |g.nodes|
    decreases sh.Height(n), 1
  {
    var cs := g.nodes[t].children;
    && k < |cs| && IsSimple(g.nodes[cs[k]].def.rule)
    && forall walk: seq<Hop> :: walk != [] && walk[0].child < k && !IsSimple(g.nodes[cs[walk[0].child]].def.rule) ==>
         !Fatal(g, srv, sh, n, t, walk)
  }

  predicate Raises(link: Link) {
    link.RaiseInvalidChild? || link.RaisePlain?
  }

  /** The first exception wins. */
  lemma {:induction false} CombineRaises(links: seq<Link>)
    ensures Combine(links).Ok? <==> forall i :: 0 <= i < |links| ==> !Raises(links[i])
    ensures Combine(links).InvalidChild? <==>
            exists i :: 0 <= i < |links| && links[i].RaiseInvalidChild? && forall j :: 0 <= j < i ==> !links[j].RaisePlain?
  {
    if links != [] {
      var rest := links[1..];
      CombineRaises(rest);
      assert forall i :: 0 <= i < |rest| ==> rest[i] == links[i + 1];
      if i :| 0 <= i < |rest| && rest[i].RaiseInvalidChild? && forall j :: 0 <= j < i ==> !rest[j].RaisePlain? {
        if !links[0].RaisePlain? {
          assert links[i + 1].RaiseInvalidChild? && forall j :: 0 <= j < i + 1 ==> !links[j].RaisePlain?;
        }
      }
      if i :| 0 <= i < |links| && links[i].RaiseInvalidChild? && (forall j :: 0 <= j < i ==> !links[j].RaisePlain?) && i > 0 {
        assert rest[i - 1].RaiseInvalidChild? && forall j :: 0 <= j < i - 1 ==> !rest[j].RaisePlain?;
      }
    }
  }

  lemma {:induction false} CombineElementsRaises(os: seq<Outcome<Option<Element>>>)
    ensures CombineElements(os).Ok? <==> forall i :: 0 <= i < |os| ==> os[i].Ok?
  {
    if os != [] {
      CombineElementsRaises(os[1..]);
      assert forall i :: 0 <= i < |os| - 1 ==> os[1..][i] == os[i + 1];
    }
  }

  /** A walk that begins with the declared child `k`. */
  ghost predicate FatalVia(g: TypeGraph, srv: Server, sh: Shape, start: NodeId, t: nat, k: nat, walk: seq<Hop>)
    requires g.Valid() && srv.Valid() && Forest(srv, sh) && start in srv.ids && t < |g.nodes|
  {
    walk != [] && walk[0].child == k && Fatal(g, srv, sh, start, t, walk)
  }

  /** On every address space without repeated nodes and for every type, an instance is accepted
      exactly if no fatal walk starts at it, and rejected as invalid exactly if one starts with
      a simple child before which no mandatory placeholder fails. */
  lemma {:induction false} RejectedIff(g: TypeGraph, srv: Server, sh: Shape, start: NodeId, t: nat)
    requires g.Valid() && srv.Valid() && Forest(srv, sh) && start in srv.ids && t < |g.nodes|
    ensures IdealNode(g, srv, sh, start, t).Ok? <==> !exists k, walk :: FatalVia(g, srv, sh, start, t, k, walk)
    ensures IdealNode(g, srv, sh, start, t).InvalidChild? <==>
            exists k, walk :: FatalVia(g, srv, sh, start, t, k, walk) && RaisesInvalid(g, srv, sh, start, t, k)
    decreases sh.Height(start), 3
  {
    var cs := g.nodes[t].children;
    var links := Links(g, srv, sh, start, cs);
    forall k | 0 <= k < |cs|
      ensures Raises(links[k]) <==> exists walk: seq<Hop> :: FatalVia(g, srv, sh, start, t, k, walk)
      ensures Raises(links[k]) ==> (links[k].RaiseInvalidChild? <==> IsSimple(g.nodes[cs[k]].def.rule))
    {
      LinkRaisesIff(g, srv, sh, start, t, k);
    }
    CombineRaises(links);
    NodeCombinesLinks(g, srv, sh, start, t);
    InvalidWalks(g, srv, sh, start, t, links);
  }

  lemma InvalidWalks(g: TypeGraph, srv: Server, sh: Shape, start: NodeId, t: nat, links: seq<Link>)
    requires g.Valid() && srv.Valid() && Forest(srv, sh) && start in srv.ids && t < |g.nodes| && |links| == |g.nodes[t].children|
    requires forall k :: 0 <= k < |links| ==> (Raises(links[k]) <==> exists walk: seq<Hop> :: FatalVia(g, srv, sh, start, t, k, walk))
    requires forall k :: 0 <= k < |links| ==>
               (Raises(links[k]) ==> (links[k].RaiseInvalidChild? <==> IsSimple(g.nodes[g.nodes[t].children[k]].def.rule)))
    ensures (exists i :: 0 <= i < |links| && links[i].RaiseInvalidChild? && forall j :: 0 <= j < i ==> !links[j].RaisePlain?) <==>
            exists k, walk :: FatalVia(g, srv, sh, start, t, k, walk) && RaisesInvalid(g, srv, sh, start, t, k)
  {
    if i :| 0 <= i < |links| && links[i].RaiseInvalidChild? && forall j :: 0 <= j < i ==> !links[j].RaisePlain? {
      var walk: seq<Hop> :| FatalVia(g, srv, sh, start, t, i, walk);
      forall w: seq<Hop> | w != [] && w[0].child < i && !IsSimple(g.nodes[g.nodes[t].children[w[0].child]].def.rule)
        ensures !Fatal(g, srv, sh, start, t, w)
      {
        assert !Raises(links[w[0].child]);
        assert !FatalVia(g, srv, sh, start, t, w[0].child, w);
      }
      assert RaisesInvalid(g, srv, sh, start, t, i);
    }
    if i: nat, walk :| FatalVia(g, srv, sh, start, t, i, walk) && RaisesInvalid(g, srv, sh, start, t, i) {
      assert links[i].RaiseInvalidChild?;
      forall j | 0 <= j < i
        ensures !links[j].RaisePlain?
      {
        if !IsSimple(g.nodes[g.nodes[t].children[j]].def.rule) {
          assert forall w: seq<Hop> :: !FatalVia(g, srv, sh, start, t, j, w);
        }
      }
    }
  }

  lemma {:induction false} LinkRaisesIff(g: TypeGraph, srv: Server, sh: Shape, start: NodeId, t: nat, k: nat)
    requires g.Valid() && srv.Valid() && Forest(srv, sh) && start in srv.ids && t < |g.nodes| && k < |g.nodes[t].children|
    ensures var c := g.nodes[t].children[k];
            var link := IdealLink(g, srv, sh, start, c);
            && (Raises(link) <==> exists walk: seq<Hop> :: FatalVia(g, srv, sh, start, t, k, walk))
            && (Raises(link) ==> (link.RaiseInvalidChild? <==> IsSimple(g.nodes[c].def.rule)))
    decreases sh.Height(start), 2
  {
    var c := g.nodes[t].children[k];
    match g.nodes[c].def.rule
    case NoRule =>
    case Optional | Mandatory => SimpleRaisesIff(g, srv, sh, start, t, k);
    case OptionalPlaceholder =>
    case MandatoryPlaceholder => PlaceholderRaisesIff(g, srv, sh, start, t, k);
  }

  /** A simple child that is resolved to `x` fails with the failures of `x`. */
  lemma WalkThroughSimple(g: TypeGraph, srv: Server, sh: Shape, start: NodeId, t: nat, k: nat, walk: seq<Hop>)
    requires g.Valid() && srv.Valid() && Forest(srv, sh) && start in srv.ids && t < |g.nodes| && k < |g.nodes[t].children|
    requires IsSimple(g.nodes[g.nodes[t].children[k]].def.rule)
    requires var path := (start, g.nodes[g.nodes[t].children[k]].def.name); path in srv.paths && srv.paths[path] != NULL_ID
    requires walk != [] && walk[0].child == k
    ensures var c := g.nodes[t].children[k];
            var x := srv.paths[(start, g.nodes[c].def.name)];
            Fatal(g, srv, sh, start, t, walk) <==>
            Fatal(g, srv, sh, x, c, walk[1..]) &&
            (g.nodes[c].def.rule.Optional? ==> RaisesInvalid(g, srv, sh, x, c, walk[1..][0].child))
  {
    var c := g.nodes[t].children[k];
    var x := srv.paths[(start, g.nodes[c].def.name)];
    if Fatal(g, srv, sh, x, c, walk[1..]) {
      assert walk[1..][0] == walk[1];
    }
  }

  /** A walk over the simple child `k` exists exactly if one does from where it leads. */
  lemma WalksThroughSimple(g: TypeGraph, srv: Server, sh: Shape, start: NodeId, t: nat, k: nat)
    requires g.Valid() && srv.Valid() && Forest(srv, sh) && start in srv.ids && t < |g.nodes| && k < |g.nodes[t].children|
    requires IsSimple(g.nodes[g.nodes[t].children[k]].def.rule)
    requires var path := (start, g.nodes[g.nodes[t].children[k]].def.name); path in srv.paths && srv.paths[path] != NULL_ID
    ensures var c := g.nodes[t].children[k];
            var x := srv.paths[(start, g.nodes[c].def.name)];
            (exists walk: seq<Hop> :: FatalVia(g, srv, sh, start, t, k, walk)) <==>
            exists j, w :: FatalVia(g, srv, sh, x, c, j, w) && (g.nodes[c].def.rule.Optional? ==> RaisesInvalid(g, srv, sh, x, c, j))
  {
    var c := g.nodes[t].children[k];
    var x := srv.paths[(start, g.nodes[c].def.name)];
    forall j, w | FatalVia(g, srv, sh, x, c, j, w) && (g.nodes[c].def.rule.Optional? ==> RaisesInvalid(g, srv, sh, x, c, j))
      ensures exists walk: seq<Hop> :: FatalVia(g, srv, sh, start, t, k, walk)
    {
      var walk := [Hop(k, 0)] + w;
      assert walk[1..] == w;
      WalkThroughSimple(g, srv, sh, start, t, k, walk);
      assert FatalVia(g, srv, sh, start, t, k, walk);
    }
    forall walk: seq<Hop> | FatalVia(g, srv, sh, start, t, k, walk)
      ensures exists j, w :: FatalVia(g, srv, sh, x, c, j, w) && (g.nodes[c].def.rule.Optional? ==> RaisesInvalid(g, srv, sh, x, c, j))
    {
      WalkThroughSimple(g, srv, sh, start, t, k, walk);
      assert FatalVia(g, srv, sh, x, c, walk[1..][0].child, walk[1..]);
    }
  }

  lemma {:induction false} SimpleRaisesIff(g: TypeGraph, srv: Server, sh: Shape, start: NodeId, t: nat, k: nat)
    requires g.Valid() && srv.Valid() && Forest(srv, sh) && start in srv.ids && t < |g.nodes| && k < |g.nodes[t].children|
    requires IsSimple(g.nodes[g.nodes[t].children[k]].def.rule)
    ensures var link := IdealLink(g, srv, sh, start, g.nodes[t].children[k]);
            !link.RaisePlain? && (link.RaiseInvalidChild? <==> exists walk: seq<Hop> :: FatalVia(g, srv, sh, start, t, k, walk))
    decreases sh.Height(start), 1
  {
    var c := g.nodes[t].children[k];
    var path := (start, g.nodes[c].def.name);
    if path !in srv.paths {
      if g.nodes[c].def.rule.Mandatory? {
        assert FatalVia(g, srv, sh, start, t, k, [Hop(k, 0)]);
      }
    } else if srv.paths[path] != NULL_ID {
      RejectedIff(g, srv, sh, srv.paths[path], c);
      WalksThroughSimple(g, srv, sh, start, t, k);
    }
  }

  lemma {:induction false} PlaceholderRaisesIff(g: TypeGraph, srv: Server, sh: Shape, start: NodeId, t: nat, k: nat)
    requires g.Valid() && srv.Valid() && Forest(srv, sh) && start in srv.ids && t < |g.nodes| && k < |g.nodes[t].children|
    requires g.nodes[g.nodes[t].children[k]].def.rule.MandatoryPlaceholder?
    ensures var link := IdealLink(g, srv, sh, start, g.nodes[t].children[k]);
            !link.RaiseInvalidChild? && (link.RaisePlain? <==> exists walk: seq<Hop> :: FatalVia(g, srv, sh, start, t, k, walk))
    decreases sh.Height(start), 1
  {
    var c := g.nodes[t].children[k];
    var query := (start, g.nodes[c].reference, g.nodes[c].typeId);
    if query !in srv.lists {
      assert FatalVia(g, srv, sh, start, t, k, [Hop(k, 0)]);
    } else {
      var list := srv.lists[query];
      var os := ElementsOf(g, srv, sh, start, list);
      assert os == seq(|list|, i requires 0 <= i < |list| => IdealElement(g, srv, sh, start, list[i]));
      CombineElementsRaises(os);
      forall i | 0 <= i < |list|
        ensures !os[i].Ok? <==> exists walk: seq<Hop> :: FatalVia(g, srv, sh, start, t, k, walk) && walk[0].element == i
      {
        ElementRaisesIff(g, srv, sh, start, t, k, i);
      }
      if walk: seq<Hop> :| FatalVia(g, srv, sh, start, t, k, walk) {
        assert !os[walk[0].element].Ok?;
      }
    }
  }

  lemma {:induction false} ElementRaisesIff(g: TypeGraph, srv: Server, sh: Shape, start: NodeId, t: nat, k: nat, i: nat)
    requires g.Valid() && srv.Valid() && Forest(srv, sh) && start in srv.ids && t < |g.nodes| && k < |g.nodes[t].children|
    requires g.nodes[g.nodes[t].children[k]].def.rule.MandatoryPlaceholder?
    requires var c := g.nodes[t].children[k];
             var query := (start, g.nodes[c].reference, g.nodes[c].typeId);
             query in srv.lists && i < |srv.lists[query]|
    ensures var c := g.nodes[t].children[k];
            var e := srv.lists[(start, g.nodes[c].reference, g.nodes[c].typeId)][i];
            !IdealElement(g, srv, sh, start, e).Ok? <==>
            exists walk: seq<Hop> :: FatalVia(g, srv, sh, start, t, k, walk) && walk[0].element == i
    decreases sh.Height(start), 0
  {
    var c := g.nodes[t].children[k];
    var e := srv.lists[(start, g.nodes[c].reference, g.nodes[c].typeId)][i];
    var typ := ElementType(srv, e);
    if typ.None? {
      assert FatalVia(g, srv, sh, start, t, k, [Hop(k, i)]);
    } else if typ.value in g.typeMap {
      var u := g.typeMap[typ.value];
      RejectedIff(g, srv, sh, e.nodeId, u);
      if j: nat, w :| FatalVia(g, srv, sh, e.nodeId, u, j, w) {
        var walk := [Hop(k, i)] + w;
        assert walk[1..] == w;
        assert FatalVia(g, srv, sh, start, t, k, walk);
      }
      if walk: seq<Hop> :| FatalVia(g, srv, sh, start, t, k, walk) && walk[0].element == i {
        assert Fatal(g, srv, sh, e.nodeId, u, walk[1..]);
        assert FatalVia(g, srv, sh, e.nodeId, u, walk[1..][0].child, walk[1..]);
      }
    }
  }

  // ---------- the ideal tree, in which no node is bare ----------

  /** Reading the node as an instance of the type throws. */
  ghost predicate Fails(g: TypeGraph, srv: Server, sh: Shape, n: NodeId, t: nat)
    requires g.Valid() && srv.Valid() && Forest(srv, sh) && n in srv.ids && t < |g.nodes|
  {
    exists k, walk :: FatalVia(g, srv, sh, n, t, k, walk)
  }

  ghost predicate ElementFails(g: TypeGraph, srv: Server, sh: Shape, e: BrowseResult)
    requires g.Valid() && srv.Valid() && Forest(srv, sh) && e.nodeId in srv.ids
  {
    Untyped(srv, e) || (ReadType(srv, e) in g.typeMap && Fails(g, srv, sh, e.nodeId, g.typeMap[ReadType(srv, e)]))
  }

  /** As `Missing`, said without running anything. */
  ghost predicate FullMissing(g: TypeGraph, srv: Server, sh: Shape, id: NodeId, c: nat)
    requires g.Valid() && srv.Valid() && Forest(srv, sh) && c < |g.nodes|
  {
    var path, query := (id, g.nodes[c].def.name), (id, g.nodes[c].reference, g.nodes[c].typeId);
    match g.nodes[c].def.rule
    case NoRule => true
    case Optional => path !in srv.paths || srv.paths[path] == NULL_ID || Fails(g, srv, sh, srv.paths[path], c)
    case Mandatory => path in srv.paths && srv.paths[path] == NULL_ID
    case OptionalPlaceholder =>
      query !in srv.lists || exists i :: 0 <= i < |srv.lists[query]| && ElementFails(g, srv, sh, srv.lists[query][i])
    case MandatoryPlaceholder => false
  }

  /** As `Conforms`, but no node may stand without its children. */
  ghost predicate Full(g: TypeGraph, srv: Server, sh: Shape, n: Node, c: nat)
    requires g.Valid() && srv.Valid() && Forest(srv, sh) && c < |g.nodes| && n.Simple?
    decreases n, 0
  {
    n.def == g.nodes[c].def && FullFits(g, srv, sh, n.id, g.nodes[c].children, n.children)
  }

  ghost predicate FullFits(g: TypeGraph, srv: Server, sh: Shape, id: NodeId, cs: seq<nat>, kids: seq<Node>)
    requires g.Valid() && srv.Valid() && Forest(srv, sh) && forall k :: 0 <= k < |cs| ==> cs[k] < |g.nodes|
    decreases kids, |cs|
  {
    if cs == [] then kids == []
    else if FullMissing(g, srv, sh, id, cs[0]) then FullFits(g, srv, sh, id, cs[1..], kids)
    else kids != [] && FullMatches(g, srv, sh, id, cs[0], kids[0]) && FullFits(g, srv, sh, id, cs[1..], kids[1..])
  }

  ghost predicate FullMatches(g: TypeGraph, srv: Server, sh: Shape, id: NodeId, c: nat, kid: Node)
    requires g.Valid() && srv.Valid() && Forest(srv, sh) && c < |g.nodes|
    decreases kid, 1
  {
    match kid
    case Simple(child, def, _, _) =>
      var path := (id, g.nodes[c].def.name);
      IsSimple(def.rule) && path in srv.paths && srv.paths[path] == child != NULL_ID && Full(g, srv, sh, kid, c)
    case Placeholder(def, elements) =>
      var query := (id, g.nodes[c].reference, g.nodes[c].typeId);
      def == g.nodes[c].def && def.rule.IsPlaceholder() && query in srv.lists && FullSelected(g, srv, sh, srv.lists[query], elements)
  }

  ghost predicate FullSelected(g: TypeGraph, srv: Server, sh: Shape, list: seq<BrowseResult>, elements: seq<Element>)
    requires g.Valid() && srv.Valid() && Forest(srv, sh)
    decreases elements, |list|
  {
    if list == [] then elements == []
    else
      !Untyped(srv, list[0]) &&
      var typ := ReadType(srv, list[0]);
      if typ !in g.typeMap then FullSelected(g, srv, sh, list[1..], elements)
      else
        && elements != [] && IsElement(list[0], typ, elements[0])
        && (assert elements[0].node < elements[0]; Full(g, srv, sh, elements[0].node, g.typeMap[typ]))
        && FullSelected(g, srv, sh, list[1..], elements[1..])
  }

  /** What a link contributes to a full tree. */
  ghost predicate FullLink(g: TypeGraph, srv: Server, sh: Shape, id: NodeId, c: nat, link: Link)
    requires g.Valid() && srv.Valid() && Forest(srv, sh) && c < |g.nodes|
  {
    && (link.Push? ==> FullMatches(g, srv, sh, id, c, link.node) && !FullMissing(g, srv, sh, id, c))
    && (link.Skip? ==> FullMissing(g, srv, sh, id, c))
  }

  lemma {:induction false} CombineFull(g: TypeGraph, srv: Server, sh: Shape, id: NodeId, cs: seq<nat>, links: seq<Link>)
    requires g.Valid() && srv.Valid() && Forest(srv, sh) && |links| == |cs| && (forall k :: 0 <= k < |cs| ==> cs[k] < |g.nodes|)
    requires forall k :: 0 <= k < |cs| ==> FullLink(g, srv, sh, id, cs[k], links[k])
    ensures Combine(links).Ok? ==> FullFits(g, srv, sh, id, cs, Combine(links).value)
    decreases |cs|
  {
    if cs != [] {
      forall k | 0 <= k < |cs| - 1
        ensures FullLink(g, srv, sh, id, cs[1..][k], links[1..][k])
      {
        assert FullLink(g, srv, sh, id, cs[k + 1], links[k + 1]);
      }
      CombineFull(g, srv, sh, id, cs[1..], links[1..]);
      assert FullLink(g, srv, sh, id, cs[0], links[0]);
      if Combine(links).Ok? && links[0].Push? {
        assert Combine(links).value[1..] == Combine(links[1..]).value;
      }
    }
  }

  /** What the outcome of one element contributes. */
  ghost predicate FullElement(g: TypeGraph, srv: Server, sh: Shape, r: BrowseResult, o: Outcome<Option<Element>>)
    requires g.Valid() && srv.Valid() && Forest(srv, sh)
  {
    o.Ok? ==>
      !Untyped(srv, r) &&
      var typ := ReadType(srv, r);
      if typ !in g.typeMap then o.value.None?
      else o.value.Some? && IsElement(r, typ, o.value.value) && Full(g, srv, sh, o.value.value.node, g.typeMap[typ])
  }

  lemma {:induction false} CombineElementsFull(g: TypeGraph, srv: Server, sh: Shape, list: seq<BrowseResult>, os: seq<Outcome<Option<Element>>>)
    requires g.Valid() && srv.Valid() && Forest(srv, sh) && |os| == |list| && forall k :: 0 <= k < |list| ==> FullElement(g, srv, sh, list[k], os[k])
    ensures CombineElements(os).Ok? ==> FullSelected(g, srv, sh, list, CombineElements(os).value)
    decreases |list|
  {
    if list != [] {
      forall k | 0 <= k < |list| - 1
        ensures FullElement(g, srv, sh, list[1..][k], os[1..][k])
      {
        assert FullElement(g, srv, sh, list[k + 1], os[k + 1]);
      }
      CombineElementsFull(g, srv, sh, list[1..], os[1..]);
      assert FullElement(g, srv, sh, list[0], os[0]);
      if CombineElements(os).Ok? {
        var rest := CombineElements(os[1..]).value;
        if os[0].value.Some? {
          assert ([os[0].value.value] + rest)[1..] == rest;
        } else {
          assert [] + rest == rest;
        }
      }
    }
  }

  /** An ideal instance has all it declares, at every node. */
  lemma {:induction false} IdealFull(g: TypeGraph, srv: Server, sh: Shape, start: NodeId, t: nat)
    requires g.Valid() && srv.Valid() && Forest(srv, sh) && start in srv.ids && t < |g.nodes|
    ensures var o := IdealNode(g, srv, sh, start, t);
            o.Ok? ==> o.value.Simple? && o.value.id == start && Full(g, srv, sh, o.value, t)
    decreases sh.Height(start), 2
  {
    var cs := g.nodes[t].children;
    var links := Links(g, srv, sh, start, cs);
    forall k | 0 <= k < |cs|
      ensures FullLink(g, srv, sh, start, cs[k], links[k])
    {
      IdealLinkFull(g, srv, sh, start, cs[k]);
    }
    CombineFull(g, srv, sh, start, cs, links);
    NodeCombinesLinks(g, srv, sh, start, t);
  }

  lemma {:induction false} IdealLinkFull(g: TypeGraph, srv: Server, sh: Shape, start: NodeId, c: nat)
    requires g.Valid() && srv.Valid() && Forest(srv, sh) && start in srv.ids && c < |g.nodes|
    ensures FullLink(g, srv, sh, start, c, IdealLink(g, srv, sh, start, c))
    decreases sh.Height(start), 1
  {
    var child := g.nodes[c];
    match child.def.rule
    case NoRule =>
    case Optional | Mandatory =>
      var path := (start, child.def.name);
      if path in srv.paths && srv.paths[path] != NULL_ID {
        IdealFull(g, srv, sh, srv.paths[path], c);
        RejectedIff(g, srv, sh, srv.paths[path], c);
      }
    case OptionalPlaceholder | MandatoryPlaceholder =>
      var query := (start, child.reference, child.typeId);
      if query in srv.lists {
        var list := srv.lists[query];
        var os := ElementsOf(g, srv, sh, start, list);
        forall k | 0 <= k < |list|
          ensures FullElement(g, srv, sh, list[k], os[k]) && (os[k].Ok? <==> !ElementFails(g, srv, sh, list[k]))
        {
          IdealElementFull(g, srv, sh, start, list[k]);
        }
        CombineElementsRaises(os);
        CombineElementsFull(g, srv, sh, list, os);
        assert os == seq(|list|, i requires 0 <= i < |list| => IdealElement(g, srv, sh, start, list[i]));
      }
  }

  lemma {:induction false} IdealElementFull(g: TypeGraph, srv: Server, sh: Shape, start: NodeId, r: BrowseResult)
    requires g.Valid() && srv.Valid() && Forest(srv, sh) && start in srv.ids && r.nodeId in srv.ids && Under(sh, r.nodeId, start)
    ensures FullElement(g, srv, sh, r, IdealElement(g, srv, sh, start, r))
    ensures IdealElement(g, srv, sh, start, r).Ok? <==> !ElementFails(g, srv, sh, r)
    decreases sh.Height(start), 0
  {
    if !Untyped(srv, r) && ReadType(srv, r) in g.typeMap {
      IdealFull(g, srv, sh, r.nodeId, g.typeMap[ReadType(srv, r)]);
      RejectedIff(g, srv, sh, r.nodeId, g.typeMap[ReadType(srv, r)]);
    }
  }

  // ---------- the order of declarations decides, on any address space ----------

  /** Reading the children in order, the `k`th is the first that throws. */
  predicate RaisesAt(g: TypeGraph, srv: Server, browsed: set<NodeId>, id: NodeId, cs: seq<nat>, i: nat, k: nat)
    requires g.Valid() && srv.Valid() && i <= k < |cs| && forall j :: 0 <= j < |cs| ==> cs[j] < |g.nodes|
    decreases k - i
  {
    var (link, b) := LinkOf(g, srv, browsed, id, cs[i]);
    if i == k then Raises(link) else !Raises(link) && RaisesAt(g, srv, b, id, cs, i + 1, k)
  }

  lemma {:induction false} ChildrenRaise(g: TypeGraph, srv: Server, browsed: set<NodeId>, id: NodeId, cs: seq<nat>, i: nat, k: nat,
                                         found: seq<Node>)
    requires g.Valid() && srv.Valid() && i <= k < |cs| && forall j :: 0 <= j < |cs| ==> cs[j] < |g.nodes|
    requires RaisesAt(g, srv, browsed, id, cs, i, k)
    ensures Children(g, srv, browsed, id, cs, i, found).0 ==
            if g.nodes[cs[k]].def.rule.MandatoryPlaceholder? then Plain else InvalidChild
    decreases k - i
  {
    var (link, b) := LinkOf(g, srv, browsed, id, cs[i]);
    if i < k {
      ChildrenRaise(g, srv, b, id, cs, i + 1, k, if link.Push? then found + [link.node] else found);
    }
  }

  /** Below an optional child that was not met before, the first declaration that throws
      decides: a mandatory placeholder only drops the optional child, any other rejects. */
  lemma FirstFailureDecides(g: TypeGraph, srv: Server, browsed: set<NodeId>, start: NodeId, c: nat, k: nat)
    requires g.Valid() && srv.Valid() && c < |g.nodes| && g.nodes[c].def.rule.Optional? && k < |g.nodes[c].children|
    requires var path := (start, g.nodes[c].def.name);
             path in srv.paths && srv.paths[path] != NULL_ID && srv.paths[path] !in browsed
    requires var child := srv.paths[(start, g.nodes[c].def.name)];
             RaisesAt(g, srv, browsed + {child}, child, g.nodes[c].children, 0, k)
    ensures LinkOf(g, srv, browsed, start, c).0 ==
            if g.nodes[g.nodes[c].children[k]].def.rule.MandatoryPlaceholder? then Skip else RaiseInvalidChild
  {
    var child := srv.paths[(start, g.nodes[c].def.name)];
    ChildrenRaise(g, srv, browsed + {child}, child, g.nodes[c].children, 0, k, []);
  }
}
