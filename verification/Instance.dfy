/** Instances: the type graph, the server's answers, and the tree of nodes that
    `TransformToNodeIds` builds by matching one against the other. */
module Instance {
  import opened OpcUa

  datatype Json = Null | Scalar(text: string) | Text(s: string) | List(items: seq<Json>) | Record(members: map<string, Json>)

  // ---------- the type graph ----------

  datatype Def = Def(nodeClass: NodeClass, rule: ModellingRule, name: QualifiedName)

  /** `children` are the specified child nodes, as indices into the graph: the graph may be
      cyclic and a child may be listed more than once. */
  datatype TypeNode = TypeNode(def: Def, reference: NodeId, typeId: NodeId, children: seq<nat>)

  datatype TypeGraph = TypeGraph(nodes: seq<TypeNode>, typeMap: map<NodeId, nat>) {
    predicate Valid() {
      && (forall t, i :: 0 <= t < |nodes| && 0 <= i < |nodes[t].children| ==> nodes[t].children[i] < |nodes|)
      && (forall n :: n in typeMap ==> typeMap[n] < |nodes|)
    }
  }

  // ---------- the server ----------

  /** The answers of the server; a call whose key is missing throws. `ids` is the (finite)
      set of node ids it can answer with. */
  datatype Server = Server(
    ids: set<NodeId>,
    paths: map<(NodeId, QualifiedName), NodeId>,
    lists: map<(NodeId, NodeId, NodeId), seq<BrowseResult>>,
    interfaces: map<NodeId, NodeId>)
  {
    predicate Valid() {
      && NULL_ID !in ids
      && (forall k :: k in paths && paths[k] != NULL_ID ==> paths[k] in ids)
      && (forall k, i :: k in lists && 0 <= i < |lists[k]| ==> lists[k][i].nodeId in ids)
    }
  }

  // ---------- the instance tree ----------

  /** `value` is what the value callback returns for the node; `Null` if it has no value. */
  datatype Node =
    | Simple(id: NodeId, def: Def, children: seq<Node>, value: Json)
    | Placeholder(def: Def, elements: seq<Element>)

  datatype Element = Element(name: QualifiedName, typeDefinition: NodeId, node: Node)

  /** `InvalidChild` is the exception type of that name, `Plain` any other exception. */
  datatype Outcome<+T> = Ok(value: T) | InvalidChild | Plain

  /** What one declared child contributes: a node, nothing, or an exception. */
  datatype Link = Push(node: Node) | Skip | RaiseInvalidChild | RaisePlain

  const BASE_OBJECT_TYPE := "i=58"

  /** The type a browsed placeholder element is matched with; a base object stands for its interface. */
  function ElementType(srv: Server, e: BrowseResult): Option<NodeId> {
    if e.typeDefinition.id != BASE_OBJECT_TYPE then Some(e.typeDefinition)
    else if e.nodeId in srv.interfaces then Some(srv.interfaces[e.nodeId])
    else None
  }

  // ---------- modelling rules and exceptions ----------

  function SimpleLink(rule: ModellingRule, child: Outcome<Node>): Link {
    match child
    case Ok(n) => Push(n)
    case InvalidChild => RaiseInvalidChild
    case Plain => if rule.Optional? then Skip else RaiseInvalidChild
  }

  function PlaceholderLink(def: Def, elements: Outcome<seq<Element>>): Link {
    if elements.Ok? then Push(Placeholder(def, elements.value))
    else if def.rule.OptionalPlaceholder? then Skip
    else RaisePlain
  }

  // ---------- TransformToNodeIds, threading the set of browsed nodes ----------

  function Transform(g: TypeGraph, srv: Server, browsed: set<NodeId>, start: NodeId, t: nat): (r: (Outcome<Node>, set<NodeId>))
    requires g.Valid() && srv.Valid() && start in srv.ids && t < |g.nodes|
    ensures browsed + {start} <= r.1
    decreases srv.ids - browsed, 0, 0
  {
    if start in browsed then (Ok(Simple(start, g.nodes[t].def, [], Null)), browsed)
    else
      var (found, b) := Children(g, srv, browsed + {start}, start, g.nodes[t].children, 0, []);
      (match found
       case Ok(children) => Ok(Simple(start, g.nodes[t].def, children, Null))
       case InvalidChild => InvalidChild
       case Plain => Plain, b)
  }

  function Children(g: TypeGraph, srv: Server, browsed: set<NodeId>, start: NodeId, cs: seq<nat>, i: nat, found: seq<Node>)
    : (r: (Outcome<seq<Node>>, set<NodeId>))
    requires g.Valid() && srv.Valid() && i <= |cs| && forall k :: 0 <= k < |cs| ==> cs[k] < |g.nodes|
    ensures browsed <= r.1
    decreases srv.ids - browsed, 3, |cs| - i
  {
    if i == |cs| then (Ok(found), browsed)
    else
      var (link, b) := LinkOf(g, srv, browsed, start, cs[i]);
      match link
      case Push(n) => Children(g, srv, b, start, cs, i + 1, found + [n])
      case Skip => Children(g, srv, b, start, cs, i + 1, found)
      case RaiseInvalidChild => (InvalidChild, b)
      case RaisePlain => (Plain, b)
  }

  function LinkOf(g: TypeGraph, srv: Server, browsed: set<NodeId>, start: NodeId, c: nat): (r: (Link, set<NodeId>))
    requires g.Valid() && srv.Valid() && c < |g.nodes|
    ensures browsed <= r.1
    decreases srv.ids - browsed, 2, 0
  {
    var child := g.nodes[c];
    match child.def.rule
    case NoRule => (Skip, browsed)
    case Optional | Mandatory =>
      var path := (start, child.def.name);
      if path !in srv.paths then (SimpleLink(child.def.rule, Plain), browsed)
      else if srv.paths[path] == NULL_ID then (Skip, browsed)
      else
        var (o, b) := Transform(g, srv, browsed, srv.paths[path], c);
        (SimpleLink(child.def.rule, o), b)
    case OptionalPlaceholder | MandatoryPlaceholder =>
      var query := (start, child.reference, child.typeId);
      if query !in srv.lists then (PlaceholderLink(child.def, Plain), browsed)
      else
        var (o, b) := Elements(g, srv, browsed, srv.lists[query], 0, []);
        (PlaceholderLink(child.def, o), b)
  }

  function Elements(g: TypeGraph, srv: Server, browsed: set<NodeId>, list: seq<BrowseResult>, i: nat, found: seq<Element>)
    : (r: (Outcome<seq<Element>>, set<NodeId>))
    requires g.Valid() && srv.Valid() && i <= |list| && forall k :: 0 <= k < |list| ==> list[k].nodeId in srv.ids
    ensures browsed <= r.1
    decreases srv.ids - browsed, 1, |list| - i
  {
    if i == |list| then (Ok(found), browsed)
    else
      var typ := ElementType(srv, list[i]);
      if typ.None? then (Plain, browsed)
      else if typ.value !in g.typeMap then Elements(g, srv, browsed, list, i + 1, found)
      else
        var (o, b) := Transform(g, srv, browsed, list[i].nodeId, g.typeMap[typ.value]);
        match o
        case Ok(n) => Elements(g, srv, b, list, i + 1, found + [Element(list[i].browseName, typ.value, n)])
        case InvalidChild => (InvalidChild, b)
        case Plain => (Plain, b)
  }
}
