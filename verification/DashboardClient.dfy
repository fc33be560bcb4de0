/** The dashboard client as the program runs it: the recursion that matches a type against
    the server, growing one set of browsed nodes that lives as long as the client. */
module DashboardClient {
  import opened OpcUa
  import opened Instance

  class Client {
    const g: TypeGraph
    const srv: Server
    var browsedNodes: set<NodeId>
    /** The node ids whose declared children were read, in order. */
    ghost var expanded: seq<NodeId>

    ghost predicate Valid()
      reads this
    {
      && g.Valid() && srv.Valid() && browsedNodes <= srv.ids
      && (forall n :: n in browsedNodes <==> n in expanded)
      && (forall i, j :: 0 <= i < j < |expanded| ==> expanded[i] != expanded[j])
    }

    constructor (g: TypeGraph, srv: Server)
      requires g.Valid() && srv.Valid()
      ensures Valid() && this.g == g && this.srv == srv && browsedNodes == {} && expanded == []
    {
      this.g, this.srv := g, srv;
      browsedNodes, expanded := {}, [];
    }

    /** Terminates on every finite server, whatever cycles the types and the nodes have, and
        reads the children of a node id only the first time it meets it. */
    method TransformToNodeIds(start: NodeId, t: nat) returns (o: Outcome<Node>)
      requires Valid() && start in srv.ids && t < |g.nodes|
      modifies this
      ensures Valid() && old(expanded) <= expanded
      ensures (o, browsedNodes) == Transform(g, srv, old(browsedNodes), start, t)
      decreases srv.ids - browsedNodes, 0, 0
    {
      if start in browsedNodes {
        return Ok(Simple(start, g.nodes[t].def, [], Null));
      }
      browsedNodes, expanded := browsedNodes + {start}, expanded + [start];
      ghost var before := browsedNodes;
      var cs := g.nodes[t].children;
      var found: seq<Node> := [];
      for i := 0 to |cs|
        invariant Valid() && old(expanded) <= expanded && before <= browsedNodes
        invariant Children(g, srv, before, start, cs, 0, []) == Children(g, srv, browsedNodes, start, cs, i, found)
      {
        var link := ReadChild(start, cs[i]);
        match link
        case Push(n) => found := found + [n];
        case Skip =>
        case RaiseInvalidChild => return InvalidChild;
        case RaisePlain => return Plain;
      }
      return Ok(Simple(start, g.nodes[t].def, found, Null));
    }

    /** One declared child, by its modelling rule. */
    method ReadChild(start: NodeId, c: nat) returns (link: Link)
      requires Valid() && c < |g.nodes|
      modifies this
      ensures Valid() && old(expanded) <= expanded
      ensures (link, browsedNodes) == LinkOf(g, srv, old(browsedNodes), start, c)
      decreases srv.ids - browsedNodes, 3, 0
    {
      match g.nodes[c].def.rule
      case Optional | Mandatory =>
        link := OptionalAndMandatoryTransformToNodeId(start, c);
      case OptionalPlaceholder | MandatoryPlaceholder =>
        link := OptionalAndMandatoryPlaceholderTransformToNodeId(start, c);
      case NoRule =>
        link := Skip;
    }

    method OptionalAndMandatoryTransformToNodeId(start: NodeId, c: nat) returns (link: Link)
      requires Valid() && c < |g.nodes| && (g.nodes[c].def.rule.Optional? || g.nodes[c].def.rule.Mandatory?)
      modifies this
      ensures Valid() && old(expanded) <= expanded
      ensures (link, browsedNodes) == LinkOf(g, srv, old(browsedNodes), start, c)
      decreases srv.ids - browsedNodes, 2, 0
    {
      var path := (start, g.nodes[c].def.name);
      var child: Outcome<Node> := Plain;
      if path in srv.paths {
        if srv.paths[path] == NULL_ID {
          return Skip;
        }
        child := TransformToNodeIds(srv.paths[path], c);
      }
      link := SimpleLink(g.nodes[c].def.rule, child);
    }

    method OptionalAndMandatoryPlaceholderTransformToNodeId(start: NodeId, c: nat) returns (link: Link)
      requires Valid() && c < |g.nodes| && g.nodes[c].def.rule.IsPlaceholder()
      modifies this
      ensures Valid() && old(expanded) <= expanded
      ensures (link, browsedNodes) == LinkOf(g, srv, old(browsedNodes), start, c)
      decreases srv.ids - browsedNodes, 2, 0
    {
      var query := (start, g.nodes[c].reference, g.nodes[c].typeId);
      var elements: Outcome<seq<Element>> := Plain;
      if query in srv.lists {
        elements := PreparePlaceholderNodesTypeId(srv.lists[query]);
      }
      link := PlaceholderLink(g.nodes[c].def, elements);
    }

    method PreparePlaceholderNodesTypeId(list: seq<BrowseResult>) returns (o: Outcome<seq<Element>>)
      requires Valid() && forall k :: 0 <= k < |list| ==> list[k].nodeId in srv.ids
      modifies this
      ensures Valid() && old(expanded) <= expanded
      ensures (o, browsedNodes) == Elements(g, srv, old(browsedNodes), list, 0, [])
      decreases srv.ids - browsedNodes, 1, 0
    {
      var found: seq<Element> := [];
      for i := 0 to |list|
        invariant Valid() && old(expanded) <= expanded && old(browsedNodes) <= browsedNodes
        invariant Elements(g, srv, old(browsedNodes), list, 0, []) == Elements(g, srv, browsedNodes, list, i, found)
      {
        var typ := ElementType(srv, list[i]);
        if typ.None? {
          return Plain;
        }
        if typ.value in g.typeMap {
          var element := TransformToNodeIds(list[i].nodeId, g.typeMap[typ.value]);
          match element
          case Ok(n) => found := found + [Element(list[i].browseName, typ.value, n)];
          case InvalidChild => return InvalidChild;
          case Plain => return Plain;
        }
      }
      return Ok(found);
    }
  }
}
