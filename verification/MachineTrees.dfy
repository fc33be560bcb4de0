/** What a fresh client makes of a machine, from the compiled types to the published JSON: on
    address spaces in which different declared children lead to different nodes, reading is
    the ideal reading of the types without their repetitions. */
module MachineTrees {
  import opened OpcUa
  import opened Instance
  import opened Ideal
  import opened Conformance
  import opened ModelToJson
  import opened ValueFeed
  import opened RepeatedChildren
  import opened GuardedTypes
  import TypeCompilation
  import OpcUaTypeReader

  /** The types are guarded, and repetitions aside no two declared children of a node share a
      target. */
  ghost predicate Readable(g: TypeGraph, srv: Server, sh: Shape) {
    g.Valid() && Guarded(g) && NoRepeats(Dedup(g), srv, sh)
  }

  lemma GuardedReadsIdeal(g: TypeGraph, srv: Server, sh: Shape, start: NodeId, t: nat)
    requires Readable(g, srv, sh) && start in srv.ids && t < |g.nodes|
    ensures var o, ideal := Transform(g, srv, {}, start, t).0, IdealNode(Dedup(g), srv, sh, start, t);
            SameOutcome(o, ideal) && (o.Ok? ==> Similar(o.value, ideal.value))
  {
    GuardedReadsTheSame(g, srv, start, t);
    FreshClientReadsIdeal(Dedup(g), srv, sh, start, t);
  }

  /** The program rejects exactly the machines from which a fatal walk starts, and as invalid
      exactly those with one over a simple child before which no mandatory placeholder fails. */
  lemma MachineRejectedIff(g: TypeGraph, srv: Server, sh: Shape, start: NodeId, t: nat)
    requires Readable(g, srv, sh) && start in srv.ids && t < |g.nodes|
    ensures var o := Transform(g, srv, {}, start, t).0;
            && (o.Ok? <==> !exists k, walk :: FatalVia(Dedup(g), srv, sh, start, t, k, walk))
            && (o.InvalidChild? <==>
                  exists k, walk :: FatalVia(Dedup(g), srv, sh, start, t, k, walk) && RaisesInvalid(Dedup(g), srv, sh, start, t, k))
  {
    GuardedReadsIdeal(g, srv, sh, start, t);
    RejectedIff(Dedup(g), srv, sh, start, t);
  }

  /** The tree of an accepted machine is, echoes aside, one in which every node has all the
      children its type declares. */
  lemma MachineIsFull(g: TypeGraph, srv: Server, sh: Shape, start: NodeId, t: nat)
    requires Readable(g, srv, sh) && start in srv.ids && t < |g.nodes|
    ensures var o := Transform(g, srv, {}, start, t).0;
            o.Ok? ==> exists n: Node :: n.Simple? && n.id == start && Full(Dedup(g), srv, sh, n, t) && Similar(o.value, n)
  {
    GuardedReadsIdeal(g, srv, sh, start, t);
    IdealFull(Dedup(g), srv, sh, start, t);
  }

  /** What is published is the JSON of the ideal instance. */
  lemma MachinePublishesIdeal(g: TypeGraph, srv: Server, sh: Shape, start: NodeId, t: nat, feed: map<NodeId, Json>)
    requires Readable(g, srv, sh) && start in srv.ids && t < |g.nodes|
    ensures MachineJson(g, srv, start, t, feed) ==
            match IdealNode(Dedup(g), srv, sh, start, t)
            case Ok(n) => Ok(ToJson(Feed(n, {}, feed).0))
            case InvalidChild => InvalidChild
            case Plain => Plain
  {
    GuardedReadsIdeal(g, srv, sh, start, t);
    var o := Transform(g, srv, {}, start, t).0;
    if o.Ok? {
      SimilarPublish(o.value, IdealNode(Dedup(g), srv, sh, start, t).value, {}, feed);
    }
  }

  /** All of this for the graphs that the type reader builds, whose lists repeat children. */
  lemma CompiledMachine(bi: seq<TypeCompilation.BiNode>, lists: seq<seq<nat>>, listOf: seq<nat>, typeMap: map<NodeId, nat>,
                        srv: Server, sh: Shape, start: NodeId, n: NodeId, feed: map<NodeId, Json>)
    requires TypeCompilation.Stored(bi, lists) && |listOf| == |bi| && (forall i :: 0 <= i < |listOf| ==> listOf[i] < |bi|)
    requires (forall n :: n in typeMap ==> typeMap[n] < |bi|) && n in typeMap
    requires var g := OpcUaTypeReader.GraphOf(bi, lists, listOf, typeMap);
             (OpcUaTypeReader.GraphIsValid(bi, lists, listOf, typeMap); Guarded(g)) && NoRepeats(Dedup(g), srv, sh) && start in srv.ids
    ensures var g := OpcUaTypeReader.GraphOf(bi, lists, listOf, typeMap);
            && g.Valid() && n in g.typeMap && g.typeMap[n] < |g.nodes|
            && var ideal := IdealNode(Dedup(g), srv, sh, start, g.typeMap[n]);
               && SameOutcome(Transform(g, srv, {}, start, g.typeMap[n]).0, ideal)
               && (ideal.Ok? <==> !exists k, walk :: FatalVia(Dedup(g), srv, sh, start, g.typeMap[n], k, walk))
               && (ideal.Ok? ==> ideal.value.Simple? && Full(Dedup(g), srv, sh, ideal.value, g.typeMap[n])
                                 && MachineJson(g, srv, start, g.typeMap[n], feed) == Ok(ToJson(Feed(ideal.value, {}, feed).0)))
  {
    var g := OpcUaTypeReader.GraphOf(bi, lists, listOf, typeMap);
    OpcUaTypeReader.GraphIsValid(bi, lists, listOf, typeMap);
    var t := g.typeMap[n];
    GuardedReadsIdeal(g, srv, sh, start, t);
    RejectedIff(Dedup(g), srv, sh, start, t);
    IdealFull(Dedup(g), srv, sh, start, t);
    MachinePublishesIdeal(g, srv, sh, start, t, feed);
  }

  // ---------- what the graph says of a compiled type ----------

  /** A structure node as its browsed node describes it. */
  predicate Describes(node: TypeNode, b: TypeCompilation.BiNode) {
    && node.def.nodeClass == b.nodeClass && node.def.rule == b.rule && node.def.name == b.name
    && node.reference == b.reference && node.typeId == b.typeId
  }

  lemma NodesDescribed(bi: seq<TypeCompilation.BiNode>, lists: seq<seq<nat>>, listOf: seq<nat>, typeMap: map<NodeId, nat>, i: nat)
    requires TypeCompilation.Stored(bi, lists) && |listOf| == |bi| && (forall i :: 0 <= i < |listOf| ==> listOf[i] < |bi|)
    requires (forall n :: n in typeMap ==> typeMap[n] < |bi|) && i < |bi|
    ensures var nodes := OpcUaTypeReader.GraphOf(bi, lists, listOf, typeMap).nodes;
            Describes(nodes[i], bi[i]) && Describes(nodes[|bi| + i], bi[i]) && nodes[|bi| + i].children == lists[i]
  {
    OpcUaTypeReader.GraphChildren(bi, lists, listOf, typeMap, i);
  }

  /** The list holds the winning declarations in order. */
  predicate HoldsWinners(bi: seq<TypeCompilation.BiNode>, d: seq<nat>, list: seq<nat>)
    requires TypeCompilation.InRange(bi, d)
  {
    && (forall p :: 0 <= p < |d| ==> (d[p] in list <==> TypeCompilation.Wins(bi, d, p)))
    && (forall k :: 0 <= k < |list| ==> list[k] in d && list[k] < |bi|)
    && TypeCompilation.InDeclarationOrder(d, list)
  }

  lemma EntryHoldsWinners(bi: seq<TypeCompilation.BiNode>, lists: seq<seq<nat>>, done: set<nat>, t: nat)
    requires TypeCompilation.WellFormed(bi) && TypeCompilation.Compiled(bi, lists, done) && t in done && t < |bi|
    ensures HoldsWinners(bi, TypeCompilation.Declarations(bi, t), lists[t])
  {
    TypeCompilation.CompiledEntry(bi, lists, done, t);
    TypeCompilation.DeclarationsAreDeclared(bi, t);
    TypeCompilation.EntryKeepsWinners(bi, TypeCompilation.Declarations(bi, t));
  }

  /** Node `e` of the graph is the entry of type `t`: it is described by the type's own node;
      its children are, in the order of their declarations, the winners of `d`, each described
      by the node that declares it. */
  predicate IsEntry(bi: seq<TypeCompilation.BiNode>, nodes: seq<TypeNode>, e: nat, t: nat, d: seq<nat>)
    requires TypeCompilation.InRange(bi, d) && t < |bi|
  {
    && e < |nodes| && Describes(nodes[e], bi[t]) && HoldsWinners(bi, d, nodes[e].children)
    && forall k :: 0 <= k < |nodes[e].children| && nodes[e].children[k] < |bi| ==>
         nodes[e].children[k] < |nodes| && Describes(nodes[nodes[e].children[k]], bi[nodes[e].children[k]])
  }

  lemma GraphNodesDescribed(bi: seq<TypeCompilation.BiNode>, lists: seq<seq<nat>>, listOf: seq<nat>, typeMap: map<NodeId, nat>)
    requires TypeCompilation.Stored(bi, lists) && |listOf| == |bi| && (forall i :: 0 <= i < |listOf| ==> listOf[i] < |bi|)
    requires forall n :: n in typeMap ==> typeMap[n] < |bi|
    ensures var nodes := OpcUaTypeReader.GraphOf(bi, lists, listOf, typeMap).nodes;
            forall i :: 0 <= i < |bi| ==>
              Describes(nodes[i], bi[i]) && Describes(nodes[|bi| + i], bi[i]) && nodes[|bi| + i].children == lists[i]
  {
    forall i | 0 <= i < |bi|
      ensures var nodes := OpcUaTypeReader.GraphOf(bi, lists, listOf, typeMap).nodes;
              Describes(nodes[i], bi[i]) && Describes(nodes[|bi| + i], bi[i]) && nodes[|bi| + i].children == lists[i]
    {
      NodesDescribed(bi, lists, listOf, typeMap, i);
    }
  }

  lemma EntryOfNodes(bi: seq<TypeCompilation.BiNode>, nodes: seq<TypeNode>, list: seq<nat>, t: nat, d: seq<nat>)
    requires TypeCompilation.InRange(bi, d) && t < |bi| && |nodes| == 2 * |bi| && HoldsWinners(bi, d, list)
    requires forall i :: 0 <= i < |bi| ==> Describes(nodes[i], bi[i])
    requires Describes(nodes[|bi| + t], bi[t]) && nodes[|bi| + t].children == list
    ensures IsEntry(bi, nodes, |bi| + t, t, d)
  {
  }

  /** The graph has, for every compiled type, the winners among the non-types that the type and
      its ancestors declare. */
  lemma EntryInGraph(bi: seq<TypeCompilation.BiNode>, lists: seq<seq<nat>>, listOf: seq<nat>, typeMap: map<NodeId, nat>,
                     done: set<nat>, n: NodeId)
    requires TypeCompilation.WellFormed(bi) && TypeCompilation.Compiled(bi, lists, done)
    requires |listOf| == |bi| && (forall i :: 0 <= i < |listOf| ==> listOf[i] < |bi|)
    requires (forall n :: n in typeMap ==> typeMap[n] < |bi|) && n in typeMap && typeMap[n] in done
    ensures var g := OpcUaTypeReader.GraphOf(bi, lists, listOf, typeMap);
            n in g.typeMap && IsEntry(bi, g.nodes, g.typeMap[n], typeMap[n], TypeCompilation.Declarations(bi, typeMap[n]))
  {
    EntryHoldsWinners(bi, lists, done, typeMap[n]);
    GraphNodesDescribed(bi, lists, listOf, typeMap);
    EntryOfNodes(bi, OpcUaTypeReader.GraphOf(bi, lists, listOf, typeMap).nodes, lists[typeMap[n]], typeMap[n],
                 TypeCompilation.Declarations(bi, typeMap[n]));
  }
}
