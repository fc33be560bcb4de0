/** Which values a machine publishes, and where: the first variable with a node id, in the
    order in which the tree is traversed, shows what the server delivers for it. */
module PublishedValues {
  import opened OpcUa
  import opened Instance
  import opened ModelToJson
  import opened ValueFeed
  import opened JsonPaths
  import opened RepeatedChildren

  // ---------- the order of the traversal ----------

  /** A node comes before its descendants, and children and elements in their order. */
  predicate Before(p: seq<Step>, q: seq<Step>) {
    if p == [] then q != []
    else q != [] && (p[0].i < q[0].i || (p[0] == q[0] && Before(p[1..], q[1..])))
  }

  /** At `pos`, under published children only, is a variable with node id `x` that is optional
      or mandatory. */
  predicate Wants(n: Node, pos: seq<Step>, x: NodeId)
    decreases |pos|
  {
    if pos == [] then
      && n.Simple? && n.id == x
      && (n.def.nodeClass == NodeClass.Variable || n.def.nodeClass == NodeClass.VariableType)
      && (n.def.rule == ModellingRule.Optional || n.def.rule == ModellingRule.Mandatory)
    else
      match (n, pos[0])
      case (Simple(_, _, children, _), Child(i)) => i < |children| && Eligible(children[i]) && Wants(children[i], pos[1..], x)
      case (Placeholder(_, elements), Elem(i)) => i < |elements| && Wants(elements[i].node, pos[1..], x)
      case _ => false
  }

  /** It is the first one. */
  ghost predicate First(n: Node, pos: seq<Step>, x: NodeId) {
    Wants(n, pos, x) && forall q :: Before(q, pos) ==> !Wants(n, q, x)
  }

  ghost predicate WantedIn(n: Node, x: NodeId) {
    exists pos :: Wants(n, pos, x)
  }

  lemma WantsChild(n: Node, i: nat, pos: seq<Step>, x: NodeId)
    requires n.Simple? && i < |n.children|
    ensures Wants(n, [Child(i)] + pos, x) <==> Eligible(n.children[i]) && Wants(n.children[i], pos, x)
  {
    assert ([Child(i)] + pos)[1..] == pos;
  }

  lemma WantsElement(n: Node, i: nat, pos: seq<Step>, x: NodeId)
    requires n.Placeholder? && i < |n.elements|
    ensures Wants(n, [Elem(i)] + pos, x) <==> Wants(n.elements[i].node, pos, x)
  {
    assert ([Elem(i)] + pos)[1..] == pos;
  }

  lemma {:induction false} VariableIdsAreWanted(n: Node, x: NodeId)
    ensures x in VariableIds(n) <==> WantedIn(n, x)
    decreases n
  {
    match n
    case Simple(id, _, children, _) =>
      forall i | 0 <= i < |children|
        ensures x in VariableIds(children[i]) <==> WantedIn(children[i], x)
      {
        VariableIdsAreWanted(children[i], x);
      }
      WantedInSimple(n, x);
    case Placeholder(_, elements) =>
      forall i | 0 <= i < |elements|
        ensures x in ElementIds(elements[i]) <==> WantedIn(elements[i].node, x)
      {
        assert elements[i].node < elements[i];
        VariableIdsAreWanted(elements[i].node, x);
      }
      WantedInPlaceholder(n, x);
  }

  lemma WantedInSimple(n: Node, x: NodeId)
    requires n.Simple?
    ensures WantedIn(n, x) <==>
            Wants(n, [], x) || exists i :: 0 <= i < |n.children| && Eligible(n.children[i]) && WantedIn(n.children[i], x)
  {
    if pos: seq<Step> :| Wants(n, pos, x) && pos != [] {
      assert Wants(n.children[pos[0].i], pos[1..], x);
    }
    if i :| 0 <= i < |n.children| && Eligible(n.children[i]) && WantedIn(n.children[i], x) {
      var pos :| Wants(n.children[i], pos, x);
      WantsChild(n, i, pos, x);
    }
  }

  lemma WantedInPlaceholder(n: Node, x: NodeId)
    requires n.Placeholder?
    ensures WantedIn(n, x) <==> exists i :: 0 <= i < |n.elements| && WantedIn(n.elements[i].node, x)
  {
    if pos: seq<Step> :| Wants(n, pos, x) {
      assert Wants(n.elements[pos[0].i].node, pos[1..], x);
    }
    if i :| 0 <= i < |n.elements| && WantedIn(n.elements[i].node, x) {
      var pos :| Wants(n.elements[i].node, pos, x);
      WantsElement(n, i, pos, x);
    }
  }

  // ---------- the first one below a node ----------

  lemma FirstInChild(n: Node, i: nat, rest: seq<Step>, x: NodeId)
    requires n.Simple? && i < |n.children|
    ensures First(n, [Child(i)] + rest, x) <==>
            && Eligible(n.children[i]) && First(n.children[i], rest, x) && !Wants(n, [], x)
            && forall j :: 0 <= j < i && Eligible(n.children[j]) ==> !WantedIn(n.children[j], x)
  {
    var pos := [Child(i)] + rest;
    assert pos[1..] == rest;
    WantsChild(n, i, rest, x);
    if First(n, pos, x) {
      assert Before([], pos);
      forall q: seq<Step> | Before(q, rest)
        ensures !Wants(n.children[i], q, x)
      {
        WantsChild(n, i, q, x);
        assert ([Child(i)] + q)[1..] == q;
        assert Before([Child(i)] + q, pos);
      }
      forall j, q: seq<Step> | 0 <= j < i && Eligible(n.children[j])
        ensures !Wants(n.children[j], q, x)
      {
        WantsChild(n, j, q, x);
        assert Before([Child(j)] + q, pos);
      }
    }
    if Eligible(n.children[i]) && First(n.children[i], rest, x) && !Wants(n, [], x) &&
       forall j :: 0 <= j < i && Eligible(n.children[j]) ==> !WantedIn(n.children[j], x) {
      forall q: seq<Step> | Before(q, pos)
        ensures !Wants(n, q, x)
      {
        if q != [] && Wants(n, q, x) {
          assert Wants(n.children[q[0].i], q[1..], x);
          assert q[0].i < i ==> WantedIn(n.children[q[0].i], x);
        }
      }
    }
  }

  lemma FirstInElement(n: Node, i: nat, rest: seq<Step>, x: NodeId)
    requires n.Placeholder? && i < |n.elements|
    ensures First(n, [Elem(i)] + rest, x) <==>
            First(n.elements[i].node, rest, x) && forall j :: 0 <= j < i ==> !WantedIn(n.elements[j].node, x)
  {
    var pos := [Elem(i)] + rest;
    assert pos[1..] == rest;
    WantsElement(n, i, rest, x);
    if First(n, pos, x) {
      forall q: seq<Step> | Before(q, rest)
        ensures !Wants(n.elements[i].node, q, x)
      {
        WantsElement(n, i, q, x);
        assert ([Elem(i)] + q)[1..] == q;
        assert Before([Elem(i)] + q, pos);
      }
      forall j, q: seq<Step> | 0 <= j < i
        ensures !Wants(n.elements[j].node, q, x)
      {
        WantsElement(n, j, q, x);
        assert Before([Elem(j)] + q, pos);
      }
    }
    if First(n.elements[i].node, rest, x) && forall j :: 0 <= j < i ==> !WantedIn(n.elements[j].node, x) {
      forall q: seq<Step> | Before(q, pos)
        ensures !Wants(n, q, x)
      {
        if q != [] && Wants(n, q, x) {
          assert Wants(n.elements[q[0].i].node, q[1..], x);
          assert q[0].i < i ==> WantedIn(n.elements[q[0].i].node, x);
        }
      }
    }
  }

  // ---------- what the traversal makes of each child ----------

  lemma {:induction false} FedChild(children: seq<Node>, seen: set<NodeId>, feed: map<NodeId, Json>, i: nat)
    requires i < |children|
    ensures var fed := FeedChildren(children, seen, feed).0;
            && |fed| == |children|
            && fed[i] == if Eligible(children[i]) then Feed(children[i], FeedChildren(children[..i], seen, feed).1, feed).0 else children[i]
    decreases |children|
  {
    var last := |children| - 1;
    if i < last {
      FedChild(children[..last], seen, feed, i);
      assert children[..last][..i] == children[..i];
    } else if last > 0 {
      FedChild(children[..last], seen, feed, 0);
    }
  }

  lemma {:induction false} FedElement(elements: seq<Element>, seen: set<NodeId>, feed: map<NodeId, Json>, i: nat)
    requires i < |elements|
    ensures var fed := FeedElements(elements, seen, feed).0;
            && |fed| == |elements|
            && fed[i] == elements[i].(node := Feed(elements[i].node, FeedElements(elements[..i], seen, feed).1, feed).0)
    decreases |elements|
  {
    var last := |elements| - 1;
    assert elements[last].node < elements[last];
    if i < last {
      FedElement(elements[..last], seen, feed, i);
      assert elements[..last][..i] == elements[..i];
    } else if last > 0 {
      FedElement(elements[..last], seen, feed, 0);
    }
  }

  /** What was subscribed before child `i` had its turn. */
  lemma SeenBeforeChild(children: seq<Node>, seen: set<NodeId>, feed: map<NodeId, Json>, i: nat, x: NodeId)
    requires i <= |children| && x in feed
    ensures x in FeedChildren(children[..i], seen, feed).1 <==>
            x in seen || exists j :: 0 <= j < i && Eligible(children[j]) && WantedIn(children[j], x)
  {
    FeedChildrenSubscribe(children[..i], seen, feed);
    forall j | 0 <= j < i
      ensures x in VariableIds(children[..i][j]) <==> WantedIn(children[j], x)
    {
      VariableIdsAreWanted(children[j], x);
    }
    if j :| 0 <= j < i && Eligible(children[j]) && WantedIn(children[j], x) {
      assert Published(children[..i][j]);
    }
  }

  lemma SeenBeforeElement(elements: seq<Element>, seen: set<NodeId>, feed: map<NodeId, Json>, i: nat, x: NodeId)
    requires i <= |elements| && x in feed
    ensures x in FeedElements(elements[..i], seen, feed).1 <==>
            x in seen || exists j :: 0 <= j < i && WantedIn(elements[j].node, x)
  {
    FeedElementsSubscribe(elements[..i], seen, feed);
    forall j | 0 <= j < i
      ensures x in ElementIds(elements[..i][j]) <==> WantedIn(elements[j].node, x)
    {
      VariableIdsAreWanted(elements[j].node, x);
    }
    if j :| 0 <= j < i && WantedIn(elements[j].node, x) {
      assert x in ElementIds(elements[..i][j]);
    }
  }

  // ---------- the value of every node ----------

  /** The node at `pos` after the traversal. */
  predicate FedAs(n: Node, fed: Node, pos: seq<Step>, value: Json)
    requires At(n, pos).Some? && At(n, pos).value.Simple?
  {
    At(fed, pos).Some? &&
    var v, w := At(n, pos).value, At(fed, pos).value;
    w.Simple? && w.id == v.id && w.def == v.def && w.value == value
  }

  /** A node shows what is delivered for its node id exactly if it is the first one that wants
      it, nobody was subscribed to it before, and the server accepts; any other node keeps its
      value. */
  lemma {:induction false} FedValue(n: Node, seen: set<NodeId>, feed: map<NodeId, Json>, pos: seq<Step>)
    requires At(n, pos).Some? && At(n, pos).value.Simple?
    ensures var v := At(n, pos).value;
            FedAs(n, Feed(n, seen, feed).0, pos, if First(n, pos, v.id) && v.id !in seen && v.id in feed then feed[v.id] else v.value)
    decreases |pos|
  {
    if pos != [] {
      match n
      case Simple(_, _, _, _) => FedBelowSimple(n, seen, feed, pos);
      case Placeholder(_, _) => FedBelowPlaceholder(n, seen, feed, pos);
    }
  }

  lemma {:induction false} FedBelowSimple(n: Node, seen: set<NodeId>, feed: map<NodeId, Json>, pos: seq<Step>)
    requires n.Simple? && pos != [] && At(n, pos).Some? && At(n, pos).value.Simple?
    ensures var v := At(n, pos).value;
            FedAs(n, Feed(n, seen, feed).0, pos, if First(n, pos, v.id) && v.id !in seen && v.id in feed then feed[v.id] else v.value)
    decreases |pos|, 0
  {
    var i, rest, x := pos[0].i, pos[1..], At(n, pos).value.id;
    var start := if Wants(n, [], n.id) && n.id !in seen && n.id in feed then seen + {n.id} else seen;
    assert pos == [Child(i)] + rest;
    FirstInChild(n, i, rest, x);
    FedChild(n.children, start, feed, i);
    if Eligible(n.children[i]) {
      FedValue(n.children[i], FeedChildren(n.children[..i], start, feed).1, feed, rest);
      if x in feed {
        SeenBeforeChild(n.children, start, feed, i, x);
      }
    }
  }

  lemma {:induction false} FedBelowPlaceholder(n: Node, seen: set<NodeId>, feed: map<NodeId, Json>, pos: seq<Step>)
    requires n.Placeholder? && pos != [] && At(n, pos).Some? && At(n, pos).value.Simple?
    ensures var v := At(n, pos).value;
            FedAs(n, Feed(n, seen, feed).0, pos, if First(n, pos, v.id) && v.id !in seen && v.id in feed then feed[v.id] else v.value)
    decreases |pos|, 0
  {
    var i, rest, x := pos[0].i, pos[1..], At(n, pos).value.id;
    assert pos == [Elem(i)] + rest;
    FirstInElement(n, i, rest, x);
    FedElement(n.elements, seen, feed, i);
    FedValue(n.elements[i].node, FeedElements(n.elements[..i], seen, feed).1, feed, rest);
    if x in feed {
      SeenBeforeElement(n.elements, seen, feed, i, x);
    }
  }

  // ---------- and its place in the JSON ----------

  lemma OwnMemberFed(children: seq<Node>, fed: seq<Node>, i: nat)
    requires |fed| == |children| && i < |children| && forall k :: 0 <= k < |children| ==> fed[k].def == children[k].def
    ensures OwnMember(fed, i) == OwnMember(children, i)
  {
  }

  lemma OwnElementFed(elements: seq<Element>, fed: seq<Element>, i: nat)
    requires |fed| == |elements| && i < |elements| && forall k :: 0 <= k < |elements| ==> fed[k].name == elements[k].name
    ensures OwnElement(fed, i) == OwnElement(elements, i)
  {
  }

  lemma DefsFed(children: seq<Node>, seen: set<NodeId>, feed: map<NodeId, Json>)
    ensures var fed := FeedChildren(children, seen, feed).0;
            |fed| == |children| && forall k :: 0 <= k < |children| ==> fed[k].def == children[k].def
  {
    FeedChildrenTries(children, seen, feed);
  }

  lemma NamesFed(elements: seq<Element>, seen: set<NodeId>, feed: map<NodeId, Json>)
    ensures var fed := FeedElements(elements, seen, feed).0;
            |fed| == |elements| && forall k :: 0 <= k < |elements| ==>
              fed[k].name == elements[k].name && fed[k].typeDefinition == elements[k].typeDefinition
  {
    if elements != [] {
      FedElement(elements, seen, feed, 0);
    }
    forall k | 0 <= k < |elements|
      ensures var e := FeedElements(elements, seen, feed).0[k]; e.name == elements[k].name && e.typeDefinition == elements[k].typeDefinition
    {
      FedElement(elements, seen, feed, k);
    }
  }

  /** As many children; or the same elements in name and type. */
  predicate SameMembers(a: Node, b: Node) {
    match (a, b)
    case (Simple(_, _, as_, _), Simple(_, _, bs, _)) => |as_| == |bs|
    case (Placeholder(_, es), Placeholder(_, ds)) =>
      |es| == |ds| && forall k :: 0 <= k < |es| ==> es[k].name == ds[k].name && es[k].typeDefinition == ds[k].typeDefinition
    case _ => false
  }

  /** The traversal changes values only. */
  lemma {:induction false} FedShape(n: Node, seen: set<NodeId>, feed: map<NodeId, Json>, pos: seq<Step>)
    requires At(n, pos).Some?
    ensures var fed := Feed(n, seen, feed).0;
            && At(fed, pos).Some? && PathOf(fed, pos) == PathOf(n, pos) && Visible(fed, pos) == Visible(n, pos)
            && SameMembers(At(n, pos).value, At(fed, pos).value)
    decreases |pos|
  {
    FeedTries(n, seen, feed);
    match n
    case Simple(id, _, children, _) =>
      var start := if Subscribable(n) && id !in seen && id in feed then seen + {id} else seen;
      DefsFed(children, start, feed);
      if pos != [] {
        var i := pos[0].i;
        FedChild(children, start, feed, i);
        OwnMemberFed(children, FeedChildren(children, start, feed).0, i);
        FedShape(children[i], FeedChildren(children[..i], start, feed).1, feed, pos[1..]);
      }
    case Placeholder(_, elements) =>
      NamesFed(elements, seen, feed);
      if pos != [] {
        var i := pos[0].i;
        FedElement(elements, seen, feed, i);
        OwnElementFed(elements, FeedElements(elements, seen, feed).0, i);
        FedShape(elements[i].node, FeedElements(elements[..i], seen, feed).1, feed, pos[1..]);
      }
  }

  lemma {:induction false} WantsAt(n: Node, pos: seq<Step>, x: NodeId)
    requires Wants(n, pos, x)
    ensures At(n, pos).Some? && At(n, pos).value.Simple? && At(n, pos).value.id == x
    ensures var d := At(n, pos).value.def; d.nodeClass == NodeClass.Variable || d.nodeClass == NodeClass.VariableType
    decreases |pos|
  {
    if pos != [] {
      match n
      case Simple(_, _, children, _) => WantsAt(children[pos[0].i], pos[1..], x);
      case Placeholder(_, elements) => WantsAt(elements[pos[0].i].node, pos[1..], x);
    }
  }

  /** From the tree that was read to the JSON: the path of the first variable with a node id
      leads to what the server delivers for that node id. */
  lemma DeliveredIsPublished(n: Node, feed: map<NodeId, Json>, pos: seq<Step>, x: NodeId)
    requires First(n, pos, x) && x in feed && !feed[x].Null?
    requires At(n, pos).Some? && At(n, pos).value.Simple? && Visible(n, pos)
    requires HasBoth(At(n, pos).value) || At(n, pos).value.children == []
    requires ToJson(Feed(n, {}, feed).0).Some?
    ensures Lookup(ToJson(Feed(n, {}, feed).0).value, PathOf(n, pos)) == Some(feed[x])
  {
    WantsAt(n, pos, x);
    FedValue(n, {}, feed, pos);
    FedShape(n, {}, feed, pos);
    ValueIsPublished(Feed(n, {}, feed).0, pos);
  }

  /** The same from the answers of the server. */
  lemma MachinePublishesDelivered(g: TypeGraph, srv: Server, start: NodeId, t: nat, feed: map<NodeId, Json>, pos: seq<Step>, x: NodeId)
    requires g.Valid() && srv.Valid() && start in srv.ids && t < |g.nodes| && Transform(g, srv, {}, start, t).0.Ok?
    requires var n := Transform(g, srv, {}, start, t).0.value;
             && First(n, pos, x) && At(n, pos).Some? && At(n, pos).value.Simple? && Visible(n, pos)
             && (HasBoth(At(n, pos).value) || At(n, pos).value.children == [])
    requires x in feed && !feed[x].Null?
    requires var o := MachineJson(g, srv, start, t, feed); o.Ok? && o.value.Some?
    ensures var n := Transform(g, srv, {}, start, t).0.value;
            Lookup(MachineJson(g, srv, start, t, feed).value.value, PathOf(n, pos)) == Some(feed[x])
  {
    DeliveredIsPublished(Transform(g, srv, {}, start, t).0.value, feed, pos, x);
  }

  /** And every element of a placeholder is published with the text of its type definition. */
  lemma MachinePublishesTypes(g: TypeGraph, srv: Server, start: NodeId, t: nat, feed: map<NodeId, Json>, pos: seq<Step>, i: nat)
    requires g.Valid() && srv.Valid() && start in srv.ids && t < |g.nodes| && Transform(g, srv, {}, start, t).0.Ok?
    requires var n := Transform(g, srv, {}, start, t).0.value;
             && At(n, pos).Some? && At(n, pos).value.Placeholder? && Visible(n, pos)
             && i < |At(n, pos).value.elements| && OwnElement(At(n, pos).value.elements, i)
    requires var o := MachineJson(g, srv, start, t, feed); o.Ok? && o.value.Some?
    ensures var n := Transform(g, srv, {}, start, t).0.value;
            var e := At(n, pos).value.elements[i];
            Lookup(MachineJson(g, srv, start, t, feed).value.value, PathOf(n, pos) + [e.name.name, "$TypeDefinition"]) ==
            Some(Text(e.typeDefinition.Text()))
  {
    var n := Transform(g, srv, {}, start, t).0.value;
    var fed := Feed(n, {}, feed).0;
    FedShape(n, {}, feed, pos);
    OwnElementFed(At(n, pos).value.elements, At(fed, pos).value.elements, i);
    TypeTagIsPublished(fed, pos, i);
  }
}
