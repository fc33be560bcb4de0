/** The type graphs on which repeated declarations never matter, whatever the server answers. */
module GuardedTypes {
  import opened OpcUa
  import opened Instance
  import opened ModelToJson
  import opened RepeatedChildren

  // ---------- the condition ----------

  /** Optional children lead from type `u` to one with a mandatory child. */
  predicate InvalidWalk(g: TypeGraph, u: nat, walk: seq<nat>)
    requires g.Valid() && u < |g.nodes|
    decreases |walk|
  {
    && walk != [] && walk[0] in g.nodes[u].children && walk[0] < |g.nodes|
    && if |walk| == 1 then g.nodes[walk[0]].def.rule.Mandatory?
       else g.nodes[walk[0]].def.rule.Optional? && InvalidWalk(g, walk[0], walk[1..])
  }

  predicate HasMandatoryPlaceholder(g: TypeGraph, u: nat)
    requires g.Valid() && u < |g.nodes|
  {
    exists k :: 0 <= k < |g.nodes[u].children| && g.nodes[g.nodes[u].children[k]].def.rule.MandatoryPlaceholder?
  }

  /** Some server makes reading an instance of type `u` throw. */
  ghost predicate CanFail(g: TypeGraph, u: nat)
    requires g.Valid() && u < |g.nodes|
  {
    HasMandatoryPlaceholder(g, u) || exists walk :: InvalidWalk(g, u, walk)
  }

  ghost predicate NoElementCanFail(g: TypeGraph)
    requires g.Valid()
  {
    forall n :: n in g.typeMap ==> !CanFail(g, g.typeMap[n])
  }

  predicate SameQuery(g: TypeGraph, c: nat, d: nat)
    requires c < |g.nodes| && d < |g.nodes|
  {
    g.nodes[c].reference == g.nodes[d].reference && g.nodes[c].typeId == g.nodes[d].typeId
  }

  /** Before place `i`, a mandatory placeholder asks for the same elements. */
  predicate ReadBefore(g: TypeGraph, cs: seq<nat>, i: nat)
    requires (forall k :: 0 <= k < |cs| ==> cs[k] < |g.nodes|) && i < |cs|
  {
    exists k :: 0 <= k < i && g.nodes[cs[k]].def.rule.MandatoryPlaceholder? && SameQuery(g, cs[k], cs[i])
  }

  /** The child at place `i`, if it is declared again later, is never dropped by an exception
      that would not come again. */
  ghost predicate GuardedAt(g: TypeGraph, cs: seq<nat>, i: nat)
    requires g.Valid() && (forall k :: 0 <= k < |cs| ==> cs[k] < |g.nodes|) && i < |cs|
  {
    cs[i] in cs[i + 1..] ==>
      match g.nodes[cs[i]].def.rule
      case NoRule | Mandatory | MandatoryPlaceholder => true
      case Optional => !HasMandatoryPlaceholder(g, cs[i])
      case OptionalPlaceholder => NoElementCanFail(g) || ReadBefore(g, cs, i)
  }

  ghost predicate Guarded(g: TypeGraph)
    requires g.Valid()
  {
    forall t, i :: 0 <= t < |g.nodes| && 0 <= i < |g.nodes[t].children| ==> GuardedAt(g, g.nodes[t].children, i)
  }

  // ---------- what an exception needs ----------

  /** A plain exception comes from a mandatory placeholder child, and an invalid child from a
      walk over optional children. */
  lemma {:induction false} FailureNeeds(g: TypeGraph, srv: Server, browsed: set<NodeId>, start: NodeId, t: nat)
    requires g.Valid() && srv.Valid() && start in srv.ids && t < |g.nodes|
    ensures var o := Transform(g, srv, browsed, start, t).0;
            && (o.Plain? ==> HasMandatoryPlaceholder(g, t))
            && (o.InvalidChild? ==> exists walk :: InvalidWalk(g, t, walk))
    decreases srv.ids - browsed, 0, 0
  {
    if start !in browsed {
      ChildrenFailureNeeds(g, srv, browsed + {start}, start, t, 0, []);
    }
  }

  lemma {:induction false} ChildrenFailureNeeds(g: TypeGraph, srv: Server, browsed: set<NodeId>, start: NodeId, t: nat, i: nat,
                                                found: seq<Node>)
    requires g.Valid() && srv.Valid() && t < |g.nodes| && i <= |g.nodes[t].children|
    ensures var o := Children(g, srv, browsed, start, g.nodes[t].children, i, found).0;
            && (o.Plain? ==> HasMandatoryPlaceholder(g, t))
            && (o.InvalidChild? ==> exists walk :: InvalidWalk(g, t, walk))
    decreases srv.ids - browsed, 3, |g.nodes[t].children| - i
  {
    var cs := g.nodes[t].children;
    if i < |cs| {
      var (link, b) := LinkOf(g, srv, browsed, start, cs[i]);
      LinkFailureNeeds(g, srv, browsed, start, cs[i]);
      if link.RaiseInvalidChild? {
        if g.nodes[cs[i]].def.rule.Mandatory? {
          assert InvalidWalk(g, t, [cs[i]]);
        } else {
          var walk :| InvalidWalk(g, cs[i], walk);
          assert ([cs[i]] + walk)[1..] == walk;
          assert InvalidWalk(g, t, [cs[i]] + walk);
        }
      } else if !link.RaisePlain? {
        ChildrenFailureNeeds(g, srv, b, start, t, i + 1, if link.Push? then found + [link.node] else found);
      }
    }
  }

  lemma {:induction false} LinkFailureNeeds(g: TypeGraph, srv: Server, browsed: set<NodeId>, start: NodeId, c: nat)
    requires g.Valid() && srv.Valid() && c < |g.nodes|
    ensures var link := LinkOf(g, srv, browsed, start, c).0;
            var rule := g.nodes[c].def.rule;
            && (link.RaisePlain? ==> rule.MandatoryPlaceholder?)
            && (link.RaiseInvalidChild? ==> rule.Mandatory? || (rule.Optional? && exists walk :: InvalidWalk(g, c, walk)))
    decreases srv.ids - browsed, 2, 0
  {
    var path := (start, g.nodes[c].def.name);
    if g.nodes[c].def.rule.Optional? && path in srv.paths && srv.paths[path] != NULL_ID {
      FailureNeeds(g, srv, browsed, srv.paths[path], c);
    }
  }

  // ---------- guarded graphs have steady runs only ----------

  lemma ReadUpToLasts(g: TypeGraph, srv: Server, browsed: set<NodeId>, later: set<NodeId>, list: seq<BrowseResult>, i: nat)
    requires i <= |list| && browsed <= later && ReadUpTo(g, srv, browsed, list, i)
    ensures ReadUpTo(g, srv, later, list, i)
  {
  }

  /** Reading elements that succeeds has browsed them; reading that fails without a failing
      element got stuck at one without type. */
  lemma {:induction false} ElementsRead(g: TypeGraph, srv: Server, browsed: set<NodeId>, list: seq<BrowseResult>, i: nat, found: seq<Element>)
    requires g.Valid() && srv.Valid() && i <= |list| && forall k :: 0 <= k < |list| ==> list[k].nodeId in srv.ids
    requires ReadUpTo(g, srv, browsed, list, i)
    ensures var (o, b) := Elements(g, srv, browsed, list, i, found);
            && (o.Ok? ==> ReadUpTo(g, srv, b, list, |list|))
            && (!o.Ok? && NoElementCanFail(g) ==>
                  exists k :: 0 <= k < |list| && ElementType(srv, list[k]).None? && ReadUpTo(g, srv, b, list, k))
    decreases |list| - i
  {
    if i < |list| {
      var typ := ElementType(srv, list[i]);
      if typ.Some? && typ.value !in g.typeMap {
        ElementsRead(g, srv, browsed, list, i + 1, found);
      } else if typ.Some? {
        var (o, b) := Transform(g, srv, browsed, list[i].nodeId, g.typeMap[typ.value]);
        FailureNeeds(g, srv, browsed, list[i].nodeId, g.typeMap[typ.value]);
        if o.Ok? {
          ReadUpToLasts(g, srv, browsed, b, list, i);
          ElementsRead(g, srv, b, list, i + 1, found + [Element(list[i].browseName, typ.value, o.value)]);
        }
      }
    }
  }

  /** Reading elements again that were all read succeeds. */
  lemma {:induction false} ElementsReread(g: TypeGraph, srv: Server, browsed: set<NodeId>, list: seq<BrowseResult>, i: nat, found: seq<Element>)
    requires g.Valid() && srv.Valid() && i <= |list| && forall k :: 0 <= k < |list| ==> list[k].nodeId in srv.ids
    requires ReadUpTo(g, srv, browsed, list, |list|)
    ensures Elements(g, srv, browsed, list, i, found).0.Ok?
    decreases |list| - i
  {
    if i < |list| {
      var typ := ElementType(srv, list[i]);
      if typ.value !in g.typeMap {
        ElementsReread(g, srv, browsed, list, i + 1, found);
      } else {
        var n := Transform(g, srv, browsed, list[i].nodeId, g.typeMap[typ.value]).0.value;
        ElementsReread(g, srv, browsed, list, i + 1, found + [Element(list[i].browseName, typ.value, n)]);
      }
    }
  }

  /** The elements of the mandatory placeholders before place `i` were read. */
  predicate MandatoryRead(g: TypeGraph, srv: Server, browsed: set<NodeId>, start: NodeId, cs: seq<nat>, i: nat)
    requires (forall k :: 0 <= k < |cs| ==> cs[k] < |g.nodes|) && i <= |cs|
  {
    forall k :: 0 <= k < i && g.nodes[cs[k]].def.rule.MandatoryPlaceholder? ==>
      var query := (start, g.nodes[cs[k]].reference, g.nodes[cs[k]].typeId);
      query in srv.lists && ReadUpTo(g, srv, browsed, srv.lists[query], |srv.lists[query]|)
  }

  lemma {:induction false} GuardedIsSteady(g: TypeGraph, srv: Server, browsed: set<NodeId>, start: NodeId, t: nat)
    requires g.Valid() && srv.Valid() && Guarded(g) && start in srv.ids && t < |g.nodes|
    ensures Steady(g, srv, browsed, start, t)
    decreases srv.ids - browsed, 0, 0
  {
    if start !in browsed {
      GuardedChildren(g, srv, browsed + {start}, start, t, 0);
    }
  }

  lemma {:induction false} GuardedChildren(g: TypeGraph, srv: Server, browsed: set<NodeId>, start: NodeId, t: nat, i: nat)
    requires g.Valid() && srv.Valid() && Guarded(g) && t < |g.nodes| && i <= |g.nodes[t].children|
    requires MandatoryRead(g, srv, browsed, start, g.nodes[t].children, i)
    ensures SteadyChildren(g, srv, browsed, start, g.nodes[t].children, i)
    decreases srv.ids - browsed, 3, |g.nodes[t].children| - i
  {
    var cs := g.nodes[t].children;
    if i < |cs| {
      var (link, b) := LinkOf(g, srv, browsed, start, cs[i]);
      GuardedLink(g, srv, browsed, start, cs[i]);
      assert GuardedAt(g, cs, i);
      SkipsLast(g, srv, browsed, start, cs, i);
      if link.Push? || link.Skip? {
        StillRead(g, srv, browsed, start, cs, i);
        GuardedChildren(g, srv, b, start, t, i + 1);
      }
    }
  }

  lemma StillRead(g: TypeGraph, srv: Server, browsed: set<NodeId>, start: NodeId, cs: seq<nat>, i: nat)
    requires g.Valid() && srv.Valid() && i < |cs| && (forall k :: 0 <= k < |cs| ==> cs[k] < |g.nodes|)
    requires MandatoryRead(g, srv, browsed, start, cs, i)
    requires var link := LinkOf(g, srv, browsed, start, cs[i]).0; link.Push? || link.Skip?
    ensures MandatoryRead(g, srv, LinkOf(g, srv, browsed, start, cs[i]).1, start, cs, i + 1)
  {
    var b := LinkOf(g, srv, browsed, start, cs[i]).1;
    forall k | 0 <= k <= i && g.nodes[cs[k]].def.rule.MandatoryPlaceholder?
      ensures var query := (start, g.nodes[cs[k]].reference, g.nodes[cs[k]].typeId);
              query in srv.lists && ReadUpTo(g, srv, b, srv.lists[query], |srv.lists[query]|)
    {
      var query := (start, g.nodes[cs[k]].reference, g.nodes[cs[k]].typeId);
      if k < i {
        ReadUpToLasts(g, srv, browsed, b, srv.lists[query], |srv.lists[query]|);
      } else {
        ElementsRead(g, srv, browsed, srv.lists[query], 0, []);
      }
    }
  }

  /** Where a guarded child is skipped, it is skipped again, or not declared again. */
  lemma SkipsLast(g: TypeGraph, srv: Server, browsed: set<NodeId>, start: NodeId, cs: seq<nat>, i: nat)
    requires g.Valid() && srv.Valid() && i < |cs| && (forall k :: 0 <= k < |cs| ==> cs[k] < |g.nodes|)
    requires GuardedAt(g, cs, i) && MandatoryRead(g, srv, browsed, start, cs, i)
    ensures var (link, b) := LinkOf(g, srv, browsed, start, cs[i]);
            link.Skip? && cs[i] in cs[i + 1..] ==> SkipLasts(g, srv, b, start, cs[i])
  {
    var c := cs[i];
    var path, query := (start, g.nodes[c].def.name), (start, g.nodes[c].reference, g.nodes[c].typeId);
    if g.nodes[c].def.rule.IsPlaceholder() {
      if query in srv.lists {
        ElementsRead(g, srv, browsed, srv.lists[query], 0, []);
        if ReadBefore(g, cs, i) {
          ElementsReread(g, srv, browsed, srv.lists[query], 0, []);
        }
      }
    } else if path in srv.paths && srv.paths[path] != NULL_ID {
      FailureNeeds(g, srv, browsed, srv.paths[path], c);
    }
  }

  lemma {:induction false} GuardedLink(g: TypeGraph, srv: Server, browsed: set<NodeId>, start: NodeId, c: nat)
    requires g.Valid() && srv.Valid() && Guarded(g) && c < |g.nodes|
    ensures SteadyLink(g, srv, browsed, start, c)
    decreases srv.ids - browsed, 2, 0
  {
    var path, query := (start, g.nodes[c].def.name), (start, g.nodes[c].reference, g.nodes[c].typeId);
    match g.nodes[c].def.rule
    case NoRule =>
    case Optional | Mandatory =>
      if path in srv.paths && srv.paths[path] != NULL_ID {
        GuardedIsSteady(g, srv, browsed, srv.paths[path], c);
      }
    case OptionalPlaceholder | MandatoryPlaceholder =>
      if query in srv.lists {
        GuardedElements(g, srv, browsed, srv.lists[query], 0);
      }
  }

  lemma {:induction false} GuardedElements(g: TypeGraph, srv: Server, browsed: set<NodeId>, list: seq<BrowseResult>, i: nat)
    requires g.Valid() && srv.Valid() && Guarded(g) && i <= |list| && forall k :: 0 <= k < |list| ==> list[k].nodeId in srv.ids
    ensures SteadyElements(g, srv, browsed, list, i)
    decreases srv.ids - browsed, 1, |list| - i
  {
    if i < |list| {
      var typ := ElementType(srv, list[i]);
      if typ.Some? && typ.value !in g.typeMap {
        GuardedElements(g, srv, browsed, list, i + 1);
      } else if typ.Some? {
        var b := Transform(g, srv, browsed, list[i].nodeId, g.typeMap[typ.value]).1;
        GuardedIsSteady(g, srv, browsed, list[i].nodeId, g.typeMap[typ.value]);
        GuardedElements(g, srv, b, list, i + 1);
      }
    }
  }

  /** A fresh client reads the same tree, echoes aside, with and without the repetitions. */
  ghost predicate SameTree(g: TypeGraph, srv: Server, start: NodeId, t: nat)
    requires g.Valid() && srv.Valid() && start in srv.ids && t < |g.nodes|
  {
    DedupIsValid(g);
    var o, o' := Transform(g, srv, {}, start, t).0, Transform(Dedup(g), srv, {}, start, t).0;
    SameOutcome(o, o') && (o.Ok? ==> Similar(o.value, o'.value))
  }

  lemma GuardedReadsTheSame(g: TypeGraph, srv: Server, start: NodeId, t: nat)
    requires g.Valid() && srv.Valid() && Guarded(g) && start in srv.ids && t < |g.nodes|
    ensures SameTree(g, srv, start, t)
  {
    DedupIsValid(g);
    GuardedIsSteady(g, srv, {}, start, t);
    TransformDedup(g, srv, {}, start, t);
  }

  /** On guarded graphs, repeated declarations do not change what is published, whatever the
      server answers and whatever cycles types and nodes have. */
  lemma RepeatedDeclarationsDoNotMatter(g: TypeGraph, srv: Server, start: NodeId, t: nat, feed: map<NodeId, Json>)
    requires g.Valid() && srv.Valid() && Guarded(g) && start in srv.ids && t < |g.nodes|
    ensures Dedup(g).Valid() && MachineJson(g, srv, start, t, feed) == MachineJson(Dedup(g), srv, start, t, feed)
  {
    GuardedIsSteady(g, srv, {}, start, t);
    SteadyRunsPublishTheSame(g, srv, start, t, feed);
  }
}
