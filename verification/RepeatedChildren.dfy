/** A child that a type declares more than once does not change the published JSON, in runs
    that drop no such child for a passing reason: the first declaration carries the subtree
    and the subscription, later ones are leaves that rendering skips. */
module RepeatedChildren {
  import opened OpcUa
  import opened Instance
  import opened ModelToJson
  import opened ValueFeed
  import JsonPaths

  // ---------- type graphs without repeated declarations ----------

  /** The list with every later occurrence of an entry removed. */
  function Firsts(cs: seq<nat>): (r: seq<nat>)
    ensures forall c :: c in r <==> c in cs
  {
    if cs == [] then []
    else
      var front, last := cs[..|cs| - 1], cs[|cs| - 1];
      assert forall c :: c in cs <==> c in front || c == last;
      if last in front then Firsts(front) else Firsts(front) + [last]
  }

  function DedupNodes(nodes: seq<TypeNode>): (r: seq<TypeNode>)
    ensures |r| == |nodes|
    ensures forall t :: 0 <= t < |nodes| ==> r[t] == nodes[t].(children := Firsts(nodes[t].children))
  {
    seq(|nodes|, t requires 0 <= t < |nodes| => nodes[t].(children := Firsts(nodes[t].children)))
  }

  function Dedup(g: TypeGraph): TypeGraph {
    TypeGraph(DedupNodes(g.nodes), g.typeMap)
  }

  lemma DedupIsValid(g: TypeGraph)
    requires g.Valid()
    ensures Dedup(g).Valid()
  {
    var d := Dedup(g);
    forall t, i | 0 <= t < |d.nodes| && 0 <= i < |d.nodes[t].children|
      ensures d.nodes[t].children[i] < |d.nodes|
    {
      assert d.nodes[t].children[i] in d.nodes[t].children;
      var k :| 0 <= k < |g.nodes[t].children| && g.nodes[t].children[k] == d.nodes[t].children[i];
    }
  }

  // ---------- echoes ----------

  /** `d` is what reading the same declaration again yields after `e`: leaves only. */
  predicate Echo(e: Node, d: Node) {
    && e.def == d.def
    && match (e, d)
       case (Simple(i, _, _, _), Simple(j, _, children, value)) => i == j && children == [] && value == Null
       case (Placeholder(_, es), Placeholder(_, ds)) =>
         |es| == |ds| && forall k :: 0 <= k < |es| ==> EchoElement(es[k], ds[k])
       case _ => false
  }

  predicate EchoElement(e: Element, d: Element) {
    && e.node.Simple? && d.node.Simple?
    && e.node.def == d.node.def && e.node.id == d.node.id && d.node.children == [] && d.node.value == Null
  }

  /** `b` is `a` without echoes. */
  predicate Similar(a: Node, b: Node)
    decreases a, 1
  {
    && a.def == b.def
    && match (a, b)
       case (Simple(i, _, as_, v), Simple(j, _, bs, w)) => i == j && v == w == Null && SimilarChildren(as_, bs)
       case (Placeholder(_, es), Placeholder(_, ds)) => SimilarElements(es, ds)
       case _ => false
  }

  predicate SimilarChildren(xs: seq<Node>, ys: seq<Node>)
    decreases xs, 0
  {
    if xs == [] then ys == []
    else
      var front, last := xs[..|xs| - 1], xs[|xs| - 1];
      || (ys != [] && Similar(last, ys[|ys| - 1]) && SimilarChildren(front, ys[..|ys| - 1]))
      || ((exists k :: 0 <= k < |front| && Echo(front[k], last)) && SimilarChildren(front, ys))
  }

  predicate SimilarElements(es: seq<Element>, ds: seq<Element>)
    decreases es, 0
  {
    |es| == |ds| &&
    forall k :: 0 <= k < |es| ==>
      && es[k].name == ds[k].name && es[k].typeDefinition == ds[k].typeDefinition
      && (assert es[k].node < es[k]; Similar(es[k].node, ds[k].node))
  }

  // ---------- runs in which no repeated child is dropped after it was entered ----------

  /** Reading the declared child `c` of `start` asks the server for nodes below. */
  predicate Entered(g: TypeGraph, srv: Server, start: NodeId, c: nat)
    requires c < |g.nodes|
  {
    var child := g.nodes[c];
    match child.def.rule
    case NoRule => false
    case Optional | Mandatory =>
      var path := (start, child.def.name);
      path in srv.paths && srv.paths[path] != NULL_ID
    case OptionalPlaceholder | MandatoryPlaceholder => (start, child.reference, child.typeId) in srv.lists
  }

  /** The elements before `i` have types, and those that are read were browsed. */
  predicate ReadUpTo(g: TypeGraph, srv: Server, browsed: set<NodeId>, list: seq<BrowseResult>, i: nat)
    requires i <= |list|
  {
    forall j :: 0 <= j < i ==>
      var typ := ElementType(srv, list[j]);
      typ.Some? && (typ.value in g.typeMap ==> list[j].nodeId in browsed)
  }

  /** Reading the placeholder gets to an element without type, past nothing that is not browsed. */
  predicate StuckAgain(g: TypeGraph, srv: Server, browsed: set<NodeId>, start: NodeId, c: nat)
    requires c < |g.nodes|
  {
    var query := (start, g.nodes[c].reference, g.nodes[c].typeId);
    && g.nodes[c].def.rule.IsPlaceholder() && query in srv.lists
    && exists i :: 0 <= i < |srv.lists[query]| && ElementType(srv, srv.lists[query][i]).None? &&
                   ReadUpTo(g, srv, browsed, srv.lists[query], i)
  }

  /** A child that was skipped will be skipped again. */
  predicate SkipLasts(g: TypeGraph, srv: Server, browsed: set<NodeId>, start: NodeId, c: nat)
    requires c < |g.nodes|
  {
    !Entered(g, srv, start, c) || StuckAgain(g, srv, browsed, start, c)
  }

  /** In the run of `Transform`, a child that is declared again later is not dropped by an
      exception that came from below it. */
  predicate Steady(g: TypeGraph, srv: Server, browsed: set<NodeId>, start: NodeId, t: nat)
    requires g.Valid() && srv.Valid() && start in srv.ids && t < |g.nodes|
    decreases srv.ids - browsed, 0, 0
  {
    start in browsed || SteadyChildren(g, srv, browsed + {start}, start, g.nodes[t].children, 0)
  }

  predicate SteadyChildren(g: TypeGraph, srv: Server, browsed: set<NodeId>, start: NodeId, cs: seq<nat>, i: nat)
    requires g.Valid() && srv.Valid() && i <= |cs| && forall k :: 0 <= k < |cs| ==> cs[k] < |g.nodes|
    decreases srv.ids - browsed, 3, |cs| - i
  {
    i == |cs| ||
    (SteadyLink(g, srv, browsed, start, cs[i]) &&
     var (link, b) := LinkOf(g, srv, browsed, start, cs[i]);
     && (link.Skip? && !SkipLasts(g, srv, b, start, cs[i]) ==> cs[i] !in cs[i + 1..])
     && (link.Skip? || link.Push? ==> SteadyChildren(g, srv, b, start, cs, i + 1)))
  }

  predicate SteadyLink(g: TypeGraph, srv: Server, browsed: set<NodeId>, start: NodeId, c: nat)
    requires g.Valid() && srv.Valid() && c < |g.nodes|
    decreases srv.ids - browsed, 2, 0
  {
    var child := g.nodes[c];
    match child.def.rule
    case NoRule => true
    case Optional | Mandatory =>
      var path := (start, child.def.name);
      path in srv.paths && srv.paths[path] != NULL_ID ==> Steady(g, srv, browsed, srv.paths[path], c)
    case OptionalPlaceholder | MandatoryPlaceholder =>
      var query := (start, child.reference, child.typeId);
      query in srv.lists ==> SteadyElements(g, srv, browsed, srv.lists[query], 0)
  }

  predicate SteadyElements(g: TypeGraph, srv: Server, browsed: set<NodeId>, list: seq<BrowseResult>, i: nat)
    requires g.Valid() && srv.Valid() && i <= |list| && forall k :: 0 <= k < |list| ==> list[k].nodeId in srv.ids
    decreases srv.ids - browsed, 1, |list| - i
  {
    i == |list| ||
    (var typ := ElementType(srv, list[i]);
     typ.None? ||
     if typ.value !in g.typeMap then SteadyElements(g, srv, browsed, list, i + 1)
     else
       && Steady(g, srv, browsed, list[i].nodeId, g.typeMap[typ.value])
       && var (o, b) := Transform(g, srv, browsed, list[i].nodeId, g.typeMap[typ.value]);
          o.Ok? ==> SteadyElements(g, srv, b, list, i + 1))
  }

  // ---------- reading a declaration again ----------

  /** Whatever was browsed since `b`, reading `c` again adds nothing new: it is skipped
      again, or yields an echo of a node in `found`. */
  ghost predicate Settled(g: TypeGraph, srv: Server, start: NodeId, c: nat, b: set<NodeId>, found: seq<Node>)
    requires g.Valid() && srv.Valid() && c < |g.nodes|
  {
    forall b' :: b <= b' ==> SettledIn(g, srv, start, c, b', found)
  }

  /** Every child before `i` that is declared again from `i` on is settled. */
  ghost predicate AllSettled(g: TypeGraph, srv: Server, start: NodeId, cs: seq<nat>, i: nat, b: set<NodeId>, found: seq<Node>)
    requires g.Valid() && srv.Valid() && i <= |cs| && forall k :: 0 <= k < |cs| ==> cs[k] < |g.nodes|
  {
    forall c :: c in cs[..i] && c in cs[i..] ==> Settled(g, srv, start, c, b, found)
  }

  predicate SettledIn(g: TypeGraph, srv: Server, start: NodeId, c: nat, b: set<NodeId>, found: seq<Node>)
    requires g.Valid() && srv.Valid() && c < |g.nodes|
  {
    var (link, after) := LinkOf(g, srv, b, start, c);
    after == b &&
    (link.Skip? || (link.Push? && exists k :: 0 <= k < |found| && Echo(found[k], link.node)))
  }

  lemma {:induction false} ElementsAgain(g: TypeGraph, srv: Server, browsed: set<NodeId>, list: seq<BrowseResult>, i: nat,
                                         found: seq<Element>, again: set<NodeId>, found': seq<Element>)
    requires g.Valid() && srv.Valid() && i <= |list| && forall k :: 0 <= k < |list| ==> list[k].nodeId in srv.ids
    requires Elements(g, srv, browsed, list, i, found).0.Ok? && Elements(g, srv, browsed, list, i, found).1 <= again
    requires |found| == |found'| && forall k :: 0 <= k < |found| ==> EchoElement(found[k], found'[k])
    ensures var (o, b) := Elements(g, srv, again, list, i, found');
            && o.Ok? && b == again
            && var first := Elements(g, srv, browsed, list, i, found).0.value;
               |first| == |o.value| && forall k :: 0 <= k < |first| ==> EchoElement(first[k], o.value[k])
    decreases |list| - i
  {
    if i < |list| {
      var typ := ElementType(srv, list[i]);
      if typ.value !in g.typeMap {
        ElementsAgain(g, srv, browsed, list, i + 1, found, again, found');
      } else {
        var (o, b) := Transform(g, srv, browsed, list[i].nodeId, g.typeMap[typ.value]);
        var (o', b') := Transform(g, srv, again, list[i].nodeId, g.typeMap[typ.value]);
        var e, e' := Element(list[i].browseName, typ.value, o.value), Element(list[i].browseName, typ.value, o'.value);
        assert list[i].nodeId in again;
        ElementsAgain(g, srv, b, list, i + 1, found + [e], again, found' + [e']);
      }
    }
  }

  lemma {:induction false} ElementsStuck(g: TypeGraph, srv: Server, browsed: set<NodeId>, list: seq<BrowseResult>, k: nat, i: nat,
                                         found: seq<Element>)
    requires g.Valid() && srv.Valid() && i <= k < |list| && forall j :: 0 <= j < |list| ==> list[j].nodeId in srv.ids
    requires ElementType(srv, list[k]).None? && ReadUpTo(g, srv, browsed, list, k)
    ensures Elements(g, srv, browsed, list, i, found) == (Plain, browsed)
    decreases k - i
  {
    if i < k {
      var typ := ElementType(srv, list[i]);
      if typ.value !in g.typeMap {
        ElementsStuck(g, srv, browsed, list, k, i + 1, found);
      } else {
        var n := Transform(g, srv, browsed, list[i].nodeId, g.typeMap[typ.value]).0.value;
        ElementsStuck(g, srv, browsed, list, k, i + 1, found + [Element(list[i].browseName, typ.value, n)]);
      }
    }
  }

  lemma LinkAgain(g: TypeGraph, srv: Server, browsed: set<NodeId>, start: NodeId, c: nat, again: set<NodeId>)
    requires g.Valid() && srv.Valid() && c < |g.nodes|
    requires var (link, b) := LinkOf(g, srv, browsed, start, c);
             && b <= again && (link.Push? || link.Skip?)
             && (link.Skip? ==> SkipLasts(g, srv, b, start, c))
    ensures var (link, after) := LinkOf(g, srv, again, start, c);
            && after == again
            && (LinkOf(g, srv, browsed, start, c).0.Skip? ==> link.Skip?)
            && (LinkOf(g, srv, browsed, start, c).0.Push? ==>
                  link.Push? && Echo(LinkOf(g, srv, browsed, start, c).0.node, link.node))
  {
    var child := g.nodes[c];
    if child.def.rule.IsPlaceholder() {
      var query := (start, child.reference, child.typeId);
      if query in srv.lists {
        var (link, b) := LinkOf(g, srv, browsed, start, c);
        if link.Push? {
          ElementsAgain(g, srv, browsed, srv.lists[query], 0, [], again, []);
        } else {
          var i :| 0 <= i < |srv.lists[query]| && ElementType(srv, srv.lists[query][i]).None? &&
                   ReadUpTo(g, srv, b, srv.lists[query], i);
          ElementsStuck(g, srv, again, srv.lists[query], i, 0, []);
        }
      }
    }
  }

  /** An optional child that was dropped after it was entered comes back as a bare leaf where
      the type declares it again. */
  lemma DroppedChildComesBack(g: TypeGraph, srv: Server, browsed: set<NodeId>, start: NodeId, c: nat, again: set<NodeId>)
    requires g.Valid() && srv.Valid() && c < |g.nodes| && g.nodes[c].def.rule.Optional?
    requires LinkOf(g, srv, browsed, start, c).0.Skip? && Entered(g, srv, start, c)
    requires LinkOf(g, srv, browsed, start, c).1 <= again
    ensures LinkOf(g, srv, again, start, c) ==
            (Push(Simple(srv.paths[(start, g.nodes[c].def.name)], g.nodes[c].def, [], Null)), again)
  {
    var child := srv.paths[(start, g.nodes[c].def.name)];
    assert child in Transform(g, srv, browsed, child, c).1;
  }

  lemma FirstReadingSettles(g: TypeGraph, srv: Server, browsed: set<NodeId>, start: NodeId, c: nat, found: seq<Node>)
    requires g.Valid() && srv.Valid() && c < |g.nodes|
    requires var link := LinkOf(g, srv, browsed, start, c).0;
             && (link.Push? || link.Skip?) && (link.Skip? ==> SkipLasts(g, srv, LinkOf(g, srv, browsed, start, c).1, start, c))
             && (link.Push? ==> link.node in found)
    ensures Settled(g, srv, start, c, LinkOf(g, srv, browsed, start, c).1, found)
  {
    var (link, b) := LinkOf(g, srv, browsed, start, c);
    forall b' | b <= b'
      ensures SettledIn(g, srv, start, c, b', found)
    {
      LinkAgain(g, srv, browsed, start, c, b');
      if link.Push? {
        var k :| 0 <= k < |found| && found[k] == link.node;
        assert Echo(found[k], LinkOf(g, srv, b', start, c).0.node);
      }
    }
  }

  lemma SettledLasts(g: TypeGraph, srv: Server, start: NodeId, c: nat, b: set<NodeId>, found: seq<Node>, later: set<NodeId>, n: Node)
    requires g.Valid() && srv.Valid() && c < |g.nodes| && Settled(g, srv, start, c, b, found) && b <= later
    ensures Settled(g, srv, start, c, later, found) && Settled(g, srv, start, c, later, found + [n])
  {
    forall b' | later <= b'
      ensures SettledIn(g, srv, start, c, b', found) && SettledIn(g, srv, start, c, b', found + [n])
    {
      assert SettledIn(g, srv, start, c, b', found);
      var link := LinkOf(g, srv, b', start, c).0;
      if link.Push? {
        var k :| 0 <= k < |found| && Echo(found[k], link.node);
        assert (found + [n])[k] == found[k];
      }
    }
  }

  // ---------- the two readings side by side ----------

  predicate SameOutcome<A, B>(a: Outcome<A>, b: Outcome<B>) {
    a.Ok? == b.Ok? && a.InvalidChild? == b.InvalidChild?
  }

  predicate SimilarLinks(a: Link, b: Link) {
    if a.Push? then b.Push? && Similar(a.node, b.node) else a == b
  }

  lemma {:induction false} FirstsPrefix(cs: seq<nat>, i: nat)
    requires i < |cs|
    ensures |Firsts(cs[..i])| <= |Firsts(cs)|
    ensures Firsts(cs[..i + 1]) == Firsts(cs[..i]) + if cs[i] in cs[..i] then [] else [cs[i]]
    ensures cs[i] !in cs[..i] ==> |Firsts(cs[..i])| < |Firsts(cs)| && Firsts(cs)[|Firsts(cs[..i])|] == cs[i]
  {
    assert cs[..i + 1][..i] == cs[..i] && cs[..i + 1][i] == cs[i];
    FirstsExtends(cs, i + 1);
    FirstsExtends(cs, i);
  }

  lemma {:induction false} FirstsExtends(cs: seq<nat>, i: nat)
    requires i <= |cs|
    ensures Firsts(cs[..i]) <= Firsts(cs)
  {
    if i == |cs| {
      assert cs[..i] == cs;
    } else {
      var front := cs[..|cs| - 1];
      FirstsExtends(front, i);
      assert front[..i] == cs[..i];
    }
  }

  lemma FirstsBound(cs: seq<nat>, n: nat)
    requires forall k :: 0 <= k < |cs| ==> cs[k] < n
    ensures forall k :: 0 <= k < |Firsts(cs)| ==> Firsts(cs)[k] < n
  {
    forall k | 0 <= k < |Firsts(cs)|
      ensures Firsts(cs)[k] < n
    {
      assert Firsts(cs)[k] in cs;
    }
  }

  /** From child `i` on, both readings browse the same nodes and end alike. */
  predicate SameReading(g: TypeGraph, srv: Server, browsed: set<NodeId>, start: NodeId, cs: seq<nat>, i: nat,
                        found: seq<Node>, found': seq<Node>)
    requires g.Valid() && Dedup(g).Valid() && srv.Valid() && i <= |cs| && forall k :: 0 <= k < |cs| ==> cs[k] < |g.nodes|
  {
    FirstsBound(cs, |g.nodes|);
    FirstsExtends(cs, i);
    var (o, b) := Children(g, srv, browsed, start, cs, i, found);
    var (o', b') := Children(Dedup(g), srv, browsed, start, Firsts(cs), |Firsts(cs[..i])|, found');
    b == b' && SameOutcome(o, o') && (o.Ok? ==> SimilarChildren(o.value, o'.value))
  }

  lemma {:induction false} TransformDedup(g: TypeGraph, srv: Server, browsed: set<NodeId>, start: NodeId, t: nat)
    requires g.Valid() && Dedup(g).Valid() && srv.Valid() && start in srv.ids && t < |g.nodes|
    requires Steady(g, srv, browsed, start, t)
    ensures var (o, b) := Transform(g, srv, browsed, start, t);
            var (o', b') := Transform(Dedup(g), srv, browsed, start, t);
            b == b' && SameOutcome(o, o') && (o.Ok? ==> Similar(o.value, o'.value))
    decreases srv.ids - browsed, 0, 0
  {
    if start !in browsed {
      var cs := g.nodes[t].children;
      assert cs[..0] == [];
      ChildrenDedup(g, srv, browsed + {start}, start, cs, 0, [], []);
    }
  }

  lemma {:induction false} ChildrenDedup(g: TypeGraph, srv: Server, browsed: set<NodeId>, start: NodeId, cs: seq<nat>, i: nat,
                                         found: seq<Node>, found': seq<Node>)
    requires g.Valid() && Dedup(g).Valid() && srv.Valid() && i <= |cs| && forall k :: 0 <= k < |cs| ==> cs[k] < |g.nodes|
    requires SteadyChildren(g, srv, browsed, start, cs, i) && SimilarChildren(found, found')
    requires AllSettled(g, srv, start, cs, i, browsed, found)
    ensures SameReading(g, srv, browsed, start, cs, i, found, found')
    decreases srv.ids - browsed, 3, |cs| - i
  {
    FirstsBound(cs, |g.nodes|);
    if i == |cs| {
      assert cs[..i] == cs;
    } else {
      var c := cs[i];
      var (link, b) := LinkOf(g, srv, browsed, start, c);
      FirstsPrefix(cs, i);
      assert cs[i..] == [c] + cs[i + 1..] && cs[..i + 1] == cs[..i] + [c];
      if c in cs[..i] {
        assert SettledIn(g, srv, start, c, browsed, found);
        RepeatStep(g, srv, browsed, start, cs, i, found, found', link, b);
      } else {
        LinkDedup(g, srv, browsed, start, c);
        if link.Push? || link.Skip? {
          FirstStep(g, srv, browsed, start, cs, i, found, found', link, b);
        }
      }
    }
  }

  /** One step over a child that was declared before: only the longer reading moves. */
  lemma {:induction false} RepeatStep(g: TypeGraph, srv: Server, browsed: set<NodeId>, start: NodeId, cs: seq<nat>, i: nat,
                                      found: seq<Node>, found': seq<Node>, link: Link, b: set<NodeId>)
    requires g.Valid() && Dedup(g).Valid() && srv.Valid() && i < |cs| && forall k :: 0 <= k < |cs| ==> cs[k] < |g.nodes|
    requires SteadyChildren(g, srv, browsed, start, cs, i) && SimilarChildren(found, found')
    requires AllSettled(g, srv, start, cs, i, browsed, found)
    requires cs[i] in cs[..i] && (link, b) == LinkOf(g, srv, browsed, start, cs[i])
    ensures SameReading(g, srv, browsed, start, cs, i, found, found')
    decreases srv.ids - browsed, 3, |cs| - i, 0
  {
    var c := cs[i];
    assert c in cs[i..];
    assert SettledIn(g, srv, start, c, browsed, found);
    FirstsPrefix(cs, i);
    var next := if link.Push? then found + [link.node] else found;
    if link.Push? {
      assert next[..|next| - 1] == found;
      assert SimilarChildren(next, found');
    }
    forall c' | c' in cs[..i + 1] && c' in cs[i + 1..]
      ensures Settled(g, srv, start, c', b, next)
    {
      assert c' in cs[..i] && c' in cs[i..];
      SettledLasts(g, srv, start, c', browsed, found, b, if link.Push? then link.node else Placeholder(g.nodes[c].def, []));
    }
    ChildrenDedup(g, srv, b, start, cs, i + 1, next, found');
  }

  /** One step over a child that is declared for the first time: both readings move. */
  lemma {:induction false} FirstStep(g: TypeGraph, srv: Server, browsed: set<NodeId>, start: NodeId, cs: seq<nat>, i: nat,
                                     found: seq<Node>, found': seq<Node>, link: Link, b: set<NodeId>)
    requires g.Valid() && Dedup(g).Valid() && srv.Valid() && i < |cs| && forall k :: 0 <= k < |cs| ==> cs[k] < |g.nodes|
    requires SteadyChildren(g, srv, browsed, start, cs, i) && SimilarChildren(found, found')
    requires AllSettled(g, srv, start, cs, i, browsed, found)
    requires cs[i] !in cs[..i] && (link, b) == LinkOf(g, srv, browsed, start, cs[i]) && (link.Push? || link.Skip?)
    requires LinkOf(Dedup(g), srv, browsed, start, cs[i]).1 == b
    requires SimilarLinks(link, LinkOf(Dedup(g), srv, browsed, start, cs[i]).0)
    ensures SameReading(g, srv, browsed, start, cs, i, found, found')
    decreases srv.ids - browsed, 3, |cs| - i, 0
  {
    var c := cs[i];
    var link' := LinkOf(Dedup(g), srv, browsed, start, c).0;
    var next := if link.Push? then found + [link.node] else found;
    var next' := if link.Push? then found' + [link'.node] else found';
    SimilarMore(found, found', link, link');
    StillSettled(g, srv, browsed, start, cs, i, found, link, b);
    ChildrenDedup(g, srv, b, start, cs, i + 1, next, next');
    FirstsBound(cs, |g.nodes|);
    FirstsPrefix(cs, i);
  }

  lemma SimilarMore(found: seq<Node>, found': seq<Node>, link: Link, link': Link)
    requires SimilarChildren(found, found') && SimilarLinks(link, link')
    ensures link.Push? ==> SimilarChildren(found + [link.node], found' + [link'.node])
  {
    if link.Push? {
      assert (found + [link.node])[..|found|] == found && (found' + [link'.node])[..|found'|] == found';
    }
  }

  lemma StillSettled(g: TypeGraph, srv: Server, browsed: set<NodeId>, start: NodeId, cs: seq<nat>, i: nat,
                     found: seq<Node>, link: Link, b: set<NodeId>)
    requires g.Valid() && srv.Valid() && i < |cs| && forall k :: 0 <= k < |cs| ==> cs[k] < |g.nodes|
    requires (link, b) == LinkOf(g, srv, browsed, start, cs[i]) && (link.Push? || link.Skip?)
    requires cs[i] !in cs[..i] && (link.Skip? && !SkipLasts(g, srv, b, start, cs[i]) ==> cs[i] !in cs[i + 1..])
    requires AllSettled(g, srv, start, cs, i, browsed, found)
    ensures AllSettled(g, srv, start, cs, i + 1, b, if link.Push? then found + [link.node] else found)
  {
    var next := if link.Push? then found + [link.node] else found;
    forall c | c in cs[..i + 1] && c in cs[i + 1..]
      ensures Settled(g, srv, start, c, b, next)
    {
      assert cs[..i + 1] == cs[..i] + [cs[i]] && cs[i..] == [cs[i]] + cs[i + 1..];
      if c == cs[i] {
        if link.Push? {
          assert next[|found|] == link.node;
        }
        FirstReadingSettles(g, srv, browsed, start, c, next);
      } else {
        SettledLasts(g, srv, start, c, browsed, found, b, if link.Push? then link.node else Placeholder(g.nodes[c].def, []));
      }
    }
  }

  lemma {:induction false} LinkDedup(g: TypeGraph, srv: Server, browsed: set<NodeId>, start: NodeId, c: nat)
    requires g.Valid() && Dedup(g).Valid() && srv.Valid() && c < |g.nodes| && SteadyLink(g, srv, browsed, start, c)
    ensures var (link, b) := LinkOf(g, srv, browsed, start, c);
            var (link', b') := LinkOf(Dedup(g), srv, browsed, start, c);
            b == b' && SimilarLinks(link, link')
    decreases srv.ids - browsed, 2, 0
  {
    var child := g.nodes[c];
    match child.def.rule
    case NoRule =>
    case Optional | Mandatory =>
      var path := (start, child.def.name);
      if path in srv.paths && srv.paths[path] != NULL_ID {
        TransformDedup(g, srv, browsed, srv.paths[path], c);
      }
    case OptionalPlaceholder | MandatoryPlaceholder =>
      var query := (start, child.reference, child.typeId);
      if query in srv.lists {
        ElementsDedup(g, srv, browsed, srv.lists[query], 0, [], []);
      }
  }

  lemma {:induction false} ElementsDedup(g: TypeGraph, srv: Server, browsed: set<NodeId>, list: seq<BrowseResult>, i: nat,
                                         found: seq<Element>, found': seq<Element>)
    requires g.Valid() && Dedup(g).Valid() && srv.Valid() && i <= |list| && forall k :: 0 <= k < |list| ==> list[k].nodeId in srv.ids
    requires SteadyElements(g, srv, browsed, list, i) && SimilarElements(found, found')
    ensures var (o, b) := Elements(g, srv, browsed, list, i, found);
            var (o', b') := Elements(Dedup(g), srv, browsed, list, i, found');
            b == b' && SameOutcome(o, o') && (o.Ok? ==> SimilarElements(o.value, o'.value))
    decreases srv.ids - browsed, 1, |list| - i
  {
    if i < |list| {
      var typ := ElementType(srv, list[i]);
      if typ.Some? && typ.value !in g.typeMap {
        ElementsDedup(g, srv, browsed, list, i + 1, found, found');
      } else if typ.Some? {
        var (o, b) := Transform(g, srv, browsed, list[i].nodeId, g.typeMap[typ.value]);
        TransformDedup(g, srv, browsed, list[i].nodeId, g.typeMap[typ.value]);
        if o.Ok? {
          var o' := Transform(Dedup(g), srv, browsed, list[i].nodeId, g.typeMap[typ.value]).0;
          ElementsDedup(g, srv, b, list, i + 1, found + [Element(list[i].browseName, typ.value, o.value)],
                        found' + [Element(list[i].browseName, typ.value, o'.value)]);
        }
      }
    }
  }

  // ---------- echoes get no value and are not rendered ----------

  /** The variable of the node had its turn: it is subscribed, or cannot be. */
  predicate Tried(n: Node, seen: set<NodeId>, feed: map<NodeId, Json>) {
    match n
    case Simple(id, _, _, _) => Subscribable(n) ==> id in seen || id !in feed
    case Placeholder(_, elements) =>
      forall k :: 0 <= k < |elements| && Subscribable(elements[k].node) ==>
        elements[k].node.id in seen || elements[k].node.id !in feed
  }

  lemma {:induction false} FeedTries(n: Node, seen: set<NodeId>, feed: map<NodeId, Json>)
    ensures var (fed, s) := Feed(n, seen, feed);
            seen <= s && Tried(n, s, feed) && fed.def == n.def && fed.Simple? == n.Simple?
    decreases n, 1
  {
    match n
    case Simple(id, _, children, _) =>
      FeedChildrenTries(children, if Subscribable(n) && id !in seen && id in feed then seen + {id} else seen, feed);
    case Placeholder(_, elements) =>
      FeedElementsTries(elements, seen, feed);
  }

  lemma {:induction false} FeedChildrenTries(children: seq<Node>, seen: set<NodeId>, feed: map<NodeId, Json>)
    ensures var (fed, s) := FeedChildren(children, seen, feed);
            && seen <= s && |fed| == |children|
            && forall k :: 0 <= k < |children| ==> fed[k].def == children[k].def && (Published(children[k]) ==> Tried(children[k], s, feed))
    decreases children, 0
  {
    if children != [] {
      var last := children[|children| - 1];
      FeedChildrenTries(children[..|children| - 1], seen, feed);
      var s := FeedChildren(children[..|children| - 1], seen, feed).1;
      FeedTries(last, s, feed);
      assert forall k :: 0 <= k < |children| - 1 ==> children[..|children| - 1][k] == children[k];
    }
  }

  lemma {:induction false} FeedElementsTries(elements: seq<Element>, seen: set<NodeId>, feed: map<NodeId, Json>)
    ensures var (fed, s) := FeedElements(elements, seen, feed);
            && seen <= s && |fed| == |elements|
            && forall k :: 0 <= k < |elements| && Subscribable(elements[k].node) ==>
                 elements[k].node.id in s || elements[k].node.id !in feed
    decreases elements, 0
  {
    if elements != [] {
      var last := elements[|elements| - 1];
      FeedElementsTries(elements[..|elements| - 1], seen, feed);
      var s := FeedElements(elements[..|elements| - 1], seen, feed).1;
      assert last.node < last;
      FeedTries(last.node, s, feed);
      assert forall k :: 0 <= k < |elements| - 1 ==> elements[..|elements| - 1][k] == elements[k];
    }
  }

  lemma EchoAddsNothing(e: Node, d: Node, seen: set<NodeId>, feed: map<NodeId, Json>)
    requires Echo(e, d) && Tried(e, seen, feed)
    ensures Feed(d, seen, feed).1 == seen
  {
    if d.Placeholder? {
      EchoElementsAddNothing(e.elements, d.elements, seen, feed);
    }
  }

  lemma {:induction false} EchoElementsAddNothing(es: seq<Element>, ds: seq<Element>, seen: set<NodeId>, feed: map<NodeId, Json>)
    requires |es| == |ds| && forall k :: 0 <= k < |es| ==> EchoElement(es[k], ds[k])
    requires forall k :: 0 <= k < |es| && Subscribable(es[k].node) ==> es[k].node.id in seen || es[k].node.id !in feed
    ensures FeedElements(ds, seen, feed).1 == seen
    decreases |es|
  {
    if ds != [] {
      var last := |ds| - 1;
      assert forall k :: 0 <= k < last ==> es[..last][k] == es[k] && ds[..last][k] == ds[k];
      EchoElementsAddNothing(es[..last], ds[..last], seen, feed);
      assert EchoElement(es[last], ds[last]) && Subscribable(ds[last].node) == Subscribable(es[last].node);
      assert FeedChildren([], seen, feed) == ([], seen);
    }
  }

  // ---------- similar trees publish the same JSON ----------

  lemma {:induction false} SimilarPublish(a: Node, b: Node, seen: set<NodeId>, feed: map<NodeId, Json>)
    requires Similar(a, b)
    ensures var (fa, s) := Feed(a, seen, feed);
            var (fb, s') := Feed(b, seen, feed);
            s == s' && ToJson(fa) == ToJson(fb)
    decreases a, 1
  {
    match a
    case Simple(id, def, children, _) =>
      SimilarChildrenPublish(children, b.children, if Subscribable(a) && id !in seen && id in feed then seen + {id} else seen, feed);
      SameSimpleJson(Feed(a, seen, feed).0, Feed(b, seen, feed).0);
    case Placeholder(_, elements) =>
      SimilarElementsPublish(elements, b.elements, seen, feed);
  }

  lemma SameSimpleJson(a: Node, b: Node)
    requires a.Simple? && b.Simple? && a.id == b.id && a.def == b.def && a.value == b.value
    requires ToKids(a.children) == ToKids(b.children) && (a.children == [] <==> b.children == [])
    ensures ToJson(a) == ToJson(b)
  {
  }

  lemma KidsGrow(fx: seq<Node>, fy: seq<Node>, x: Node, y: Node)
    requires ToKids(fx) == ToKids(fy) && x.def == y.def && ToJson(x) == ToJson(y)
    ensures ToKids(fx + [x]) == ToKids(fy + [y])
  {
    assert (fx + [x])[..|fx|] == fx && (fy + [y])[..|fy|] == fy;
  }

  lemma KidsSkip(fx: seq<Node>, x: Node, k: nat)
    requires k < |fx| && fx[k].def.name == x.def.name
    ensures ToKids(fx + [x]) == ToKids(fx)
  {
    assert (fx + [x])[..|fx|] == fx;
    if ToKids(fx).Some? {
      JsonPaths.VisitedNames(fx, x.def.name);
    }
  }

  lemma MembersGrow(fe: seq<Element>, fd: seq<Element>, e: Element, d: Element)
    requires ToMembers(fe) == ToMembers(fd)
    requires e.name == d.name && e.typeDefinition == d.typeDefinition && ToJson(e.node) == ToJson(d.node)
    ensures ToMembers(fe + [e]) == ToMembers(fd + [d])
  {
    assert (fe + [e])[..|fe|] == fe && (fd + [d])[..|fd|] == fd;
  }

  lemma {:induction false} SimilarChildrenPublish(xs: seq<Node>, ys: seq<Node>, seen: set<NodeId>, feed: map<NodeId, Json>)
    requires SimilarChildren(xs, ys)
    ensures var (fx, s) := FeedChildren(xs, seen, feed);
            var (fy, s') := FeedChildren(ys, seen, feed);
            s == s' && ToKids(fx) == ToKids(fy) && (fx == [] <==> fy == [])
    decreases xs, 0
  {
    if xs != [] {
      var front, last := xs[..|xs| - 1], xs[|xs| - 1];
      if ys != [] && Similar(last, ys[|ys| - 1]) && SimilarChildren(front, ys[..|ys| - 1]) {
        assert front + [last] == xs && ys[..|ys| - 1] + [ys[|ys| - 1]] == ys;
        SimilarLast(front, last, ys[..|ys| - 1], ys[|ys| - 1], seen, feed);
      } else {
        SimilarChildrenPublish(front, ys, seen, feed);
        EchoLast(front, last, seen, feed);
        assert front + [last] == xs;
      }
    }
  }

  lemma EchoLast(front: seq<Node>, last: Node, seen: set<NodeId>, feed: map<NodeId, Json>)
    requires exists k :: 0 <= k < |front| && Echo(front[k], last)
    ensures var (fx, s) := FeedChildren(front, seen, feed);
            var (f, s') := FeedChildren(front + [last], seen, feed);
            s == s' && ToKids(f) == ToKids(fx) && fx != [] && f != []
  {
    var k :| 0 <= k < |front| && Echo(front[k], last);
    assert (front + [last])[..|front|] == front;
    var (fx, s) := FeedChildren(front, seen, feed);
    FeedChildrenTries(front, seen, feed);
    if Published(last) {
      EchoAddsNothing(front[k], last, s, feed);
      FeedTries(last, s, feed);
      KidsSkip(fx, Feed(last, s, feed).0, k);
    } else {
      KidsSkip(fx, last, k);
    }
  }

  lemma {:induction false} SimilarLast(fs: seq<Node>, x: Node, gs: seq<Node>, y: Node, seen: set<NodeId>, feed: map<NodeId, Json>)
    requires SimilarChildren(fs, gs) && Similar(x, y)
    ensures var (fx, s) := FeedChildren(fs + [x], seen, feed);
            var (fy, s') := FeedChildren(gs + [y], seen, feed);
            s == s' && ToKids(fx) == ToKids(fy) && fx != [] && fy != []
    decreases fs + [x], 0, 0
  {
    assert (fs + [x])[..|fs|] == fs && (gs + [y])[..|gs|] == gs && (fs + [x])[|fs|] == x;
    SimilarChildrenPublish(fs, gs, seen, feed);
    var (fx, s) := FeedChildren(fs, seen, feed);
    var fy := FeedChildren(gs, seen, feed).0;
    SimilarPublish(x, y, s, feed);
    FeedTries(x, s, feed);
    FeedTries(y, s, feed);
    if Published(x) {
      KidsGrow(fx, fy, Feed(x, s, feed).0, Feed(y, s, feed).0);
    } else {
      KidsGrow(fx, fy, x, y);
    }
  }

  lemma {:induction false} SimilarElementsPublish(es: seq<Element>, ds: seq<Element>, seen: set<NodeId>, feed: map<NodeId, Json>)
    requires SimilarElements(es, ds)
    ensures var (fe, s) := FeedElements(es, seen, feed);
            var (fd, s') := FeedElements(ds, seen, feed);
            s == s' && ToMembers(fe) == ToMembers(fd)
    decreases es, 0
  {
    if es != [] {
      var e, d := es[|es| - 1], ds[|ds| - 1];
      SimilarElementsPublish(es[..|es| - 1], ds[..|ds| - 1], seen, feed);
      var (fe, s) := FeedElements(es[..|es| - 1], seen, feed);
      var fd := FeedElements(ds[..|ds| - 1], seen, feed).0;
      assert e.node < e;
      SimilarPublish(e.node, d.node, s, feed);
      MembersGrow(fe, fd, e.(node := Feed(e.node, s, feed).0), d.(node := Feed(d.node, s, feed).0));
    }
  }

  /** What a fresh client publishes for a machine: the type is matched against the server,
      the variables are subscribed, and the tree is rendered. */
  function MachineJson(g: TypeGraph, srv: Server, start: NodeId, t: nat, feed: map<NodeId, Json>): Outcome<Option<Json>>
    requires g.Valid() && srv.Valid() && start in srv.ids && t < |g.nodes|
  {
    match Transform(g, srv, {}, start, t).0
    case Ok(n) => Ok(ToJson(Feed(n, {}, feed).0))
    case InvalidChild => InvalidChild
    case Plain => Plain
  }

  /** On any server, cyclic or not: in a steady run repeated declarations do not change what is
      published. */
  lemma SteadyRunsPublishTheSame(g: TypeGraph, srv: Server, start: NodeId, t: nat, feed: map<NodeId, Json>)
    requires g.Valid() && srv.Valid() && start in srv.ids && t < |g.nodes| && Steady(g, srv, {}, start, t)
    ensures Dedup(g).Valid() && MachineJson(g, srv, start, t, feed) == MachineJson(Dedup(g), srv, start, t, feed)
  {
    DedupIsValid(g);
    TransformDedup(g, srv, {}, start, t);
    var o := Transform(g, srv, {}, start, t).0;
    if o.Ok? {
      SimilarPublish(o.value, Transform(Dedup(g), srv, {}, start, t).0.value, {}, feed);
    }
  }
}
