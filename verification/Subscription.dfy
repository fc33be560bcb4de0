/** Monitored items: what the clients of all machines create on the server, what they record
    of it, and what removing a machine deletes. */
module Subscription {
  import opened OpcUa
  import opened Instance
  import opened ModelToJson
  import opened ValueFeed

  /** What a client keeps of a monitored item. */
  datatype Handle = Handle(clientHandle: int, monitoredItemId: int, nodeId: NodeId)

  lemma {:induction false} SomeIdIsFree(items: set<int>, n: nat)
    requires |items| <= n
    ensures exists id :: 0 <= id <= n && id !in items
  {
    if n in items {
      assert |items - {n}| == |items| - 1;
      SomeIdIsFree(items - {n}, n - 1);
      var id :| 0 <= id <= n - 1 && id !in items - {n};
      assert id !in items;
    }
  }

  // ---------- one subscription, shared by all clients ----------

  class ServerSubscription {
    var nextId: nat
    /** The callback of a client handle, named by the node it feeds. */
    var callbacks: map<int, NodeId>
    /** The monitored items the server has for this subscription. */
    var items: set<int>
    /** Those that no client was told about. */
    ghost var leaked: set<int>

    ghost predicate Valid()
      reads this
    {
      leaked <= items
    }

    constructor ()
      ensures Valid() && items == {} && leaked == {} && callbacks == map[] && nextId == 1
    {
      nextId, callbacks, items, leaked := 1, map[], {}, {};
    }

    /** The server creates a monitored item under an id that is not in use. */
    method CreateItem() returns (id: int)
      modifies `items
      ensures id !in old(items) && items == old(items) + {id}
    {
      SomeIdIsFree(items, |items|);
      id :| id !in items;
      items := items + {id};
    }

    /** `revised` has the queue size the server grants for the nodes it accepts. An item
        stays behind without a handle exactly if that is not 1. */
    method Subscribe(node: NodeId, revised: map<NodeId, nat>) returns (h: Option<Handle>)
      requires Valid()
      modifies this
      ensures Valid()
      ensures h.Some? <==> node in revised && revised[node] == 1
      ensures node !in revised ==> items == old(items) && leaked == old(leaked)
      ensures node in revised && h.None? ==>
                exists id :: id !in old(items) && items == old(items) + {id} && leaked == old(leaked) + {id}
      ensures h.Some? ==> h.value.clientHandle !in old(items) && items == old(items) + {h.value.clientHandle} &&
                          leaked == old(leaked) && h.value.nodeId == node && h.value.monitoredItemId == old(nextId)
      ensures callbacks == if h.Some? && old(nextId) !in old(callbacks) then old(callbacks)[old(nextId) := node] else old(callbacks)
    {
      var clientHandle := nextId;
      nextId := (nextId + 1) % UINT32_MOD;
      if node !in revised {
        return None;
      }
      var itemId := CreateItem();
      if revised[node] != 1 {
        leaked := leaked + {itemId};
        return None;
      }
      if clientHandle !in callbacks {
        callbacks := callbacks[clientHandle := node];
      }
      // The constructor takes the client handle first.
      return Some(Handle(itemId, clientHandle, node));
    }

    method Unsubscribe(monItemIds: seq<int>, clientHandles: seq<int>)
      requires |monItemIds| == |clientHandles|
      modifies `callbacks, `items
      ensures items == old(items) - set h | h in clientHandles
      ensures callbacks == old(callbacks) - set h | h in clientHandles
    {
      for i := 0 to |clientHandles|
        modifies `callbacks
        invariant callbacks == old(callbacks) - set h | h in clientHandles[..i]
      {
        callbacks := callbacks - {clientHandles[i]};
        assert clientHandles[..i + 1] == clientHandles[..i] + [clientHandles[i]];
      }
      var request := new int[|monItemIds|];
      for i := 0 to |monItemIds|
        modifies request
        invariant request[..i] == clientHandles[..i]
      {
        request[i] := clientHandles[i];
      }
      assert clientHandles[..|clientHandles|] == clientHandles && request[..] == clientHandles;
      items := items - set h | h in request[..];
    }
  }

  // ---------- one client ----------

  ghost predicate CanonicalTree(n: Node) {
    match n
    case Simple(id, _, children, _) => id.Canonical() && forall k :: 0 <= k < |children| ==> CanonicalTree(children[k])
    case Placeholder(_, elements) =>
      forall k :: 0 <= k < |elements| ==> assert elements[k].node < elements[k]; CanonicalTree(elements[k].node)
  }

  /** What the server delivers is what it accepts with a queue of one value. */
  ghost predicate Delivers(revised: map<NodeId, nat>, feed: map<NodeId, Json>) {
    forall n :: n in feed <==> n in revised && revised[n] == 1
  }

  function Items(hs: seq<Handle>): set<int> {
    set h | h in hs :: h.clientHandle
  }

  function NodesOf(hs: seq<Handle>): set<NodeId> {
    set h | h in hs :: h.nodeId
  }

  /** Neither an item nor a node is recorded twice. */
  predicate Distinct(hs: seq<Handle>) {
    forall i, j :: 0 <= i < j < |hs| ==> hs[i].nodeId != hs[j].nodeId && hs[i].clientHandle != hs[j].clientHandle
  }

  lemma ItemsOneMore(hs: seq<Handle>, h: Handle)
    ensures Items(hs + [h]) == Items(hs) + {h.clientHandle}
  {
    forall x
      ensures x in Items(hs + [h]) <==> x in Items(hs) + {h.clientHandle}
    {
      if x in Items(hs) {
        var g :| g in hs && g.clientHandle == x;
        assert g in hs + [h];
      }
      assert h in hs + [h];
    }
  }

  lemma NodesOneMore(hs: seq<Handle>, h: Handle)
    ensures NodesOf(hs + [h]) == NodesOf(hs) + {h.nodeId}
  {
    forall x
      ensures x in NodesOf(hs + [h]) <==> x in NodesOf(hs) + {h.nodeId}
    {
      if x in NodesOf(hs) {
        var g :| g in hs && g.nodeId == x;
        assert g in hs + [h];
      }
      assert h in hs + [h];
    }
  }

  lemma DistinctOneMore(hs: seq<Handle>, h: Handle)
    requires Distinct(hs) && h.clientHandle !in Items(hs) && h.nodeId !in NodesOf(hs)
    ensures Distinct(hs + [h])
  {
    forall i | 0 <= i < |hs|
      ensures hs[i].clientHandle != h.clientHandle && hs[i].nodeId != h.nodeId
    {
      assert hs[i] in hs;
    }
  }

  datatype Ledger = Ledger(items: set<int>, leaked: set<int>, owned: set<int>)

  /** New items are recorded by the client or leaked, and nothing else changes. */
  predicate Grows(a: Ledger, b: Ledger) {
    && a.items <= b.items && a.leaked <= b.leaked && a.owned <= b.owned
    && b.items - a.items == (b.owned - a.owned) + (b.leaked - a.leaked)
  }

  lemma GrowsOn(a: Ledger, b: Ledger, c: Ledger)
    requires Grows(a, b) && Grows(b, c)
    ensures Grows(a, c)
  {
    forall x
      ensures x in c.items - a.items <==> x in (c.owned - a.owned) + (c.leaked - a.leaked)
    {
      assert x in c.items - a.items <==> x in c.items - b.items || x in b.items - a.items;
      assert x in b.items - a.items <==> x in (b.owned - a.owned) + (b.leaked - a.leaked);
      assert x in c.items - b.items <==> x in (c.owned - b.owned) + (c.leaked - b.leaked);
    }
  }

  class Client {
    const sub: ServerSubscription
    var subscribedValues: seq<Handle>

    /** The items this client recorded. */
    ghost function Owned(): set<int>
      reads this
    {
      Items(subscribedValues)
    }

    /** The nodes this client has a value for. */
    ghost function Nodes(): set<NodeId>
      reads this
    {
      NodesOf(subscribedValues)
    }

    ghost predicate Valid()
      reads this, sub
    {
      && sub.Valid() && Owned() <= sub.items && Owned() !! sub.leaked
      && (forall h :: h in subscribedValues ==> h.nodeId.Canonical())
      && Distinct(subscribedValues)
    }

    constructor (sub: ServerSubscription)
      requires sub.Valid()
      ensures Valid() && this.sub == sub && subscribedValues == []
    {
      this.sub, subscribedValues := sub, [];
    }

    ghost function Account(): Ledger
      reads this, sub
    {
      Ledger(sub.items, sub.leaked, Owned())
    }

    method HasValue(node: NodeId) returns (found: bool)
      requires Valid() && node.Canonical()
      ensures found <==> node in Nodes()
    {
      for i := 0 to |subscribedValues|
        invariant forall k :: 0 <= k < i ==> subscribedValues[k].nodeId != node
      {
        SameVersusKey(subscribedValues[i].nodeId, node);
        if Same(subscribedValues[i].nodeId, node) {
          return true;
        }
      }
      return false;
    }

    /** Recording an item the server just created. */
    method Record(h: Handle)
      requires Valid() && h.clientHandle in sub.items - Owned() - sub.leaked
      requires h.nodeId !in Nodes() && h.nodeId.Canonical()
      modifies this
      ensures Valid() && Owned() == old(Owned()) + {h.clientHandle} && Nodes() == old(Nodes()) + {h.nodeId}
    {
      ItemsOneMore(subscribedValues, h);
      NodesOneMore(subscribedValues, h);
      DistinctOneMore(subscribedValues, h);
      subscribedValues := subscribedValues + [h];
    }

    method SubscribeValue(node: NodeId, revised: map<NodeId, nat>) returns (subscribed: bool)
      requires Valid() && node.Canonical()
      modifies this, sub
      ensures Valid() && Grows(old(Account()), Account())
      ensures subscribed <==> node !in old(Nodes()) && node in revised && revised[node] == 1
      ensures Nodes() == if subscribed then old(Nodes()) + {node} else old(Nodes())
    {
      var found := HasValue(node);
      if found {
        return false;
      }
      var h := sub.Subscribe(node, revised);
      if h.None? {
        return false;
      }
      assert h.value.clientHandle !in old(Owned()) + old(sub.leaked);
      Record(h.value);
      return true;
    }

    /** `subscribeValues`: the subscribed nodes and the values they will show are those of `Feed`. */
    method SubscribeValues(n: Node, revised: map<NodeId, nat>, feed: map<NodeId, Json>) returns (fed: Node)
      requires Valid() && CanonicalTree(n) && Delivers(revised, feed)
      modifies this, sub
      ensures Valid() && Grows(old(Account()), Account())
      ensures (fed, Nodes()) == Feed(n, old(Nodes()), feed)
      decreases n, 1
    {
      match n
      case Simple(id, def, children, value) =>
        var first := false;
        if Subscribable(n) {
          first := SubscribeValue(id, revised);
        }
        ghost var before := Account();
        var kids := HandleSubscribeChildNodes(children, revised, feed);
        GrowsOn(old(Account()), before, Account());
        fed := Simple(id, def, kids, if first then feed[id] else value);
      case Placeholder(def, elements) =>
        var instances := HandleSubscribePlaceholderChildNode(elements, revised, feed);
        fed := Placeholder(def, instances);
    }

    method HandleSubscribeChildNodes(children: seq<Node>, revised: map<NodeId, nat>, feed: map<NodeId, Json>)
      returns (fed: seq<Node>)
      requires Valid() && (forall k :: 0 <= k < |children| ==> CanonicalTree(children[k])) && Delivers(revised, feed)
      modifies this, sub
      ensures Valid() && Grows(old(Account()), Account())
      ensures (fed, Nodes()) == FeedChildren(children, old(Nodes()), feed)
      decreases children, 0
    {
      fed := [];
      for i := 0 to |children|
        invariant Valid() && Grows(old(Account()), Account())
        invariant (fed, Nodes()) == FeedChildren(children[..i], old(Nodes()), feed)
      {
        assert children[..i + 1][..i] == children[..i];
        var child := children[i];
        if Published(child) {
          ghost var before := Account();
          child := SubscribeValues(child, revised, feed);
          GrowsOn(old(Account()), before, Account());
        }
        fed := fed + [child];
      }
      assert children[..|children|] == children;
    }

    method HandleSubscribePlaceholderChildNode(elements: seq<Element>, revised: map<NodeId, nat>, feed: map<NodeId, Json>)
      returns (fed: seq<Element>)
      requires Valid() && Delivers(revised, feed)
      requires forall k :: 0 <= k < |elements| ==> CanonicalTree(elements[k].node)
      modifies this, sub
      ensures Valid() && Grows(old(Account()), Account())
      ensures (fed, Nodes()) == FeedElements(elements, old(Nodes()), feed)
      decreases elements, 0
    {
      fed := [];
      for i := 0 to |elements|
        invariant Valid() && Grows(old(Account()), Account())
        invariant (fed, Nodes()) == FeedElements(elements[..i], old(Nodes()), feed)
      {
        assert elements[..i + 1][..i] == elements[..i];
        assert elements[i].node < elements[i];
        ghost var before := Account();
        var node := SubscribeValues(elements[i].node, revised, feed);
        GrowsOn(old(Account()), before, Account());
        fed := fed + [elements[i].(node := node)];
      }
      assert elements[..|elements|] == elements;
    }

    /** `addDataSet`, given what matching the type against the server came to: a machine that
        is rejected creates no item, recorded or not. */
    method AddDataSet(o: Outcome<Node>, revised: map<NodeId, nat>, feed: map<NodeId, Json>) returns (r: Option<Node>)
      requires Valid() && Delivers(revised, feed) && (o.Ok? ==> CanonicalTree(o.value))
      modifies this, sub
      ensures Valid() && Grows(old(Account()), Account())
      ensures !o.Ok? ==> r == None && Account() == old(Account()) && subscribedValues == old(subscribedValues)
      ensures o.Ok? ==> r.Some? && (r.value, Nodes()) == Feed(o.value, old(Nodes()), feed)
    {
      if !o.Ok? {
        return None;
      }
      var fed := SubscribeValues(o.value, revised, feed);
      return Some(fed);
    }

    /** `Unsubscribe`: exactly the recorded items are deleted, although the two ids change
        places in the handle and again in the request; the callbacks that go are those whose
        client handle happens to equal one of the deleted item ids. */
    method Unsubscribe()
      requires Valid()
      modifies this, sub
      ensures Valid() && subscribedValues == []
      ensures sub.items == old(sub.items) - old(Owned()) && sub.leaked == old(sub.leaked)
      ensures sub.callbacks == old(sub.callbacks) - old(Owned())
    {
      var monItemIds: seq<int>, clientHandles: seq<int> := [], [];
      for i := 0 to |subscribedValues|
        invariant subscribedValues == old(subscribedValues)
        invariant sub.items == old(sub.items) && sub.leaked == old(sub.leaked) && sub.callbacks == old(sub.callbacks)
        invariant |monItemIds| == i && |clientHandles| == i
        invariant forall k :: 0 <= k < i ==> clientHandles[k] == subscribedValues[k].clientHandle
      {
        monItemIds := monItemIds + [subscribedValues[i].monitoredItemId];
        clientHandles := clientHandles + [subscribedValues[i].clientHandle];
      }
      assert (set h | h in clientHandles) == Owned();
      subscribedValues := [];
      sub.Unsubscribe(monItemIds, clientHandles);
    }
  }

  // ---------- the clients of all machines ----------

  class Gateway {
    const sub: ServerSubscription
    var clients: map<NodeId, Client>

    /** The server's items are the recorded ones, each recorded by one client, and the leaked ones. */
    ghost predicate Valid()
      reads this, sub, clients.Values
    {
      && sub.Valid()
      && (forall m :: m in clients ==> clients[m].sub == sub && clients[m].Valid())
      && (forall m, n :: m in clients && n in clients && m != n ==>
            clients[m] != clients[n] && clients[m].Owned() !! clients[n].Owned())
      && (forall id :: id in sub.items && id !in sub.leaked ==> exists m :: m in clients && id in clients[m].Owned())
    }

    constructor ()
      ensures Valid() && fresh(sub) && clients == map[] && sub.items == {}
    {
      sub := new ServerSubscription();
      clients := map[];
    }

    /** A client of its own, owning nothing but what it has just created. */
    method BuildClient(o: Outcome<Node>, revised: map<NodeId, nat>, feed: map<NodeId, Json>) returns (client: Client, ok: bool)
      requires sub.Valid() && Delivers(revised, feed) && (o.Ok? ==> CanonicalTree(o.value))
      modifies sub
      ensures fresh(client) && client.sub == sub && client.Valid() && ok == o.Ok?
      ensures client.Owned() + (sub.leaked - old(sub.leaked)) !! old(sub.items) && old(sub.leaked) <= sub.leaked
      ensures sub.items == old(sub.items) + client.Owned() + (sub.leaked - old(sub.leaked))
      ensures if ok then client.Nodes() == Feed(o.value, {}, feed).1 else sub.items == old(sub.items) && sub.leaked == old(sub.leaked)
    {
      client := new Client(sub);
      assert client.Nodes() == {} && client.Owned() == {};
      var r := client.AddDataSet(o, revised, feed);
      ok := r.Some?;
    }

    /** Builds the client of a machine, from what matching its type came to. */
    method AddMachine(m: NodeId, o: Outcome<Node>, revised: map<NodeId, nat>, feed: map<NodeId, Json>) returns (ok: bool)
      requires Valid() && m !in clients && Delivers(revised, feed) && (o.Ok? ==> CanonicalTree(o.value))
      modifies this, sub
      ensures Valid() && ok == o.Ok?
      ensures clients.Keys == if ok then old(clients.Keys) + {m} else old(clients.Keys)
      ensures forall n :: n in old(clients) ==> n in clients && clients[n] == old(clients[n])
      ensures ok ==> fresh(clients[m]) && clients[m].Nodes() == VariableIds(o.value) * feed.Keys
      ensures ok ==> sub.items == old(sub.items) + clients[m].Owned() + (sub.leaked - old(sub.leaked))
      ensures !ok ==> sub.items == old(sub.items) && sub.leaked == old(sub.leaked)
    {
      var client;
      client, ok := BuildClient(o, revised, feed);
      if ok {
        FeedSubscribesAll(o.value, {}, feed);
      }
      forall n | n in clients
        ensures clients[n].Valid() && clients[n].Owned() == old(clients[n].Owned()) && clients[n].Owned() !! client.Owned()
      {
        assert clients[n].Owned() <= old(sub.items);
      }
      if ok {
        Insert(m, client);
      }
    }

    method Insert(m: NodeId, client: Client)
      requires sub.Valid() && m !in clients && client.sub == sub && client.Valid()
      requires forall n :: n in clients ==> clients[n].sub == sub && clients[n].Valid()
      requires forall n :: n in clients ==> clients[n] != client && clients[n].Owned() !! client.Owned()
      requires forall n, k :: n in clients && k in clients && n != k ==>
                 clients[n] != clients[k] && clients[n].Owned() !! clients[k].Owned()
      requires forall id :: id in sub.items - client.Owned() && id !in sub.leaked ==>
                 exists n :: n in clients && id in clients[n].Owned()
      modifies `clients
      ensures Valid() && clients == old(clients)[m := client]
    {
      clients := clients[m := client];
      forall id | id in sub.items && id !in sub.leaked
        ensures exists n :: n in clients && id in clients[n].Owned()
      {
        if id in client.Owned() {
          assert m in clients;
        } else {
          var n :| n in old(clients) && id in clients[n].Owned();
          assert n in clients;
        }
      }
    }

    /** Removing a machine deletes on the server exactly what it created and recorded. */
    method RemoveMachine(m: NodeId)
      requires Valid() && m in clients
      modifies this, sub, clients[m]
      ensures Valid() && clients == old(clients) - {m}
      ensures sub.items == old(sub.items) - old(clients[m].Owned()) && sub.leaked == old(sub.leaked)
      ensures forall n :: n in clients ==> clients[n].Owned() == old(clients[n].Owned())
    {
      var client := clients[m];
      client.Unsubscribe();
      clients := clients - {m};
      forall n | n in clients
        ensures clients[n].Valid() && clients[n].Owned() == old(clients[n].Owned())
      {
        assert clients[n] != client;
      }
    }
  }

  // ---------- the trees that are subscribed ----------

  ghost predicate CanonicalServer(srv: Server) {
    forall n :: n in srv.ids ==> n.Canonical()
  }

  /** A server that spells namespace 0 in one way yields trees that do. */
  lemma {:induction false} TransformIsCanonical(g: TypeGraph, srv: Server, browsed: set<NodeId>, start: NodeId, t: nat)
    requires g.Valid() && srv.Valid() && start in srv.ids && t < |g.nodes| && CanonicalServer(srv)
    ensures var o := Transform(g, srv, browsed, start, t).0; o.Ok? ==> CanonicalTree(o.value)
    decreases srv.ids - browsed, 0, 0
  {
    if start !in browsed {
      ChildrenAreCanonical(g, srv, browsed + {start}, start, g.nodes[t].children, 0, []);
    }
  }

  ghost predicate CanonicalTrees(ns: seq<Node>) {
    forall k :: 0 <= k < |ns| ==> CanonicalTree(ns[k])
  }

  ghost predicate CanonicalElements(es: seq<Element>) {
    forall k :: 0 <= k < |es| ==> CanonicalTree(es[k].node)
  }

  lemma {:induction false} ChildrenAreCanonical(g: TypeGraph, srv: Server, browsed: set<NodeId>, start: NodeId,
                                                cs: seq<nat>, i: nat, found: seq<Node>)
    requires g.Valid() && srv.Valid() && i <= |cs| && (forall k :: 0 <= k < |cs| ==> cs[k] < |g.nodes|)
    requires CanonicalServer(srv) && CanonicalTrees(found)
    ensures var o := Children(g, srv, browsed, start, cs, i, found).0; o.Ok? ==> CanonicalTrees(o.value)
    decreases srv.ids - browsed, 3, |cs| - i
  {
    if i < |cs| {
      LinkIsCanonical(g, srv, browsed, start, cs[i]);
      var (link, b) := LinkOf(g, srv, browsed, start, cs[i]);
      if link.Push? {
        ChildrenAreCanonical(g, srv, b, start, cs, i + 1, found + [link.node]);
      } else if link.Skip? {
        ChildrenAreCanonical(g, srv, b, start, cs, i + 1, found);
      }
    }
  }

  lemma {:induction false} LinkIsCanonical(g: TypeGraph, srv: Server, browsed: set<NodeId>, start: NodeId, c: nat)
    requires g.Valid() && srv.Valid() && c < |g.nodes| && CanonicalServer(srv)
    ensures var link := LinkOf(g, srv, browsed, start, c).0; link.Push? ==> CanonicalTree(link.node)
    decreases srv.ids - browsed, 2, 0
  {
    var child := g.nodes[c];
    var path, query := (start, child.def.name), (start, child.reference, child.typeId);
    if child.def.rule.IsPlaceholder() {
      if query in srv.lists {
        ElementsAreCanonical(g, srv, browsed, srv.lists[query], 0, []);
      }
    } else if path in srv.paths && srv.paths[path] != NULL_ID {
      TransformIsCanonical(g, srv, browsed, srv.paths[path], c);
    }
  }

  lemma {:induction false} ElementsAreCanonical(g: TypeGraph, srv: Server, browsed: set<NodeId>, list: seq<BrowseResult>,
                                                i: nat, found: seq<Element>)
    requires g.Valid() && srv.Valid() && i <= |list| && (forall k :: 0 <= k < |list| ==> list[k].nodeId in srv.ids)
    requires CanonicalServer(srv) && CanonicalElements(found)
    ensures var o := Elements(g, srv, browsed, list, i, found).0; o.Ok? ==> CanonicalElements(o.value)
    decreases srv.ids - browsed, 1, |list| - i
  {
    if i < |list| {
      var typ := ElementType(srv, list[i]);
      if typ.Some? && typ.value !in g.typeMap {
        ElementsAreCanonical(g, srv, browsed, list, i + 1, found);
      } else if typ.Some? {
        TransformIsCanonical(g, srv, browsed, list[i].nodeId, g.typeMap[typ.value]);
        var (o, b) := Transform(g, srv, browsed, list[i].nodeId, g.typeMap[typ.value]);
        if o.Ok? {
          ElementsAreCanonical(g, srv, b, list, i + 1, found + [Element(list[i].browseName, typ.value, o.value)]);
        }
      }
    }
  }
}
