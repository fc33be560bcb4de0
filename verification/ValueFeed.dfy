/** Which nodes of the tree get a value: the first variable met with a node id is
    subscribed, any later one with the same id is not. */
module ValueFeed {
  import opened OpcUa
  import opened Instance
  import opened ModelToJson

  /** `isMandatoryOrOptionalVariable` */
  predicate Subscribable(n: Node) {
    n.Simple? && n.def.nodeClass.IsVariable() && (n.def.rule.Optional? || n.def.rule.Mandatory?)
  }

  /** The tree with the values of the subscribed variables, and the subscribed node ids.
      Subscribing succeeds for the keys of `feed`, which are mapped to the current values. */
  function Feed(n: Node, seen: set<NodeId>, feed: map<NodeId, Json>): (r: (Node, set<NodeId>))
    decreases n, 1
  {
    match n
    case Simple(id, def, children, value) =>
      var first := Subscribable(n) && id !in seen && id in feed;
      var (kids, s) := FeedChildren(children, if first then seen + {id} else seen, feed);
      (Simple(id, def, kids, if first then feed[id] else value), s)
    case Placeholder(def, elements) =>
      var (fed, s) := FeedElements(elements, seen, feed);
      (Placeholder(def, fed), s)
  }

  function FeedChildren(children: seq<Node>, seen: set<NodeId>, feed: map<NodeId, Json>): (r: (seq<Node>, set<NodeId>))
    decreases children, 0
  {
    if children == [] then ([], seen)
    else
      var (front, s) := FeedChildren(children[..|children| - 1], seen, feed);
      var last := children[|children| - 1];
      if !Published(last) then (front + [last], s)
      else
        var (fed, s') := Feed(last, s, feed);
        (front + [fed], s')
  }

  function FeedElements(elements: seq<Element>, seen: set<NodeId>, feed: map<NodeId, Json>): (r: (seq<Element>, set<NodeId>))
    decreases elements, 0
  {
    if elements == [] then ([], seen)
    else
      var (front, s) := FeedElements(elements[..|elements| - 1], seen, feed);
      var last := elements[|elements| - 1];
      assert last.node < last;
      var (fed, s') := Feed(last.node, s, feed);
      (front + [last.(node := fed)], s')
  }

  // ---------- which node ids that is ----------

  /** The node ids of the variables of a tree that are mandatory or optional and lie under
      published children only. */
  function VariableIds(n: Node): set<NodeId>
    decreases n
  {
    match n
    case Simple(id, _, children, _) =>
      (if Subscribable(n) then {id} else {}) +
      set i, x | 0 <= i < |children| && Published(children[i]) && x in VariableIds(children[i]) :: x
    case Placeholder(_, elements) =>
      set i, x | 0 <= i < |elements| && x in ElementIds(elements[i]) :: x
  }

  function ElementIds(e: Element): set<NodeId>
    decreases e
  {
    VariableIds(e.node)
  }

  /** After the traversal exactly the variables that the server accepts are subscribed,
      whatever was subscribed before. */
  lemma {:induction false} FeedSubscribesAll(n: Node, seen: set<NodeId>, feed: map<NodeId, Json>)
    ensures Feed(n, seen, feed).1 == seen + VariableIds(n) * feed.Keys
    decreases n, 1
  {
    match n
    case Simple(id, def, children, value) =>
      var first := Subscribable(n) && id !in seen && id in feed;
      FeedChildrenSubscribe(children, if first then seen + {id} else seen, feed);
    case Placeholder(def, elements) =>
      FeedElementsSubscribe(elements, seen, feed);
  }

  lemma {:induction false} FeedChildrenSubscribe(children: seq<Node>, seen: set<NodeId>, feed: map<NodeId, Json>)
    ensures forall x :: x in FeedChildren(children, seen, feed).1 <==>
              x in seen || (x in feed && exists i :: 0 <= i < |children| && Published(children[i]) && x in VariableIds(children[i]))
    decreases children, 0
  {
    if children != [] {
      var front, last := children[..|children| - 1], children[|children| - 1];
      FeedChildrenSubscribe(front, seen, feed);
      assert children == front + [last];
      if Published(last) {
        FeedSubscribesAll(last, FeedChildren(front, seen, feed).1, feed);
      }
    }
  }

  lemma {:induction false} FeedElementsSubscribe(elements: seq<Element>, seen: set<NodeId>, feed: map<NodeId, Json>)
    ensures forall x :: x in FeedElements(elements, seen, feed).1 <==>
              x in seen || (x in feed && exists i :: 0 <= i < |elements| && x in ElementIds(elements[i]))
    decreases elements, 0
  {
    if elements != [] {
      var front, last := elements[..|elements| - 1], elements[|elements| - 1];
      FeedElementsSubscribe(front, seen, feed);
      assert elements == front + [last] && last.node < last;
      FeedSubscribesAll(last.node, FeedElements(front, seen, feed).1, feed);
    }
  }
}
