/** Information preservation: which values the published JSON holds, and under which path. */
module JsonPaths {
  import opened OpcUa
  import opened Instance
  import opened ModelToJson

  function Lookup(j: Json, path: seq<string>): Option<Json>
    decreases |path|
  {
    if path == [] then Some(j)
    else if j.Record? && path[0] in j.members then Lookup(j.members[path[0]], path[1..])
    else None
  }

  // ---------- positions in the tree and their JSON paths ----------

  datatype Step = Child(i: nat) | Elem(i: nat)

  function At(n: Node, pos: seq<Step>): Option<Node>
    decreases pos
  {
    if pos == [] then Some(n)
    else
      match (n, pos[0])
      case (Simple(_, _, children, _), Child(i)) => if i < |children| then At(children[i], pos[1..]) else None
      case (Placeholder(_, elements), Elem(i)) => if i < |elements| then At(elements[i].node, pos[1..]) else None
      case _ => None
  }

  /** A variable, except under the node id of the type of properties: its value and its
      children have members of their own. */
  predicate HasBoth(n: Node)
    requires n.Simple?
  {
    && (n.def.nodeClass == NodeClass.Variable || n.def.nodeClass == NodeClass.VariableType)
    && !(n.id.id == "i=68" && (n.id.uri == "" || n.id.uri == "http://opcfoundation.org/UA/"))
  }

  /** Nodes of the other modelling rules are not published. */
  predicate Eligible(n: Node) {
    if n.Simple? then n.def.rule == ModellingRule.Optional || n.def.rule == ModellingRule.Mandatory
    else n.def.rule == ModellingRule.OptionalPlaceholder || n.def.rule == ModellingRule.MandatoryPlaceholder
  }

  /** The keys that lead to the value of the node at `pos`. */
  function PathOf(n: Node, pos: seq<Step>): seq<string>
    requires At(n, pos).Some?
    decreases pos
  {
    if pos == [] then
      if n.Simple? && HasBoth(n) && n.children != [] then ["value"] else []
    else
      match n
      case Simple(_, _, children, _) =>
        var child := children[pos[0].i];
        (if HasBoth(n) then ["properties"] else []) + [child.def.name.name] + PathOf(child, pos[1..])
      case Placeholder(_, elements) =>
        [elements[pos[0].i].name.name] + PathOf(elements[pos[0].i].node, pos[1..])
  }

  /** The member of child `i` is its own: it is the first child of its qualified name, and no
      child of another qualified name has the same plain name. */
  predicate OwnMember(children: seq<Node>, i: nat)
    requires i < |children|
  {
    && (forall k :: 0 <= k < i ==> children[k].def.name != children[i].def.name)
    && (forall k :: 0 <= k < |children| && children[k].def.name.name == children[i].def.name.name ==>
          children[k].def.name == children[i].def.name)
  }

  /** No later element has the same name. */
  predicate OwnElement(elements: seq<Element>, i: nat)
    requires i < |elements|
  {
    forall k :: i < k < |elements| ==> elements[k].name.name != elements[i].name.name
  }

  /** Every node on the way has a member of its own, and an element's type tag hides nothing. */
  predicate Visible(n: Node, pos: seq<Step>)
    requires At(n, pos).Some?
    decreases pos
  {
    && Eligible(n)
    && (pos != [] ==>
          match n
          case Simple(_, _, children, _) =>
            OwnMember(children, pos[0].i) && Visible(children[pos[0].i], pos[1..])
          case Placeholder(_, elements) =>
            var path := PathOf(elements[pos[0].i].node, pos[1..]);
            && OwnElement(elements, pos[0].i) && Visible(elements[pos[0].i].node, pos[1..])
            && path != [] && path[0] != "$TypeDefinition")
  }

  // ---------- every visible value can be read back ----------

  lemma {:induction false} MemberKept(children: seq<Node>, i: nat)
    requires i < |children| && OwnMember(children, i) && ToKids(children).Some?
    ensures ToJson(children[i]).Some?
    ensures !ToJson(children[i]).value.Null? ==>
      var members := ToKids(children).value.members;
      children[i].def.name.name in members && members[children[i].def.name.name] == ToJson(children[i]).value
    decreases |children|
  {
    var last := |children| - 1;
    var front := children[..last];
    if i < last {
      assert front[i] == children[i];
      MemberKept(front, i);
      VisitedNames(front, children[i].def.name);
    } else {
      VisitedNames(front, children[i].def.name);
    }
  }

  lemma {:induction false} VisitedNames(children: seq<Node>, name: QualifiedName)
    requires ToKids(children).Some?
    ensures name in ToKids(children).value.visited <==> exists i :: 0 <= i < |children| && children[i].def.name == name
    decreases |children|
  {
    if children != [] {
      var last := |children| - 1;
      VisitedNames(children[..last], name);
      VisitedNames(children[..last], children[last].def.name);
      if i :| 0 <= i < |children| && children[i].def.name == name && i < last {
        assert children[..last][i] == children[i];
      }
    }
  }

  lemma {:induction false} ElementKept(elements: seq<Element>, i: nat)
    requires i < |elements| && OwnElement(elements, i) && ToMembers(elements).Some?
    ensures ToJson(elements[i].node).Some? && Tagged(ToJson(elements[i].node).value, elements[i]).Some?
    ensures var members := ToMembers(elements).value;
            elements[i].name.name in members
            && members[elements[i].name.name] == Tagged(ToJson(elements[i].node).value, elements[i]).value
    decreases |elements|
  {
    var last := |elements| - 1;
    if i < last {
      assert elements[..last][i] == elements[i];
      ElementKept(elements[..last], i);
    }
  }

  /** What is found in the JSON of a child is found in that of its parent, below the child's key. */
  lemma UnderChild(n: Node, i: nat, path: seq<string>, x: Json)
    requires n.Simple? && Eligible(n) && ToJson(n).Some? && i < |n.children| && OwnMember(n.children, i)
    requires ToJson(n.children[i]).Some? ==> Lookup(ToJson(n.children[i]).value, path) == Some(x)
    requires !x.Null?
    ensures Lookup(ToJson(n).value, (if HasBoth(n) then ["properties"] else []) + [n.children[i].def.name.name] + path) == Some(x)
  {
    var key, members := n.children[i].def.name.name, ToKids(n.children).value.members;
    MemberKept(n.children, i);
    assert Lookup(Record(members), [key] + path) == Some(x) by {
      assert ([key] + path)[1..] == path;
    }
    if HasBoth(n) {
      assert (["properties"] + [key] + path)[1..] == [key] + path;
    } else {
      assert [] + [key] + path == [key] + path;
    }
  }

  lemma UnderElement(n: Node, i: nat, path: seq<string>, x: Json)
    requires n.Placeholder? && Eligible(n) && ToJson(n).Some? && i < |n.elements| && OwnElement(n.elements, i)
    requires ToJson(n.elements[i].node).Some? ==> Lookup(ToJson(n.elements[i].node).value, path) == Some(x)
    requires path != [] && path[0] != "$TypeDefinition"
    ensures Lookup(ToJson(n).value, [n.elements[i].name.name] + path) == Some(x)
  {
    ElementKept(n.elements, i);
    assert ([n.elements[i].name.name] + path)[1..] == path;
  }

  /** A rendered node's parent was rendered. */
  lemma {:induction false} ChildRendered(children: seq<Node>, i: nat)
    requires i < |children| && OwnMember(children, i) && ToKids(children).Some?
    ensures ToJson(children[i]).Some?
  {
    MemberKept(children, i);
  }

  /** The non-null value of a visible variable is found under its path; a property's, if it
      has no children. */
  lemma {:induction false} ValueIsPublished(n: Node, pos: seq<Step>)
    requires At(n, pos).Some? && Visible(n, pos) && ToJson(n).Some?
    requires var v := At(n, pos).value;
             && v.Simple? && (v.def.nodeClass == NodeClass.Variable || v.def.nodeClass == NodeClass.VariableType)
             && (HasBoth(v) || v.children == []) && !v.value.Null?
    ensures Lookup(ToJson(n).value, PathOf(n, pos)) == Some(At(n, pos).value.value)
    decreases pos
  {
    if pos == [] {
      VariableKeepsValue(n);
    } else {
      var i, value := pos[0].i, At(n, pos).value.value;
      match n
      case Simple(_, _, children, _) =>
        ChildRendered(children, i);
        ValueIsPublished(children[i], pos[1..]);
        UnderChild(n, i, PathOf(children[i], pos[1..]), value);
      case Placeholder(_, elements) =>
        ElementKept(elements, i);
        ValueIsPublished(elements[i].node, pos[1..]);
        UnderElement(n, i, PathOf(elements[i].node, pos[1..]), value);
    }
  }

  lemma VariableKeepsValue(n: Node)
    requires n.Simple? && Eligible(n) && ToJson(n).Some?
    requires (n.def.nodeClass == NodeClass.Variable || n.def.nodeClass == NodeClass.VariableType) && (HasBoth(n) || n.children == [])
    ensures Lookup(ToJson(n).value, PathOf(n, [])) == Some(n.value)
  {
    if n.children != [] {
      assert ["value"][1..] == [];
    }
  }

  lemma TagOfElement(n: Node, i: nat)
    requires n.Placeholder? && Eligible(n) && ToJson(n).Some? && i < |n.elements| && OwnElement(n.elements, i)
    ensures Lookup(ToJson(n).value, [n.elements[i].name.name, "$TypeDefinition"]) == Some(Text(n.elements[i].typeDefinition.Text()))
  {
    var e := n.elements[i];
    ElementKept(n.elements, i);
    var members := ToMembers(n.elements).value;
    assert e.name.name in members && ToJson(n).value == Record(members);
    assert Lookup(members[e.name.name], ["$TypeDefinition"]) == Some(Text(e.typeDefinition.Text())) by {
      assert ["$TypeDefinition"][1..] == [];
    }
    assert [e.name.name, "$TypeDefinition"][1..] == ["$TypeDefinition"];
  }

  /** Every element of a visible placeholder carries the text of its type definition. */
  lemma {:induction false} TypeTagIsPublished(n: Node, pos: seq<Step>, i: nat)
    requires At(n, pos).Some? && Visible(n, pos) && ToJson(n).Some?
    requires var p := At(n, pos).value; p.Placeholder? && i < |p.elements| && OwnElement(p.elements, i)
    ensures var e := At(n, pos).value.elements[i];
            Lookup(ToJson(n).value, PathOf(n, pos) + [e.name.name, "$TypeDefinition"]) == Some(Text(e.typeDefinition.Text()))
    decreases pos
  {
    var e := At(n, pos).value.elements[i];
    var tag := [e.name.name, "$TypeDefinition"];
    if pos == [] {
      TagOfElement(n, i);
      assert PathOf(n, pos) + tag == tag;
    } else {
      var k, x := pos[0].i, Text(e.typeDefinition.Text());
      match n
      case Simple(_, _, children, _) =>
        ChildRendered(children, k);
        TypeTagIsPublished(children[k], pos[1..], i);
        var path := PathOf(children[k], pos[1..]);
        UnderChild(n, k, path + tag, x);
        var keys := (if HasBoth(n) then ["properties"] else []) + [children[k].def.name.name];
        assert keys + (path + tag) == (keys + path) + tag;
      case Placeholder(_, elements) =>
        ElementKept(elements, k);
        TypeTagIsPublished(elements[k].node, pos[1..], i);
        var path := PathOf(elements[k].node, pos[1..]);
        UnderElement(n, k, path + tag, x);
        assert [elements[k].name.name] + (path + tag) == ([elements[k].name.name] + path) + tag;
    }
  }

  // ---------- the members of an object ----------

  /** Child `i` is rendered under the key: the first of its qualified name, and not null. */
  predicate Speaks(children: seq<Node>, i: nat, key: string) {
    && i < |children| && children[i].def.name.name == key && (forall k :: 0 <= k < i ==> children[k].def.name != children[i].def.name)
    && ToJson(children[i]).Some? && !ToJson(children[i]).value.Null?
  }

  /** The last child rendered under the key. */
  ghost predicate SpeaksLast(children: seq<Node>, i: nat, key: string) {
    Speaks(children, i, key) && forall k: nat :: Speaks(children, k, key) ==> k <= i
  }

  lemma LastSpeaks(children: seq<Node>, key: string)
    requires ToKids(children).Some? && children != []
    ensures var last, before, members := |children| - 1, ToKids(children[..|children| - 1]).value.members, ToKids(children).value.members;
            if Speaks(children, last, key) then key in members && members[key] == ToJson(children[last]).value
            else (key in members <==> key in before) && (key in members ==> members[key] == before[key])
  {
    var last := |children| - 1;
    VisitedNames(children[..last], children[last].def.name);
    assert forall k :: 0 <= k < last ==> children[..last][k] == children[k];
  }

  /** The object of a node has a member exactly for the keys under which a child is rendered. */
  lemma {:induction false} MembersIff(children: seq<Node>, key: string)
    requires ToKids(children).Some?
    ensures key in ToKids(children).value.members <==> exists i: nat :: Speaks(children, i, key)
    decreases |children|
  {
    if children != [] {
      var last := |children| - 1;
      MembersIff(children[..last], key);
      LastSpeaks(children, key);
      if i: nat :| Speaks(children[..last], i, key) {
        SpeaksInFront(children, i, key);
      }
      if i: nat :| Speaks(children, i, key) && i != last {
        SpeaksInFront(children, i, key);
      }
      if Speaks(children, last, key) {
        assert exists i: nat :: Speaks(children, i, key);
      }
    }
  }

  /** Of several children with one plain name the last is seen. */
  lemma {:induction false} LastMemberIsSeen(children: seq<Node>, i: nat, key: string)
    requires ToKids(children).Some? && SpeaksLast(children, i, key)
    ensures key in ToKids(children).value.members && ToKids(children).value.members[key] == ToJson(children[i]).value
    decreases |children|
  {
    var last := |children| - 1;
    LastSpeaks(children, key);
    if !Speaks(children, last, key) {
      forall k: nat
        ensures Speaks(children[..last], k, key) <==> Speaks(children, k, key) && k < last
      {
        SpeaksInFront(children, k, key);
      }
      assert children[..last][i] == children[i];
      LastMemberIsSeen(children[..last], i, key);
    } else {
      assert last <= i < |children|;
    }
  }

  lemma SpeaksInFront(children: seq<Node>, i: nat, key: string)
    requires children != []
    ensures Speaks(children[..|children| - 1], i, key) <==> Speaks(children, i, key) && i < |children| - 1
  {
    var front := children[..|children| - 1];
    if i < |front| {
      assert front[i] == children[i] && forall k :: 0 <= k < i ==> front[k] == children[k];
    }
  }

  /** The object of a placeholder has exactly the names of its elements as keys. */
  lemma {:induction false} ElementKeysIff(elements: seq<Element>, key: string)
    requires ToMembers(elements).Some?
    ensures key in ToMembers(elements).value <==> exists i :: 0 <= i < |elements| && elements[i].name.name == key
    decreases |elements|
  {
    if elements != [] {
      var last := |elements| - 1;
      ElementKeysIff(elements[..last], key);
      if i :| 0 <= i < |elements| && elements[i].name.name == key && i < last {
        assert elements[..last][i] == elements[i];
      }
    }
  }

  /** No child is rendered under any key. */
  ghost predicate Silent(children: seq<Node>) {
    forall i: nat, key :: !Speaks(children, i, key)
  }

  lemma SilentIff(children: seq<Node>)
    requires ToKids(children).Some?
    ensures ToKids(children).value.members == map[] <==> Silent(children)
  {
    var members := ToKids(children).value.members;
    if members == map[] {
      forall i: nat, key
        ensures !Speaks(children, i, key)
      {
        MembersIff(children, key);
      }
    } else {
      var key :| key in members;
      MembersIff(children, key);
    }
  }

  /** A node renders to null exactly if it is not published, or has nothing to show: no
      element; or no child that is rendered, and no value of its own. */
  lemma NullIff(n: Node)
    requires ToJson(n).Some?
    ensures ToJson(n).value.Null? <==>
            || !Eligible(n)
            || (n.Placeholder? && n.elements == [])
            || (n.Simple? && Silent(n.children)
                && (n.def.nodeClass == NodeClass.Variable || n.def.nodeClass == NodeClass.VariableType ==>
                      n.value.Null? && !(HasBoth(n) && n.children != [])))
  {
    if Eligible(n) && n.Simple? {
      SilentIff(n.children);
    } else if Eligible(n) && n.elements != [] {
      ElementKeysIff(n.elements, n.elements[0].name.name);
    }
  }

  // ---------- every published value comes from a node ----------

  /** The atom `x` at `path` is part of the value of the variable at `pos`, whose path is the
      first `k` keys; or it is the type tag of the element at `pos`. */
  predicate ComesFrom(n: Node, path: seq<string>, x: Json, pos: seq<Step>, k: nat) {
    At(n, pos).Some? && Rendered(n, pos) && k <= |path| &&
    match At(n, pos).value
    case Simple(_, def, _, value) =>
      (def.nodeClass == NodeClass.Variable || def.nodeClass == NodeClass.VariableType) && path[..k] == PathOf(n, pos) && Lookup(value, path[k..]) == Some(x)
    case Placeholder(_, elements) =>
      && path[..k] == PathOf(n, pos) && |path| == k + 2 && path[k + 1] == "$TypeDefinition"
      && exists i :: 0 <= i < |elements| && elements[i].name.name == path[k] && x == Text(elements[i].typeDefinition.Text())
  }

  predicate Atom(x: Json) {
    !x.Null? && !x.Record?
  }

  lemma NewName(children: seq<Node>)
    requires children != [] && ToKids(children[..|children| - 1]).Some?
    requires children[|children| - 1].def.name !in ToKids(children[..|children| - 1]).value.visited
    ensures forall k :: 0 <= k < |children| - 1 ==> children[k].def.name != children[|children| - 1].def.name
  {
    var last := |children| - 1;
    VisitedNames(children[..last], children[last].def.name);
    assert forall k :: 0 <= k < last ==> children[..last][k] == children[k];
  }

  lemma SameFront(children: seq<Node>, i: nat)
    requires i < |children| - 1
    ensures forall k :: 0 <= k <= i ==> children[..|children| - 1][k] == children[k]
  {
  }

  lemma {:induction false} MemberOrigin(children: seq<Node>, key: string) returns (i: nat)
    requires ToKids(children).Some? && key in ToKids(children).value.members
    ensures i < |children| && children[i].def.name.name == key && forall k :: 0 <= k < i ==> children[k].def.name != children[i].def.name
    ensures ToJson(children[i]) == Some(ToKids(children).value.members[key])
    decreases |children|
  {
    var last := |children| - 1;
    var before := ToKids(children[..last]).value;
    if children[last].def.name !in before.visited && key == children[last].def.name.name && !ToJson(children[last]).value.Null? {
      i := last;
      NewName(children);
    } else {
      i := MemberOrigin(children[..last], key);
      SameFront(children, i);
    }
  }

  lemma {:induction false} ElementOrigin(elements: seq<Element>, key: string) returns (i: nat)
    requires ToMembers(elements).Some? && key in ToMembers(elements).value
    ensures i < |elements| && elements[i].name.name == key && ToJson(elements[i].node).Some?
    ensures Tagged(ToJson(elements[i].node).value, elements[i]) == Some(ToMembers(elements).value[key])
    decreases |elements|
  {
    var last := |elements| - 1;
    if key == elements[last].name.name {
      i := last;
    } else {
      i := ElementOrigin(elements[..last], key);
    }
  }

  /** Every atom of the JSON is a type tag or part of the value of some variable of the tree. */
  lemma {:induction false} EveryAtomHasAnOrigin(n: Node, path: seq<string>, x: Json) returns (pos: seq<Step>, k: nat)
    requires ToJson(n).Some? && Lookup(ToJson(n).value, path) == Some(x) && Atom(x)
    ensures ComesFrom(n, path, x, pos, k)
    decreases |path|, 1
  {
    if n.Placeholder? {
      pos, k := ElementAtom(n, path, x);
    } else if ToKids(n.children).value.members == map[] {
      pos, k := [], if HasBoth(n) && n.children != [] then 1 else 0;
      OwnAtom(n, path, x, k);
    } else {
      pos, k := ChildAtom(n, path, x);
    }
  }

  lemma OwnAtom(n: Node, path: seq<string>, x: Json, k: nat)
    requires n.Simple? && Eligible(n) && Lookup(Own(n), path) == Some(x) && Atom(x)
    requires k == if HasBoth(n) && n.children != [] then 1 else 0
    ensures ComesFrom(n, path, x, [], k)
  {
    if k == 1 {
      assert path[..1] == ["value"];
    } else {
      assert path[0..] == path && path[..0] == [];
    }
  }

  lemma ChildPath(n: Node, path: seq<string>, x: Json) returns (i: nat, used: nat)
    requires n.Simple? && Eligible(n) && ToJson(n).Some? && ToKids(n.children).value.members != map[]
    requires Lookup(ToJson(n).value, path) == Some(x) && Atom(x) && !(HasBoth(n) && path[0] == "value")
    ensures i < |n.children| && 1 <= used <= |path| && ToJson(n.children[i]).Some?
    ensures At(n, [Child(i)]).Some? && path[..used] == KeysOf(n, Child(i))
    ensures forall k :: 0 <= k < i ==> n.children[k].def.name != n.children[i].def.name
    ensures Lookup(ToJson(n.children[i]).value, path[used..]) == Some(x)
  {
    var members := ToKids(n.children).value.members;
    var rest := if HasBoth(n) then path[1..] else path;
    used := if HasBoth(n) then 2 else 1;
    assert Lookup(Record(members), rest) == Some(x);
    i := MemberOrigin(n.children, rest[0]);
    assert path[used..] == rest[1..];
  }

  lemma RenderedChild(n: Node, i: nat)
    requires n.Simple? && Eligible(n) && i < |n.children| && Eligible(n.children[i])
    requires forall k :: 0 <= k < i ==> n.children[k].def.name != n.children[i].def.name
    ensures At(n, [Child(i)]).Some? && Rendered(n, [Child(i)])
  {
    assert [Child(i)][1..] == [];
  }

  lemma ValueAtom(n: Node, path: seq<string>, x: Json)
    requires n.Simple? && Eligible(n) && ToJson(n).Some? && ToKids(n.children).value.members != map[] && HasBoth(n)
    requires Lookup(ToJson(n).value, path) == Some(x) && Atom(x) && path[0] == "value"
    ensures ComesFrom(n, path, x, [], 1)
  {
    assert path[..1] == ["value"];
  }

  lemma {:induction false} ChildAtom(n: Node, path: seq<string>, x: Json) returns (pos: seq<Step>, k: nat)
    requires n.Simple? && Eligible(n) && ToJson(n).Some? && ToKids(n.children).value.members != map[]
    requires Lookup(ToJson(n).value, path) == Some(x) && Atom(x)
    ensures ComesFrom(n, path, x, pos, k)
    decreases |path|, 0
  {
    if HasBoth(n) && path[0] == "value" {
      pos, k := [], 1;
      ValueAtom(n, path, x);
    } else {
      var i, used := ChildPath(n, path, x);
      var pos', k' := EveryAtomHasAnOrigin(n.children[i], path[used..], x);
      pos, k := [Child(i)] + pos', k' + used;
      RenderedChild(n, i);
      assert [Child(i)][1..] == [];
      Extended(n, Child(i), path, x, pos', k', used);
    }
  }

  lemma {:induction false} ElementAtom(n: Node, path: seq<string>, x: Json) returns (pos: seq<Step>, k: nat)
    requires n.Placeholder? && ToJson(n).Some? && Lookup(ToJson(n).value, path) == Some(x) && Atom(x)
    ensures ComesFrom(n, path, x, pos, k)
    decreases |path|, 0
  {
    var i := ElementOrigin(n.elements, path[0]);
    var e, rest := n.elements[i], path[1..];
    var tagged := Tagged(ToJson(e.node).value, e).value;
    assert Lookup(tagged, rest) == Some(x);
    if rest != [] && rest[0] == TYPE_DEFINITION {
      assert Lookup(Text(e.typeDefinition.Text()), rest[1..]) == Some(x);
      pos, k := [], 0;
      assert |rest| == 1 && path[..0] == [];
    } else {
      var pos', k' := EveryAtomHasAnOrigin(e.node, rest, x);
      pos, k := [Elem(i)] + pos', k' + 1;
      assert path[..1] == KeysOf(n, Elem(i));
      Extended(n, Elem(i), path, x, pos', k', 1);
    }
  }

  /** An origin below a child is an origin below the node. */
  lemma Extended(n: Node, step: Step, path: seq<string>, x: Json, pos: seq<Step>, k: nat, used: nat)
    requires At(n, [step]).Some? && used <= |path|
    requires ComesFrom(At(n, [step]).value, path[used..], x, pos, k)
    requires used == |KeysOf(n, step)| && path[..used] == KeysOf(n, step) && Rendered(n, [step])
    ensures ComesFrom(n, path, x, [step] + pos, k + used)
  {
    assert ([step] + pos)[1..] == pos && [step][1..] == [];
    assert path[..k + used] == path[..used] + path[used..][..k];
    assert path[used..][k..] == path[k + used..];
  }

  function KeysOf(n: Node, step: Step): seq<string>
    requires At(n, [step]).Some?
  {
    assert [step][1..] == [];
    match n
    case Simple(_, _, children, _) =>
      (if HasBoth(n) then ["properties"] else []) + [children[step.i].def.name.name]
    case Placeholder(_, elements) => [elements[step.i].name.name]
  }

  // ---------- when rendering throws ----------

  /** Rendering the root also renders the node at `pos`. */
  predicate Rendered(n: Node, pos: seq<Step>)
    requires At(n, pos).Some?
    decreases pos
  {
    && Eligible(n)
    && (pos != [] ==>
          match n
          case Simple(_, _, children, _) =>
            && (forall k :: 0 <= k < pos[0].i ==> children[k].def.name != children[pos[0].i].def.name)
            && Rendered(children[pos[0].i], pos[1..])
          case Placeholder(_, elements) => Rendered(elements[pos[0].i].node, pos[1..]))
  }

  /** Element `i` of the placeholder at `pos` renders to a value that cannot carry a type tag. */
  predicate Untaggable(n: Node, pos: seq<Step>, i: nat) {
    && At(n, pos).Some? && Rendered(n, pos)
    && At(n, pos).value.Placeholder? && i < |At(n, pos).value.elements|
    && var j := ToJson(At(n, pos).value.elements[i].node);
       j.Some? && Atom(j.value)
  }

  lemma {:induction false} FailingChild(children: seq<Node>) returns (i: nat)
    requires ToKids(children).None?
    ensures i < |children| && ToJson(children[i]).None?
    ensures forall k :: 0 <= k < i ==> children[k].def.name != children[i].def.name
    decreases |children|
  {
    var last := |children| - 1;
    if ToKids(children[..last]).None? {
      i := FailingChild(children[..last]);
    } else {
      i := last;
      VisitedNames(children[..last], children[last].def.name);
      forall k | 0 <= k < last
        ensures children[k].def.name != children[last].def.name
      {
        assert children[..last][k] == children[k];
      }
    }
  }

  lemma {:induction false} FailingElement(elements: seq<Element>) returns (i: nat)
    requires ToMembers(elements).None?
    ensures i < |elements| && (ToJson(elements[i].node).None? || Tagged(ToJson(elements[i].node).value, elements[i]).None?)
    decreases |elements|
  {
    var last := |elements| - 1;
    if ToMembers(elements[..last]).None? {
      i := FailingElement(elements[..last]);
    } else {
      i := last;
    }
  }

  lemma {:induction false} RenderingThrows(n: Node) returns (pos: seq<Step>, i: nat)
    requires ToJson(n).None?
    ensures Untaggable(n, pos, i)
    decreases n
  {
    match n
    case Simple(_, _, children, _) =>
      var c := FailingChild(children);
      var pos', i' := RenderingThrows(children[c]);
      pos, i := [Child(c)] + pos', i';
      assert pos[1..] == pos';
    case Placeholder(_, elements) =>
      var e := FailingElement(elements);
      if ToJson(elements[e].node).Some? {
        pos, i := [], e;
      } else {
        var pos', i' := RenderingThrows(elements[e].node);
        pos, i := [Elem(e)] + pos', i';
        assert pos[1..] == pos';
      }
  }

  lemma {:induction false} RenderedChildSucceeds(children: seq<Node>, i: nat)
    requires ToKids(children).Some? && i < |children|
    requires forall k :: 0 <= k < i ==> children[k].def.name != children[i].def.name
    ensures ToJson(children[i]).Some?
    decreases |children|
  {
    var last := |children| - 1;
    VisitedNames(children[..last], children[last].def.name);
    if i < last {
      assert children[..last][i] == children[i];
      RenderedChildSucceeds(children[..last], i);
    }
  }

  lemma {:induction false} RenderedElementSucceeds(elements: seq<Element>, i: nat)
    requires ToMembers(elements).Some? && i < |elements|
    ensures ToJson(elements[i].node).Some? && Tagged(ToJson(elements[i].node).value, elements[i]).Some?
    decreases |elements|
  {
    var last := |elements| - 1;
    if i < last {
      assert elements[..last][i] == elements[i];
      RenderedElementSucceeds(elements[..last], i);
    }
  }

  lemma {:induction false} UntaggableThrows(n: Node, pos: seq<Step>, i: nat)
    requires Untaggable(n, pos, i)
    ensures ToJson(n).None?
    decreases pos
  {
    if ToJson(n).Some? {
      match n
      case Simple(_, _, children, _) =>
        RenderedChildSucceeds(children, pos[0].i);
        UntaggableThrows(children[pos[0].i], pos[1..], i);
      case Placeholder(_, elements) =>
        RenderedElementSucceeds(elements, if pos == [] then i else pos[0].i);
        if pos != [] {
          UntaggableThrows(elements[pos[0].i].node, pos[1..], i);
        }
    }
  }

  /** Publishing throws exactly if some rendered placeholder element is a bare value. */
  lemma RenderingThrowsIff(n: Node)
    ensures ToJson(n).None? <==> exists pos, i :: Untaggable(n, pos, i)
  {
    if ToJson(n).None? {
      var pos, i := RenderingThrows(n);
    }
    if pos, i :| Untaggable(n, pos, i) {
      UntaggableThrows(n, pos, i);
    }
  }
}
