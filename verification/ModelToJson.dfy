/** Rendering an instance tree as JSON with the default flags, and reading it back by path. */
module ModelToJson {
  import opened OpcUa
  import opened Instance

  const PROPERTY_TYPE := NodeId("", "i=68")
  const TYPE_DEFINITION := "$TypeDefinition"

  /** The name of the program's function; it compares the node's own id, not its type. */
  predicate IsBaseDataVariableType(n: Node)
    requires n.Simple?
  {
    n.def.nodeClass.IsVariable() && !Same(n.id, PROPERTY_TYPE)
  }

  predicate Published(n: Node) {
    if n.Simple? then n.def.rule.Optional? || n.def.rule.Mandatory? else n.def.rule.IsPlaceholder()
  }

  /** What the loop over the children has built: the names met and the JSON members. */
  datatype Kids = Kids(visited: set<QualifiedName>, members: map<string, Json>)

  function Own(n: Node): Json
    requires n.Simple?
  {
    if !n.def.nodeClass.IsVariable() then Null
    else if IsBaseDataVariableType(n) && n.children != [] then Record(map["value" := n.value])
    else n.value
  }

  function WithKids(n: Node, members: map<string, Json>): Json
    requires n.Simple? && (members != map[] ==> n.children != [])
  {
    if members == map[] then Own(n)
    else if IsBaseDataVariableType(n) then Record(map["value" := n.value, "properties" := Record(members)])
    else Record(members)
  }

  /** Adding the type to an element: JSON values that are not objects throw. */
  function Tagged(j: Json, e: Element): Option<Json> {
    match j
    case Null => Some(Record(map[TYPE_DEFINITION := Text(e.typeDefinition.Text())]))
    case Record(m) => Some(Record(m[TYPE_DEFINITION := Text(e.typeDefinition.Text())]))
    case _ => None
  }

  /** `None` is the type error that the JSON library throws. */
  function ToJson(n: Node): Option<Json>
    decreases n, 1
  {
    if !Published(n) then Some(Null)
    else if n.Simple? then
      var kids := ToKids(n.children);
      if kids.None? then None else Some(WithKids(n, kids.value.members))
    else
      var members := ToMembers(n.elements);
      if members.None? then None
      else if members.value == map[] then Some(Null)
      else Some(Record(members.value))
  }

  function ToKids(children: seq<Node>): (r: Option<Kids>)
    ensures r.Some? && children == [] ==> r.value.members == map[]
    decreases children, 0
  {
    if children == [] then Some(Kids({}, map[]))
    else
      var before, child := ToKids(children[..|children| - 1]), children[|children| - 1];
      if before.None? then None
      else if child.def.name in before.value.visited then before
      else
        var j := ToJson(child);
        if j.None? then None
        else Some(Kids(before.value.visited + {child.def.name},
                       if j.value.Null? then before.value.members
                       else before.value.members[child.def.name.name := j.value]))
  }

  function ToMembers(elements: seq<Element>): (r: Option<map<string, Json>>)
    decreases elements, 0
  {
    if elements == [] then Some(map[])
    else
      var before, e := ToMembers(elements[..|elements| - 1]), elements[|elements| - 1];
      if before.None? then None
      else
        assert e.node < e;
        var j := ToJson(e.node);
        if j.None? then None
        else
          var tagged := Tagged(j.value, e);
          if tagged.None? then None else Some(before.value[e.name.name := tagged.value])
  }

  /** The constructor's recursion with its loops. */
  method Render(n: Node) returns (r: Option<Json>)
    ensures r == ToJson(n)
    decreases n
  {
    if !Published(n) {
      return Some(Null);
    }
    match n
    case Simple(_, _, children, _) =>
      var visited: set<QualifiedName>, members: map<string, Json> := {}, map[];
      for i := 0 to |children|
        invariant ToKids(children[..i]) == Some(Kids(visited, members))
        invariant i == 0 ==> members == map[]
      {
        assert children[..i + 1][..i] == children[..i];
        if children[i].def.name !in visited {
          var j := Render(children[i]);
          if j.None? {
            FailedPrefix(children, i + 1);
            return None;
          }
          visited := visited + {children[i].def.name};
          if !j.value.Null? {
            members := members[children[i].def.name.name := j.value];
          }
        }
      }
      assert children[..|children|] == children;
      return Some(WithKids(n, members));
    case Placeholder(_, elements) =>
      var members: map<string, Json> := map[];
      for i := 0 to |elements|
        invariant ToMembers(elements[..i]) == Some(members)
      {
        assert elements[..i + 1][..i] == elements[..i];
        var j := Render(elements[i].node);
        var tagged := if j.None? then None else Tagged(j.value, elements[i]);
        if tagged.None? {
          FailedMemberPrefix(elements, i + 1);
          return None;
        }
        members := members[elements[i].name.name := tagged.value];
      }
      assert elements[..|elements|] == elements;
      return Some(if members == map[] then Null else Record(members));
  }

  lemma {:induction false} FailedPrefix(children: seq<Node>, i: nat)
    requires i <= |children| && ToKids(children[..i]).None?
    ensures ToKids(children).None?
    decreases |children| - i
  {
    if i < |children| {
      assert children[..i + 1][..i] == children[..i];
      FailedPrefix(children, i + 1);
    } else {
      assert children[..i] == children;
    }
  }

  lemma {:induction false} FailedMemberPrefix(elements: seq<Element>, i: nat)
    requires i <= |elements| && ToMembers(elements[..i]).None?
    ensures ToMembers(elements).None?
    decreases |elements| - i
  {
    if i < |elements| {
      assert elements[..i + 1][..i] == elements[..i];
      FailedMemberPrefix(elements, i + 1);
    } else {
      assert elements[..i] == elements;
    }
  }
}
