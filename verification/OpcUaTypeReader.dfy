/** The type reader as the program runs it, on a store of shared child lists. */
module OpcUaTypeReader {
  import opened OpcUa
  import opened TypeCompilation
  import Instance

  const FOLDER := NodeId(NS0_URI, "i=61")
  const FUNCTIONAL_GROUP := NodeId("http://opcfoundation.org/UA/DI/", "i=1005")

  predicate IsFolder(typeId: NodeId) {
    Same(typeId, FOLDER) || Same(typeId, FUNCTIONAL_GROUP)
  }

  // ---------- loop specifications ----------

  /** The store after `toStructureNode` handled the first `k` children of `i`. */
  function ConvertedUpTo(bi: seq<BiNode>, lists: Lists, i: nat, k: nat): Lists
    requires WellFormed(bi) && |lists| == |bi| && i < |bi| && k <= |bi[i].children|
  {
    seq(|bi|, j requires 0 <= j < |bi| =>
      if j == i then lists[j] + bi[i].children[..k]
      else if exists m :: 0 <= m < k && Within(bi, j, bi[i].children[m]) then lists[j] + bi[j].children
      else lists[j])
  }

  lemma ConvertedUpToStep(bi: seq<BiNode>, lists: Lists, i: nat, k: nat)
    requires WellFormed(bi) && |lists| == |bi| && i < |bi| && k < |bi[i].children|
    ensures var before, c := ConvertedUpTo(bi, lists, i, k), bi[i].children[k];
            ConvertedUpTo(bi, lists, i, k + 1) == Converted(bi, before, c)[i := Converted(bi, before, c)[i] + [c]]
  {
    var before, after, c := ConvertedUpTo(bi, lists, i, k), ConvertedUpTo(bi, lists, i, k + 1), bi[i].children[k];
    forall j | 0 <= j < |bi|
      ensures after[j] == Converted(bi, before, c)[i := before[i] + [c]][j]
    {
      ConvertedUpToAt(bi, lists, i, k, j);
    }
    assert NodeOk(bi, i);
    if Within(bi, i, c) {
      WithinIsLater(bi, i, c);
    }
  }

  lemma InNoEarlierChild(bi: seq<BiNode>, i: nat, k: nat, j: nat)
    requires WellFormed(bi) && i < |bi| && k < |bi[i].children| && j < |bi| && NodeOk(bi, i) && Within(bi, j, bi[i].children[k])
    ensures forall m :: 0 <= m < k ==> !Within(bi, j, bi[i].children[m])
  {
    var cs := bi[i].children;
    forall m | 0 <= m < k
      ensures !Within(bi, j, cs[m])
    {
      if Within(bi, j, cs[m]) {
        SiblingsDisjoint(bi, j, i, cs[m], cs[k]);
      }
    }
  }

  lemma ConvertedUpToAt(bi: seq<BiNode>, lists: Lists, i: nat, k: nat, j: nat)
    requires WellFormed(bi) && |lists| == |bi| && i < |bi| && k < |bi[i].children| && j < |bi|
    ensures var before, c := ConvertedUpTo(bi, lists, i, k), bi[i].children[k];
            ConvertedUpTo(bi, lists, i, k + 1)[j] ==
            if j == i then before[j] + [c] else if Within(bi, j, c) then before[j] + bi[j].children else before[j]
  {
    assert NodeOk(bi, i);
    var cs := bi[i].children;
    if j == i {
      assert cs[..k + 1] == cs[..k] + [cs[k]];
    } else if Within(bi, j, cs[k]) {
      InNoEarlierChild(bi, i, k, j);
    }
  }

  lemma ConvertedUpToAll(bi: seq<BiNode>, lists: Lists, i: nat)
    requires WellFormed(bi) && |lists| == |bi| && i < |bi|
    ensures ConvertedUpTo(bi, lists, i, 0) == lists
    ensures ConvertedUpTo(bi, lists, i, |bi[i].children|) == Converted(bi, lists, i)
  {
    var cs := bi[i].children;
    assert cs[..|cs|] == cs && cs[..0] == [];
    assert forall j :: 0 <= j < |lists| ==> lists[j] + [] == lists[j];
    var upTo := ConvertedUpTo(bi, lists, i, |cs|);
    forall j | 0 <= j < |bi|
      ensures upTo[j] == Converted(bi, lists, i)[j]
    {
      WithinOneChild(bi, j, i);
      if c :| c in cs && Within(bi, j, c) {
        var m :| 0 <= m < |cs| && cs[m] == c;
        assert Within(bi, j, cs[m]);
      }
    }
  }

  lemma {:induction false} DeclaredSuffix(bi: seq<BiNode>, line: seq<nat>, k: nat)
    requires WellFormed(bi) && InRange(bi, line) && k <= |line|
    ensures Declared(bi, line[k..]) <= Declared(bi, line)
    decreases |line|
  {
    if k == 0 {
      assert line[0..] == line;
    } else {
      DeclaredSuffix(bi, line[1..], k - 1);
      assert line[1..][k - 1..] == line[k..];
    }
  }

  lemma {:induction false} NonTypesPrefix(bi: seq<BiNode>, cs: seq<nat>, m: nat)
    requires InRange(bi, cs) && m <= |cs|
    ensures NonTypes(bi, cs[..m]) <= NonTypes(bi, cs)
    decreases |cs|
  {
    if m == |cs| {
      assert cs[..m] == cs;
    } else {
      NonTypesPrefix(bi, cs[..|cs| - 1], m);
      assert cs[..|cs| - 1][..m] == cs[..m];
    }
  }

  lemma AncestorStep(bi: seq<BiNode>, cs: seq<nat>, above: seq<nat>, all: seq<nat>, m: nat)
    requires InRange(bi, cs) && m < |cs| && above + NonTypes(bi, cs) <= all
    ensures var d, d' := above + NonTypes(bi, cs[..m]), above + NonTypes(bi, cs[..m + 1]);
            d' <= all && d' == if bi[cs[m]].isType then d else d + [cs[m]]
  {
    NonTypesNext(bi, cs, m);
    NonTypesPrefix(bi, cs, m + 1);
    PrefixOfSum(above, NonTypes(bi, cs[..m + 1]), NonTypes(bi, cs));
    if !bi[cs[m]].isType {
      assert above + (NonTypes(bi, cs[..m]) + [cs[m]]) == above + NonTypes(bi, cs[..m]) + [cs[m]];
    }
  }

  lemma NonTypesNext(bi: seq<BiNode>, cs: seq<nat>, m: nat)
    requires InRange(bi, cs) && m < |cs|
    ensures NonTypes(bi, cs[..m + 1]) == NonTypes(bi, cs[..m]) + if bi[cs[m]].isType then [] else [cs[m]]
  {
    assert cs[..m + 1][..m] == cs[..m];
  }

  lemma PrefixOfSum(a: seq<nat>, b: seq<nat>, c: seq<nat>)
    requires b <= c
    ensures a + b <= a + c
  {
    assert a + c == a + b + c[|b|..];
  }

  /** A declaration that comes next is not in the entry yet. */
  lemma NextIsNew(bi: seq<BiNode>, lists: Lists, t: nat, d: seq<nat>, c: nat)
    requires WellFormed(bi) && Stored(bi, lists) && t < |bi| && bi[t].isType && lists[t] == []
    requires InRange(bi, d) && c < |bi| && d + [c] <= Declarations(bi, t)
    ensures c !in Compile(bi, lists, t, d)[t] && !bi[c].isType
    ensures forall i :: 0 <= i < |Compile(bi, lists, t, d)[t]| ==> Compile(bi, lists, t, d)[t][i] != c
  {
    var all := Declarations(bi, t);
    DeclarationsAreDeclared(bi, t);
    assert forall i :: 0 <= i < |d| ==> d[i] == (d + [c])[i] == all[i];
    assert all[|d|] == (d + [c])[|d|] == c;
    assert AllDeclared(bi, d);
    CompileEntry(bi, lists, t, d);
    EntryKeepsWinners(bi, d);
  }

  lemma BloodlineStep(bi: seq<BiNode>, line: seq<nat>, current: nat)
    requires WellFormed(bi) && current < |bi| && bi[current].parent.Some?
    ensures var p := bi[current].parent.value;
            p < current && line + Bloodline(bi, current)[1..] == (line + [p]) + Bloodline(bi, p)[1..]
  {
    assert NodeOk(bi, current);
    var p := bi[current].parent.value;
    assert Bloodline(bi, current)[1..] == Bloodline(bi, p);
    assert Bloodline(bi, p) == [p] + Bloodline(bi, p)[1..];
  }

  // ---------- linking ----------

  /** FolderType, whose namespace has two spellings, or FunctionalGroupType. */
  predicate OfFolderType(b: BiNode) {
    || (b.typeId.id == "i=61" && (b.typeId.uri == "" || b.typeId.uri == "http://opcfoundation.org/UA/"))
    || (b.typeId.id == "i=1005" && b.typeId.uri == "http://opcfoundation.org/UA/DI/")
  }

  lemma FolderTypes(b: BiNode)
    ensures IsFolder(b.typeId) <==> OfFolderType(b)
  {
    assert |NS0_URI| != |"http://opcfoundation.org/UA/DI/"|;
  }

  predicate Known(bi: seq<BiNode>, typeMap: map<NodeId, nat>, x: nat)
    requires x < |bi|
  {
    bi[x].typeId in typeMap && !OfFolderType(bi[x])
  }

  /** A node points to the list it pointed to before, or to the list of its type's entry. */
  predicate Retargeted(bi: seq<BiNode>, before: seq<nat>, after: seq<nat>, typeMap: map<NodeId, nat>) {
    |before| == |after| == |bi| &&
    forall x :: 0 <= x < |bi| ==>
      after[x] == before[x] || (bi[x].typeId in typeMap && after[x] == typeMap[bi[x].typeId])
  }

  predicate Pointed(bi: seq<BiNode>, lists: Lists, listOf: seq<nat>) {
    Stored(bi, lists) && |listOf| == |bi| && forall i :: 0 <= i < |listOf| ==> listOf[i] < |bi|
  }

  predicate Targeted(bi: seq<BiNode>, listOf: seq<nat>, typeMap: map<NodeId, nat>, x: nat)
    requires x < |bi| == |listOf|
  {
    Known(bi, typeMap, x) ==> listOf[x] == typeMap[bi[x].typeId]
  }

  /** Every node of the list whose type was compiled has the list of its type's entry. */
  predicate Swept(bi: seq<BiNode>, listOf: seq<nat>, typeMap: map<NodeId, nat>, list: seq<nat>)
    requires InRange(bi, list) && |listOf| == |bi|
  {
    forall k :: 0 <= k < |list| && bi[list[k]].typeId in typeMap ==> listOf[list[k]] == typeMap[bi[list[k]].typeId]
  }

  /** The child `c` of an entry was handled: it has its type's list; or it is a folder, and the
      nodes of the list it had, before linking or since it was itself found in a folder, do. */
  predicate ChildDone(bi: seq<BiNode>, lists: Lists, before: seq<nat>, listOf: seq<nat>, typeMap: map<NodeId, nat>, c: nat)
    requires Pointed(bi, lists, before) && Pointed(bi, lists, listOf) && c < |bi|
  {
    if OfFolderType(bi[c]) then
      || Swept(bi, listOf, typeMap, lists[before[c]])
      || (bi[c].typeId in typeMap && listOf[c] == typeMap[bi[c].typeId] && Swept(bi, listOf, typeMap, lists[listOf[c]]))
    else Targeted(bi, listOf, typeMap, c)
  }

  predicate EntryDone(bi: seq<BiNode>, lists: Lists, before: seq<nat>, listOf: seq<nat>, typeMap: map<NodeId, nat>, cs: seq<nat>)
    requires Pointed(bi, lists, before) && Pointed(bi, lists, listOf) && InRange(bi, cs)
  {
    forall k :: 0 <= k < |cs| ==> ChildDone(bi, lists, before, listOf, typeMap, cs[k])
  }

  /** Later assignments give a node the same target, so what is done stays done. */
  lemma EntryStaysDone(bi: seq<BiNode>, lists: Lists, before: seq<nat>, now: seq<nat>, after: seq<nat>, typeMap: map<NodeId, nat>,
                       cs: seq<nat>)
    requires Pointed(bi, lists, before) && Pointed(bi, lists, now) && Pointed(bi, lists, after) && InRange(bi, cs)
    requires Retargeted(bi, now, after, typeMap) && EntryDone(bi, lists, before, now, typeMap, cs)
    ensures EntryDone(bi, lists, before, after, typeMap, cs)
  {
    forall k | 0 <= k < |cs|
      ensures ChildDone(bi, lists, before, after, typeMap, cs[k])
    {
      assert ChildDone(bi, lists, before, now, typeMap, cs[k]);
    }
  }

  // ---------- what linking leaves alone ----------

  /** `x` is a child of some entry and no folder; or it is in a list that a folder child `c` of
      some entry had. */
  predicate Reachable(bi: seq<BiNode>, lists: Lists, before: seq<nat>, after: seq<nat>, typeMap: map<NodeId, nat>, x: nat, n: NodeId, c: nat)
    requires Pointed(bi, lists, before) && Pointed(bi, lists, after) && (forall n :: n in typeMap ==> typeMap[n] < |bi|) && x < |bi|
  {
    && n in typeMap && c < |bi| && c in lists[typeMap[n]]
    && if OfFolderType(bi[c]) then x in lists[before[c]] || x in lists[after[c]] else x == c
  }

  /** The pointers that may differ: each is now the one of the node's type. */
  ghost predicate Framed(bi: seq<BiNode>, lists: Lists, before: seq<nat>, after: seq<nat>, typeMap: map<NodeId, nat>)
    requires Pointed(bi, lists, before) && Pointed(bi, lists, after) && (forall n :: n in typeMap ==> typeMap[n] < |bi|)
  {
    && Retargeted(bi, before, after, typeMap)
    && forall x :: 0 <= x < |bi| && after[x] != before[x] ==> exists n, c :: Reachable(bi, lists, before, after, typeMap, x, n, c)
  }

  lemma StillReachable(bi: seq<BiNode>, lists: Lists, before: seq<nat>, now: seq<nat>, after: seq<nat>, typeMap: map<NodeId, nat>,
                       x: nat, n: NodeId, c: nat)
    requires Pointed(bi, lists, before) && Pointed(bi, lists, now) && Pointed(bi, lists, after)
    requires (forall n :: n in typeMap ==> typeMap[n] < |bi|) && x < |bi|
    requires Retargeted(bi, before, now, typeMap) && Retargeted(bi, now, after, typeMap)
    requires Reachable(bi, lists, before, now, typeMap, x, n, c)
    ensures Reachable(bi, lists, before, after, typeMap, x, n, c)
  {
  }

  /** One more pointer. */
  lemma FramedStep(bi: seq<BiNode>, lists: Lists, before: seq<nat>, now: seq<nat>, typeMap: map<NodeId, nat>, x: nat, n: NodeId, c: nat)
    requires Pointed(bi, lists, before) && Pointed(bi, lists, now) && (forall n :: n in typeMap ==> typeMap[n] < |bi|) && x < |bi|
    requires Framed(bi, lists, before, now, typeMap) && Reachable(bi, lists, before, now, typeMap, x, n, c)
    requires bi[x].typeId in typeMap
    ensures var after := now[x := typeMap[bi[x].typeId]];
            Pointed(bi, lists, after) && Framed(bi, lists, before, after, typeMap) && Retargeted(bi, now, after, typeMap)
  {
    var after := now[x := typeMap[bi[x].typeId]];
    StillReachable(bi, lists, before, now, after, typeMap, x, n, c);
    forall y | 0 <= y < |bi| && after[y] != before[y]
      ensures exists m, d :: Reachable(bi, lists, before, after, typeMap, y, m, d)
    {
      if y != x {
        var m, d :| Reachable(bi, lists, before, now, typeMap, y, m, d);
        StillReachable(bi, lists, before, now, after, typeMap, y, m, d);
      }
    }
  }

  /** A folder that is in no folder keeps its list, whatever was compiled. */
  lemma FolderKeepsItsList(bi: seq<BiNode>, lists: Lists, before: seq<nat>, after: seq<nat>, typeMap: map<NodeId, nat>, x: nat)
    requires Pointed(bi, lists, before) && Pointed(bi, lists, after) && (forall n :: n in typeMap ==> typeMap[n] < |bi|)
    requires Framed(bi, lists, before, after, typeMap) && x < |bi| && OfFolderType(bi[x])
    requires forall n, c :: n in typeMap && c in lists[typeMap[n]] && c < |bi| && OfFolderType(bi[c]) ==>
               x !in lists[before[c]] && x !in lists[after[c]]
    ensures after[x] == before[x]
  {
    forall n, c: nat
      ensures !Reachable(bi, lists, before, after, typeMap, x, n, c)
    {
    }
  }

  lemma DoneIsLinked(bi: seq<BiNode>, lists: Lists, before: seq<nat>, listOf: seq<nat>, typeMap: map<NodeId, nat>)
    requires Pointed(bi, lists, before) && Pointed(bi, lists, listOf) && Retargeted(bi, before, listOf, typeMap)
    requires forall n :: n in typeMap ==> typeMap[n] < |bi| && EntryDone(bi, lists, before, listOf, typeMap, lists[typeMap[n]])
    ensures Linked(bi, lists, listOf, typeMap)
  {
    forall n, i | n in typeMap && 0 <= i < |lists[typeMap[n]]|
      ensures var c := lists[typeMap[n]][i];
              && Targeted(bi, listOf, typeMap, c)
              && (OfFolderType(bi[c]) ==>
                    forall k :: 0 <= k < |lists[listOf[c]]| ==> Targeted(bi, listOf, typeMap, lists[listOf[c]][k]))
    {
      var c := lists[typeMap[n]][i];
      assert EntryDone(bi, lists, before, listOf, typeMap, lists[typeMap[n]]);
      assert ChildDone(bi, lists, before, listOf, typeMap, c);
      if OfFolderType(bi[c]) && listOf[c] != before[c] {
        EntryIsTargeted(bi, lists, before, listOf, typeMap, bi[c].typeId);
      }
    }
  }

  lemma EntryIsTargeted(bi: seq<BiNode>, lists: Lists, before: seq<nat>, listOf: seq<nat>, typeMap: map<NodeId, nat>, n: NodeId)
    requires Pointed(bi, lists, before) && Pointed(bi, lists, listOf) && n in typeMap && typeMap[n] < |bi|
    requires EntryDone(bi, lists, before, listOf, typeMap, lists[typeMap[n]])
    ensures forall k :: 0 <= k < |lists[typeMap[n]]| ==> Targeted(bi, listOf, typeMap, lists[typeMap[n]][k])
  {
    forall k | 0 <= k < |lists[typeMap[n]]|
      ensures Targeted(bi, listOf, typeMap, lists[typeMap[n]][k])
    {
      assert ChildDone(bi, lists, before, listOf, typeMap, lists[typeMap[n]][k]);
    }
  }

  /** Every child of an entry, and every child of a folder in an entry, whose own type was
      compiled and is no folder type, shares the list of the entry of its type. */
  predicate Linked(bi: seq<BiNode>, lists: Lists, listOf: seq<nat>, typeMap: map<NodeId, nat>)
    requires Stored(bi, lists) && |listOf| == |bi| && (forall i :: 0 <= i < |listOf| ==> listOf[i] < |bi|)
    requires forall n :: n in typeMap ==> typeMap[n] < |bi|
  {
    forall n, i :: n in typeMap && 0 <= i < |lists[typeMap[n]]| ==>
      var c := lists[typeMap[n]][i];
      && Targeted(bi, listOf, typeMap, c)
      && (OfFolderType(bi[c]) ==>
            forall k :: 0 <= k < |lists[listOf[c]]| ==> Targeted(bi, listOf, typeMap, lists[listOf[c]][k]))
  }

  function GraphNode(b: BiNode, children: seq<nat>): Instance.TypeNode {
    Instance.TypeNode(Instance.Def(b.nodeClass, b.rule, b.name), b.reference, b.typeId, children)
  }

  /** The type graph that instances are matched with: node `i` is structure node `i`, and node
      `|bi| + t` is the entry of type `t`, a copy of node `t` that shares list `t`. */
  function GraphOf(bi: seq<BiNode>, lists: Lists, listOf: seq<nat>, typeMap: map<NodeId, nat>): (g: Instance.TypeGraph)
    requires Stored(bi, lists) && |listOf| == |bi| && (forall i :: 0 <= i < |listOf| ==> listOf[i] < |bi|)
    requires forall n :: n in typeMap ==> typeMap[n] < |bi|
    ensures |g.nodes| == 2 * |bi|
  {
    Instance.TypeGraph(
      seq(|bi|, i requires 0 <= i < |bi| => GraphNode(bi[i], lists[listOf[i]])) +
      seq(|bi|, t requires 0 <= t < |bi| => GraphNode(bi[t], lists[t])),
      map n | n in typeMap :: |bi| + typeMap[n])
  }

  lemma GraphIsValid(bi: seq<BiNode>, lists: Lists, listOf: seq<nat>, typeMap: map<NodeId, nat>)
    requires Stored(bi, lists) && |listOf| == |bi| && (forall i :: 0 <= i < |listOf| ==> listOf[i] < |bi|)
    requires forall n :: n in typeMap ==> typeMap[n] < |bi|
    ensures GraphOf(bi, lists, listOf, typeMap).Valid()
  {
    var g := GraphOf(bi, lists, listOf, typeMap);
    forall t, i | 0 <= t < |g.nodes| && 0 <= i < |g.nodes[t].children|
      ensures g.nodes[t].children[i] < |g.nodes|
    {
      assert g.nodes[t].children == lists[if t < |bi| then listOf[t] else t - |bi|];
    }
  }

  lemma GraphChildren(bi: seq<BiNode>, lists: Lists, listOf: seq<nat>, typeMap: map<NodeId, nat>, i: nat)
    requires Stored(bi, lists) && |listOf| == |bi| && (forall i :: 0 <= i < |listOf| ==> listOf[i] < |bi|)
    requires (forall n :: n in typeMap ==> typeMap[n] < |bi|) && i < |bi|
    ensures var g := GraphOf(bi, lists, listOf, typeMap);
            g.nodes[i].children == lists[listOf[i]] && g.nodes[|bi| + i].children == lists[i]
  {
  }

  /** After linking, a child whose type was compiled has exactly the children of its type's
      entry; where a type has a child of its own type, that child is its own child. */
  lemma LinkedChildExpandsToItsType(bi: seq<BiNode>, lists: Lists, listOf: seq<nat>, typeMap: map<NodeId, nat>, n: NodeId, c: nat)
    requires Stored(bi, lists) && |listOf| == |bi| && (forall i :: 0 <= i < |listOf| ==> listOf[i] < |bi|)
    requires (forall n :: n in typeMap ==> typeMap[n] < |bi|) && Linked(bi, lists, listOf, typeMap)
    requires c < |bi| && n in typeMap && c in lists[typeMap[n]] && Known(bi, typeMap, c)
    ensures var nodes := GraphOf(bi, lists, listOf, typeMap).nodes;
            && c in nodes[|bi| + typeMap[n]].children
            && nodes[c].children == nodes[|bi| + typeMap[bi[c].typeId]].children
            && (bi[c].typeId == n ==> c in nodes[c].children)
  {
    var i :| 0 <= i < |lists[typeMap[n]]| && lists[typeMap[n]][i] == c;
    assert Targeted(bi, listOf, typeMap, c);
    GraphChildren(bi, lists, listOf, typeMap, c);
    GraphChildren(bi, lists, listOf, typeMap, typeMap[n]);
    GraphChildren(bi, lists, listOf, typeMap, typeMap[bi[c].typeId]);
  }

  /** The types among `keys` that belong to a namespace. */
  function OfNamespace(bi: seq<BiNode>, types: map<NodeId, nat>, keys: set<NodeId>, uri: string): set<NodeId>
    requires forall n :: n in types ==> types[n] < |bi|
  {
    set n | n in keys && n in types && bi[types[n]].namespaceUri == uri
  }

  lemma OneMoreOfNamespace(bi: seq<BiNode>, types: map<NodeId, nat>, rest: set<NodeId>, n: NodeId, uri: string)
    requires (forall n :: n in types ==> types[n] < |bi|) && n in rest && n in types
    ensures OfNamespace(bi, types, types.Keys - (rest - {n}), uri) ==
            OfNamespace(bi, types, types.Keys - rest, uri) + if bi[types[n]].namespaceUri == uri then {n} else {}
  {
  }

  lemma AddMissingNext(bi: seq<BiNode>, base: seq<nat>, more: seq<nat>, m: nat)
    requires InRange(bi, base) && InRange(bi, more) && m < |more|
    ensures var before := AddMissing(bi, base, more[..m]);
            AddMissing(bi, base, more[..m + 1]) ==
            if Find(bi, before, bi[more[m]].name) < |before| then before else before + [more[m]]
  {
    assert more[..m + 1][..m] == more[..m];
  }

  /** The types that belong to one of the namespaces. */
  function OfNamespaces(bi: seq<BiNode>, types: map<NodeId, nat>, uris: set<string>): set<NodeId>
    requires forall n :: n in types ==> types[n] < |bi|
  {
    set n | n in types && bi[types[n]].namespaceUri in uris
  }

  /** The namespaces in both lists. */
  function Both(namespaces: seq<string>, expected: seq<string>): set<string> {
    set uri | uri in namespaces && uri in expected
  }

  /** No namespace is in both lists more than once. */
  ghost predicate OnceInOne(namespaces: seq<string>, expected: seq<string>) {
    forall uri :: multiset(namespaces)[uri] <= 1 || multiset(expected)[uri] <= 1
  }

  /** The next namespace is still to be found, if it is expected and did not come before. */
  lemma OneMoreNamespace(namespaces: seq<string>, expected: seq<string>, i: nat)
    requires i < |namespaces| && OnceInOne(namespaces, expected)
    ensures var notFound, uri := multiset(expected) - multiset(namespaces[..i]), namespaces[i];
            var here := if uri in notFound then {uri} else {};
            && multiset(expected) - multiset(namespaces[..i + 1]) == notFound - multiset{uri}
            && Both(namespaces[..i + 1], expected) == Both(namespaces[..i], expected) + here
            && Both(namespaces[..i], expected) !! here
  {
    var uri := namespaces[i];
    assert namespaces[..i + 1] == namespaces[..i] + [uri];
    MetOnce(namespaces, expected, i);
    FoundOrNot(namespaces[..i], expected, uri);
  }

  lemma MetOnce(namespaces: seq<string>, expected: seq<string>, i: nat)
    requires i < |namespaces| && OnceInOne(namespaces, expected)
    ensures namespaces[i] in namespaces[..i] ==> multiset(expected)[namespaces[i]] <= 1
  {
    var uri := namespaces[i];
    assert namespaces == namespaces[..i] + [uri] + namespaces[i + 1..];
    assert multiset(namespaces)[uri] >= multiset(namespaces[..i])[uri] + 1;
  }

  lemma FoundOrNot(before: seq<string>, expected: seq<string>, uri: string)
    requires uri in before ==> multiset(expected)[uri] <= 1
    ensures uri in multiset(expected) - multiset(before) <==> uri in expected && uri !in before
  {
    assert uri in before <==> multiset(before)[uri] > 0;
    assert uri in expected <==> multiset(expected)[uri] > 0;
  }

  class TypeReader {
    const bi: seq<BiNode>
    /** The bidirectional type map: the node of every type. */
    const types: map<NodeId, nat>
    /** The lists, and which list each structure node points to. */
    var lists: Lists
    var listOf: seq<nat>
    /** The entries; the entry of a type shares the list of the type's own node. */
    var typeMap: map<NodeId, nat>

    ghost predicate Valid()
      reads this
    {
      && WellFormed(bi) && Pointers()
      && (forall n :: n in types ==> types[n] < |bi| && bi[types[n]].isType)
      && (forall m, n :: m in types && n in types && types[m] == types[n] ==> m == n)
      && (forall n :: n in typeMap ==> n in types && typeMap[n] == types[n])
    }

    /** Every pointer leads to a list, every list entry and every entry of the map to a node. */
    ghost predicate Pointers()
      reads this
    {
      && Stored(bi, lists) && |listOf| == |bi|
      && (forall i :: 0 <= i < |listOf| ==> listOf[i] < |bi|)
      && (forall n :: n in typeMap ==> typeMap[n] < |bi|)
    }

    /** The nodes whose types are in the type map. */
    ghost function Done(): set<nat>
      requires Valid()
      reads this
    {
      set n | n in typeMap :: types[n]
    }

    constructor (bi: seq<BiNode>, types: map<NodeId, nat>)
      requires WellFormed(bi) && (forall n :: n in types ==> types[n] < |bi| && bi[types[n]].isType)
      requires forall m, n :: m in types && n in types && types[m] == types[n] ==> m == n
      ensures Valid() && this.bi == bi && this.types == types && typeMap == map[] && Compiled(bi, lists, Done())
      ensures listOf == seq(|bi|, i => i)
    {
      this.bi, this.types := bi, types;
      lists := seq(|bi|, _ => []);
      listOf := seq(|bi|, i => i);
      typeMap := map[];
    }

    method ToStructureNode(i: nat)
      requires Valid() && i < |bi|
      modifies `lists
      ensures Valid() && lists == Converted(bi, old(lists), i)
      decreases |bi| - i, 1
    {
      ConvertedUpToAll(bi, lists, i);
      for k := 0 to |bi[i].children|
        invariant Valid() && lists == ConvertedUpTo(bi, old(lists), i, k)
      {
        AppendChild(i, k, old(lists));
      }
    }

    /** One child of node `i` is converted and appended to the node's list. */
    method AppendChild(i: nat, k: nat, ghost start: Lists)
      requires Valid() && i < |bi| && k < |bi[i].children|
      requires |start| == |bi| && lists == ConvertedUpTo(bi, start, i, k)
      modifies `lists
      ensures Valid() && lists == ConvertedUpTo(bi, start, i, k + 1)
      decreases |bi| - i, 0
    {
      assert NodeOk(bi, i);
      var c := bi[i].children[k];
      ConvertedUpToStep(bi, start, i, k);
      ToStructureNode(c);
      lists := lists[i := lists[i] + [c]];
    }

    method FindChild(list: seq<nat>, name: QualifiedName) returns (k: nat)
      requires InRange(bi, list)
      ensures k == Find(bi, list, name)
    {
      k := 0;
      while k < |list| && bi[list[k]].name != name
        invariant k <= |list|
        invariant Find(bi, list, name) == k + Find(bi, list[k..], name)
      {
        assert list[k..][1..] == list[k + 1..];
        k := k + 1;
      }
      assert k < |list| ==> list[k..][0] == list[k];
    }

    /** The list of node `f` gets node `x` unless it has its name. */
    method AddIfMissing(f: nat, x: nat)
      requires Valid() && f < |bi| && x < |bi|
      modifies `lists
      ensures Valid()
      ensures lists == if Find(bi, old(lists[f]), bi[x].name) < |old(lists[f])| then old(lists) else old(lists)[f := old(lists[f]) + [x]]
    {
      var k := FindChild(lists[f], bi[x].name);
      if k == |lists[f]| {
        lists := lists[f := lists[f] + [x]];
      }
    }

    /** The list of node `f` gets the names it lacks from the list of node `c`. */
    method AddMissingNames(f: nat, c: nat)
      requires Valid() && f < |bi| && c < |bi| && f != c
      modifies `lists
      ensures Valid() && lists == old(lists)[f := AddMissing(bi, old(lists[f]), old(lists[c]))]
    {
      var more := lists[c];
      for m := 0 to |more|
        invariant Valid() && lists == old(lists)[f := AddMissing(bi, old(lists[f]), more[..m])]
      {
        AddMissingNext(bi, old(lists[f]), more, m);
        AddIfMissing(f, more[m]);
      }
      assert more[..|more|] == more;
    }

    /** Merges the declared child `c` of an ancestor into the entry of type `t`. */
    method MergeOne(t: nat, c: nat)
      requires Valid() && t < |bi| && c < |bi| && bi[t].isType && !bi[c].isType
      requires forall i :: 0 <= i < |lists[t]| ==> lists[t][i] != c
      modifies `lists
      ensures Valid() && lists == MergeChild(bi, old(lists), t, c)
    {
      ConvertedGrows(bi, lists, t, c);
      ToStructureNode(c);
      var k := FindChild(lists[t], bi[c].name);
      if k < |lists[t]| {
        var entry, f := lists[t], lists[t][k];
        AddMissingNames(f, c);
        if bi[f].rule.IsOptional() {
          lists := lists[t := entry[..k] + entry[k + 1..] + [c]];
        } else {
          lists := lists[t := entry];
        }
      } else {
        lists := lists[t := lists[t] + [c]];
      }
      MergeChildStored(bi, old(lists), t, c);
    }

    method ReadBloodline(t: nat) returns (line: seq<nat>)
      requires Valid() && t < |bi|
      ensures line == Bloodline(bi, t)
    {
      line := [t];
      var current: nat := t;
      while bi[current].parent.Some?
        invariant current < |bi|
        invariant Bloodline(bi, t) == line + Bloodline(bi, current)[1..]
        decreases current
      {
        BloodlineStep(bi, line, current);
        current := bi[current].parent.value;
        line := line + [current];
      }
    }

    method MergeNext(t: nat, c: nat, ghost d: seq<nat>, ghost start: Lists)
      requires Valid() && t < |bi| && bi[t].isType && c < |bi| && InRange(bi, d)
      requires Stored(bi, start) && start[t] == [] && lists == Compile(bi, start, t, d)
      requires d + [c] <= Declarations(bi, t)
      modifies `lists
      ensures Valid() && lists == Compile(bi, start, t, d + [c])
    {
      assert (d + [c])[..|d|] == d;
      NextIsNew(bi, start, t, d, c);
      MergeOne(t, c);
    }

    /** Merges child `m` of an ancestor, unless it is a type. */
    method MergeDeclared(t: nat, cs: seq<nat>, m: nat, ghost above: seq<nat>, ghost start: Lists)
      requires Valid() && t < |bi| && bi[t].isType && InRange(bi, cs) && m < |cs| && InRange(bi, above)
      requires Stored(bi, start) && start[t] == [] && lists == Compile(bi, start, t, above + NonTypes(bi, cs[..m]))
      requires above + NonTypes(bi, cs) <= Declarations(bi, t)
      modifies `lists
      ensures Valid() && lists == Compile(bi, start, t, above + NonTypes(bi, cs[..m + 1]))
    {
      AncestorStep(bi, cs, above, Declarations(bi, t), m);
      if !bi[cs[m]].isType {
        MergeNext(t, cs[m], above + NonTypes(bi, cs[..m]), start);
      }
    }

    /** Merges the children that one ancestor declares, after those of `above`. */
    method MergeAncestor(t: nat, ancestor: nat, ghost above: seq<nat>, ghost start: Lists)
      requires Valid() && t < |bi| && bi[t].isType && ancestor < |bi| && InRange(bi, above)
      requires Stored(bi, start) && start[t] == [] && lists == Compile(bi, start, t, above)
      requires NodeOk(bi, ancestor) && above + NonTypes(bi, bi[ancestor].children) <= Declarations(bi, t)
      modifies `lists
      ensures Valid() && lists == Compile(bi, start, t, above + NonTypes(bi, bi[ancestor].children))
    {
      var cs := bi[ancestor].children;
      assert above + NonTypes(bi, cs[..0]) == above;
      for m := 0 to |cs|
        invariant Valid() && lists == Compile(bi, start, t, above + NonTypes(bi, cs[..m]))
      {
        MergeDeclared(t, cs, m, above, start);
      }
      assert cs[..|cs|] == cs;
    }

    /** Merges the declarations of the whole bloodline, from the root down. */
    method MergeBloodline(t: nat)
      requires Valid() && t < |bi| && bi[t].isType && lists[t] == []
      modifies `lists
      ensures Valid() && lists == Compile(bi, old(lists), t, Declarations(bi, t))
    {
      var line := ReadBloodline(t);
      for k := |line| downto 0
        invariant Valid() && lists == Compile(bi, old(lists), t, Declared(bi, line[k..]))
      {
        assert line[k..][0] == line[k] && line[k..][1..] == line[k + 1..];
        DeclaredSuffix(bi, line, k);
        MergeAncestor(t, line[k], Declared(bi, line[k + 1..]), old(lists));
      }
      assert line[0..] == line;
    }

    /** Compiles one type. */
    method SetupType(n: NodeId)
      requires Valid() && n in types && n !in typeMap && Compiled(bi, lists, Done())
      modifies `lists, `typeMap
      ensures Valid() && typeMap == old(typeMap)[n := types[n]]
      ensures Compiled(bi, lists, Done())
    {
      var t := types[n];
      CompileKeepsOthers(bi, lists, Done(), t);
      MergeBloodline(t);
      typeMap := typeMap[n := t];
      assert Done() == old(Done()) + {t};
    }

    /** Compiles the types of one namespace, in any order. */
    method SetupTypeMap(namespaceUri: string)
      requires Valid() && Compiled(bi, lists, Done())
      requires forall n :: n in typeMap ==> bi[types[n]].namespaceUri != namespaceUri
      modifies `lists, `typeMap
      ensures Valid() && Compiled(bi, lists, Done())
      ensures typeMap.Keys == old(typeMap.Keys) + set n | n in types && bi[types[n]].namespaceUri == namespaceUri
    {
      var rest := types.Keys;
      while rest != {}
        invariant Valid() && Compiled(bi, lists, Done())
        invariant rest <= types.Keys && typeMap.Keys == old(typeMap.Keys) + OfNamespace(bi, types, types.Keys - rest, namespaceUri)
        decreases rest
      {
        var n :| n in rest;
        SetupIfInNamespace(n, namespaceUri);
        OneMoreOfNamespace(bi, types, rest, n, namespaceUri);
        rest := rest - {n};
      }
    }

    method SetupIfInNamespace(n: NodeId, namespaceUri: string)
      requires Valid() && n in types && Compiled(bi, lists, Done())
      requires bi[types[n]].namespaceUri == namespaceUri ==> n !in typeMap
      modifies `lists, `typeMap
      ensures Valid() && Compiled(bi, lists, Done())
      ensures typeMap.Keys == old(typeMap.Keys) + if bi[types[n]].namespaceUri == namespaceUri then {n} else {}
    {
      if bi[types[n]].namespaceUri == namespaceUri {
        SetupType(n);
      }
    }

    /** `readTypes`: every expected namespace that the server has is compiled and taken off
        the list of those not found; then the entries are linked. Either list may name a
        namespace more than once. */
    method ReadTypes(namespaces: seq<string>, expected: seq<string>) returns (notFound: multiset<string>)
      requires Valid() && typeMap == map[] && Compiled(bi, lists, Done()) && OnceInOne(namespaces, expected)
      modifies this
      ensures Valid() && Compiled(bi, lists, Done())
      ensures typeMap.Keys == OfNamespaces(bi, types, Both(namespaces, expected))
      ensures Linked(bi, lists, listOf, typeMap)
      ensures notFound == multiset(expected) - multiset(namespaces)
    {
      notFound := multiset(expected);
      for i := 0 to |namespaces|
        invariant Valid() && Compiled(bi, lists, Done())
        invariant notFound == multiset(expected) - multiset(namespaces[..i])
        invariant typeMap.Keys == OfNamespaces(bi, types, Both(namespaces[..i], expected))
      {
        OneMoreNamespace(namespaces, expected, i);
        ReadIfExpected(namespaces[i], namespaces[i] in notFound, Both(namespaces[..i], expected));
        notFound := notFound - multiset{namespaces[i]};
      }
      assert namespaces[..|namespaces|] == namespaces;
      UpdateTypeMap();
    }

    method ReadIfExpected(uri: string, wanted: bool, ghost before: set<string>)
      requires Valid() && Compiled(bi, lists, Done()) && typeMap.Keys == OfNamespaces(bi, types, before)
      requires wanted ==> uri !in before
      modifies `lists, `typeMap
      ensures Valid() && Compiled(bi, lists, Done())
      ensures typeMap.Keys == OfNamespaces(bi, types, before + if wanted then {uri} else {})
    {
      if wanted {
        SetupTypeMap(uri);
      }
    }

    /** Points the children of every entry, and the children of their folders, to the list of
        the entry of their own type; the entries and their children may come in any order.
        Nothing else is changed; a folder keeps its list unless it is itself in a folder. */
    method UpdateTypeMap()
      requires Pointers()
      modifies `listOf
      ensures Pointers() && Linked(bi, lists, listOf, typeMap) && Framed(bi, lists, old(listOf), listOf, typeMap)
      ensures forall n :: n in typeMap ==> EntryDone(bi, lists, old(listOf), listOf, typeMap, lists[typeMap[n]])
    {
      ghost var start := listOf;
      var rest := typeMap.Keys;
      while rest != {}
        invariant Pointers() && rest <= typeMap.Keys && Framed(bi, lists, start, listOf, typeMap)
        invariant forall n :: n in typeMap.Keys - rest ==> EntryDone(bi, lists, start, listOf, typeMap, lists[typeMap[n]])
        decreases rest
      {
        var n :| n in rest;
        ghost var now := listOf;
        UpdateEntry(n, start);
        forall m | m in typeMap.Keys - rest
          ensures EntryDone(bi, lists, start, listOf, typeMap, lists[typeMap[m]])
        {
          EntryStaysDone(bi, lists, start, now, listOf, typeMap, lists[typeMap[m]]);
        }
        rest := rest - {n};
      }
      DoneIsLinked(bi, lists, start, listOf, typeMap);
    }

    method UpdateEntry(n: NodeId, ghost start: seq<nat>)
      requires Pointers() && n in typeMap && Pointed(bi, lists, start) && Framed(bi, lists, start, listOf, typeMap)
      modifies `listOf
      ensures Pointers() && Framed(bi, lists, start, listOf, typeMap) && Retargeted(bi, old(listOf), listOf, typeMap)
      ensures EntryDone(bi, lists, start, listOf, typeMap, lists[typeMap[n]])
    {
      var cs := lists[typeMap[n]];
      for i := 0 to |cs|
        invariant Pointers() && Framed(bi, lists, start, listOf, typeMap) && Retargeted(bi, old(listOf), listOf, typeMap)
        invariant EntryDone(bi, lists, start, listOf, typeMap, cs[..i])
      {
        ghost var now := listOf;
        UpdateChild(n, cs[i], start);
        EntryStaysDone(bi, lists, start, now, listOf, typeMap, cs[..i]);
        assert cs[..i + 1] == cs[..i] + [cs[i]];
      }
      assert cs[..|cs|] == cs;
    }

    method UpdateChild(ghost n: NodeId, c: nat, ghost start: seq<nat>)
      requires Pointers() && n in typeMap && c < |bi| && c in lists[typeMap[n]]
      requires Pointed(bi, lists, start) && Framed(bi, lists, start, listOf, typeMap)
      modifies `listOf
      ensures Pointers() && Framed(bi, lists, start, listOf, typeMap) && Retargeted(bi, old(listOf), listOf, typeMap)
      ensures ChildDone(bi, lists, start, listOf, typeMap, c)
    {
      FolderTypes(bi[c]);
      if IsFolder(bi[c].typeId) {
        UpdateFolder(n, c, start);
      } else if bi[c].typeId in typeMap {
        FramedStep(bi, lists, start, listOf, typeMap, c, n, c);
        listOf := listOf[c := typeMap[bi[c].typeId]];
      }
    }

    /** The children of a folder. */
    method UpdateFolder(ghost n: NodeId, c: nat, ghost start: seq<nat>)
      requires Pointers() && n in typeMap && c < |bi| && c in lists[typeMap[n]] && OfFolderType(bi[c])
      requires Pointed(bi, lists, start) && Framed(bi, lists, start, listOf, typeMap)
      modifies `listOf
      ensures Pointers() && Framed(bi, lists, start, listOf, typeMap) && Retargeted(bi, old(listOf), listOf, typeMap)
      ensures ChildDone(bi, lists, start, listOf, typeMap, c)
    {
      var inner := lists[listOf[c]];
      for k := 0 to |inner|
        invariant Pointers() && Framed(bi, lists, start, listOf, typeMap) && Retargeted(bi, old(listOf), listOf, typeMap)
        invariant Swept(bi, listOf, typeMap, inner[..k])
      {
        UpdateInner(n, c, inner[k], start);
        assert inner[..k + 1] == inner[..k] + [inner[k]];
      }
      assert inner[..|inner|] == inner;
    }

    method UpdateInner(ghost n: NodeId, ghost c: nat, x: nat, ghost start: seq<nat>)
      requires Pointers() && n in typeMap && c < |bi| && c in lists[typeMap[n]] && OfFolderType(bi[c]) && x < |bi|
      requires Pointed(bi, lists, start) && Framed(bi, lists, start, listOf, typeMap)
      requires x in lists[start[c]] || x in lists[listOf[c]]
      modifies `listOf
      ensures Pointers() && Framed(bi, lists, start, listOf, typeMap) && Retargeted(bi, old(listOf), listOf, typeMap)
      ensures listOf == if bi[x].typeId in typeMap then old(listOf)[x := typeMap[bi[x].typeId]] else old(listOf)
    {
      if bi[x].typeId in typeMap {
        FramedStep(bi, lists, start, listOf, typeMap, x, n, c);
        listOf := listOf[x := typeMap[bi[x].typeId]];
      }
    }
  }
}
