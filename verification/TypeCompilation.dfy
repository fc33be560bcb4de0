/** Compiling types: the child lists of the structure nodes form one shared, mutable store.
    Structure node `i` owns list `i`; the entry of a type shares the list of its own node, so
    that merging a bloodline into an entry changes that list in place. */
module TypeCompilation {
  import opened OpcUa

  /** A browsed node with its parent and children; `isType` marks the first node met for a
      type. `declared` children are those that are not types. */
  datatype BiNode = BiNode(nodeClass: NodeClass, name: QualifiedName, rule: ModellingRule, reference: NodeId,
                           typeId: NodeId, namespaceUri: string, isType: bool, parent: Option<nat>, children: seq<nat>)

  type Lists = seq<seq<nat>>

  predicate NoDuplicates(s: seq<nat>) {
    forall i, j :: 0 <= i < j < |s| ==> s[i] != s[j]
  }

  /** The finished result of browsing the types: a forest in browse order, in which types
      hang only under types. */
  predicate WellFormed(bi: seq<BiNode>) {
    forall i :: 0 <= i < |bi| ==> NodeOk(bi, i)
  }

  predicate NodeOk(bi: seq<BiNode>, i: nat)
    requires i < |bi|
  {
    && (bi[i].parent.Some? ==> bi[i].parent.value < i && i in bi[bi[i].parent.value].children)
    && InRange(bi, bi[i].children)
    && (forall k :: 0 <= k < |bi[i].children| ==> i < bi[i].children[k] < |bi| && bi[bi[i].children[k]].parent == Some(i))
    && NoDuplicates(bi[i].children)
    && (bi[i].isType && bi[i].parent.Some? ==> bi[bi[i].parent.value].isType)
  }

  // ---------- toStructureNode ----------

  /** Node `j` is `i` or one of its descendants. */
  predicate Within(bi: seq<BiNode>, j: nat, i: nat)
    requires WellFormed(bi) && j < |bi|
    decreases j
  {
    assert NodeOk(bi, j);
    j == i || (bi[j].parent.Some? && Within(bi, bi[j].parent.value, i))
  }

  /** One call of `toStructureNode` appends, to the list of every node below `i`, that node's
      children once more. */
  function Converted(bi: seq<BiNode>, lists: Lists, i: nat): (r: Lists)
    requires WellFormed(bi) && |lists| == |bi|
    ensures |r| == |lists|
  {
    seq(|bi|, j requires 0 <= j < |bi| => if Within(bi, j, i) then lists[j] + bi[j].children else lists[j])
  }

  lemma {:induction false} WithinIsLater(bi: seq<BiNode>, j: nat, i: nat)
    requires WellFormed(bi) && j < |bi| && Within(bi, j, i)
    ensures i <= j
    decreases j
  {
    assert NodeOk(bi, j);
    if j != i {
      WithinIsLater(bi, bi[j].parent.value, i);
    }
  }

  /** Below a node that is not a type there are no types. */
  lemma {:induction false} NoTypesBelow(bi: seq<BiNode>, j: nat, i: nat)
    requires WellFormed(bi) && j < |bi| && i < |bi| && Within(bi, j, i) && !bi[i].isType
    ensures !bi[j].isType
    decreases j
  {
    assert NodeOk(bi, j);
    if j != i {
      NoTypesBelow(bi, bi[j].parent.value, i);
    }
  }

  /** The subtrees of two children of one node are disjoint, and a proper descendant lies
      below exactly one child. */
  lemma {:induction false} WithinOneChild(bi: seq<BiNode>, j: nat, i: nat)
    requires WellFormed(bi) && j < |bi| && i < |bi|
    ensures Within(bi, j, i) <==> j == i || exists c :: c in bi[i].children && Within(bi, j, c)
    decreases j
  {
    assert NodeOk(bi, j) && NodeOk(bi, i);
    if j != i && bi[j].parent.Some? {
      var p := bi[j].parent.value;
      WithinOneChild(bi, p, i);
      if p == i {
        assert j in bi[i].children && Within(bi, j, j);
      }
      if c :| c in bi[i].children && Within(bi, p, c) {
        assert Within(bi, j, c);
      }
      if c :| c in bi[i].children && Within(bi, j, c) {
        if c != j {
          assert Within(bi, p, c);
        }
      }
    }
  }

  lemma {:induction false} SiblingsDisjoint(bi: seq<BiNode>, j: nat, i: nat, a: nat, b: nat)
    requires WellFormed(bi) && j < |bi| && i < |bi| && a in bi[i].children && b in bi[i].children
    requires Within(bi, j, a) && Within(bi, j, b)
    ensures a == b
    decreases j
  {
    assert NodeOk(bi, i) && NodeOk(bi, j);
    if j == a && j != b {
      WithinIsLater(bi, i, b);
    } else if j == b && j != a {
      WithinIsLater(bi, i, a);
    } else if j != a {
      SiblingsDisjoint(bi, bi[j].parent.value, i, a, b);
    }
  }

  // ---------- merging one declaration into an entry ----------

  /** The first entry with the name, or the length of the list. */
  function Find(bi: seq<BiNode>, list: seq<nat>, name: QualifiedName): (k: nat)
    requires InRange(bi, list)
    ensures k <= |list|
    ensures forall i :: 0 <= i < k ==> bi[list[i]].name != name
    ensures k < |list| ==> bi[list[k]].name == name
  {
    if list == [] then 0
    else if bi[list[0]].name == name then 0
    else 1 + Find(bi, list[1..], name)
  }

  predicate InRange(bi: seq<BiNode>, list: seq<nat>) {
    forall i :: 0 <= i < |list| ==> list[i] < |bi|
  }

  predicate HasName(bi: seq<BiNode>, list: seq<nat>, name: QualifiedName) {
    exists i :: 0 <= i < |list| && list[i] < |bi| && bi[list[i]].name == name
  }

  /** `base` with the entries of `more` whose names it lacks. */
  function AddMissing(bi: seq<BiNode>, base: seq<nat>, more: seq<nat>): (r: seq<nat>)
    requires InRange(bi, base) && InRange(bi, more)
    ensures InRange(bi, r) && base <= r
    decreases |more|
  {
    if more == [] then base
    else
      var r := AddMissing(bi, base, more[..|more| - 1]);
      var x := more[|more| - 1];
      if Find(bi, r, bi[x].name) < |r| then r else r + [x]
  }

  lemma {:induction false} AddMissingCovers(bi: seq<BiNode>, base: seq<nat>, more: seq<nat>)
    requires InRange(bi, base) && InRange(bi, more)
    ensures forall i :: 0 <= i < |more| ==> HasName(bi, AddMissing(bi, base, more), bi[more[i]].name)
    decreases |more|
  {
    if more != [] {
      var front, x := more[..|more| - 1], more[|more| - 1];
      AddMissingCovers(bi, base, front);
      var before, after := AddMissing(bi, base, front), AddMissing(bi, base, more);
      forall i | 0 <= i < |more|
        ensures HasName(bi, after, bi[more[i]].name)
      {
        if i < |front| {
          assert front[i] == more[i];
          HasNameGrows(bi, before, after, bi[more[i]].name);
        } else {
          var k := Find(bi, before, bi[x].name);
          if k == |before| {
            assert after[|before|] == x;
          }
        }
      }
    }
  }

  /** Entry `p` of `more` is the first of its name, which `base` lacks. */
  predicate IsNew(bi: seq<BiNode>, base: seq<nat>, more: seq<nat>, p: nat)
    requires InRange(bi, more) && p < |more|
  {
    !HasName(bi, base, bi[more[p]].name) && forall q :: 0 <= q < p ==> bi[more[q]].name != bi[more[p]].name
  }

  lemma {:induction false} AddMissingNames(bi: seq<BiNode>, base: seq<nat>, more: seq<nat>, name: QualifiedName)
    requires InRange(bi, base) && InRange(bi, more)
    ensures HasName(bi, AddMissing(bi, base, more), name) <==> HasName(bi, base, name) || HasName(bi, more, name)
    decreases |more|
  {
    if more != [] {
      var front, x := more[..|more| - 1], more[|more| - 1];
      var before, after := AddMissing(bi, base, front), AddMissing(bi, base, more);
      AddMissingNames(bi, base, front, name);
      if HasName(bi, before, name) {
        HasNameGrows(bi, before, after, name);
      }
      if i :| 0 <= i < |more| && bi[more[i]].name == name && i < |front| {
        assert front[i] == more[i];
      }
      if Find(bi, before, bi[x].name) == |before| {
        assert after[|before|] == x;
      }
      if HasName(bi, front, name) {
        var i :| 0 <= i < |front| && bi[front[i]].name == name;
        assert more[i] == front[i];
      }
    }
  }

  /** Exactly the new names are appended, in their order. */
  lemma AddMissingAppends(bi: seq<BiNode>, base: seq<nat>, more: seq<nat>, p: nat)
    requires InRange(bi, base) && InRange(bi, more) && p < |more|
    ensures AddMissing(bi, base, more[..p + 1]) ==
            AddMissing(bi, base, more[..p]) + if IsNew(bi, base, more, p) then [more[p]] else []
  {
    assert more[..p + 1][..p] == more[..p];
    var r, name := AddMissing(bi, base, more[..p]), bi[more[p]].name;
    AddMissingNames(bi, base, more[..p], name);
    if HasName(bi, more[..p], name) {
      var q :| 0 <= q < p && bi[more[..p][q]].name == name;
      assert bi[more[q]].name == name;
    }
    if q :| 0 <= q < p && bi[more[q]].name == name {
      assert more[..p][q] == more[q];
    }
    if Find(bi, r, name) < |r| {
      assert bi[r[Find(bi, r, name)]].name == name;
    }
  }

  lemma HasNameGrows(bi: seq<BiNode>, before: seq<nat>, after: seq<nat>, name: QualifiedName)
    requires before <= after && HasName(bi, before, name)
    ensures HasName(bi, after, name)
  {
    var i :| 0 <= i < |before| && before[i] < |bi| && bi[before[i]].name == name;
    assert after[i] == before[i];
  }

  /** The list of the entry after a declaration `c`: a new name is appended; an entry of the
      same name stays, unless it is optional and is replaced by `c` at the end. */
  function Merge(bi: seq<BiNode>, acc: seq<nat>, c: nat): (r: seq<nat>)
    requires InRange(bi, acc) && c < |bi|
    ensures InRange(bi, r)
  {
    var k := Find(bi, acc, bi[c].name);
    if k == |acc| then acc + [c]
    else if bi[acc[k]].rule.IsOptional() then acc[..k] + acc[k + 1..] + [c]
    else acc
  }

  function MergeAll(bi: seq<BiNode>, acc: seq<nat>, d: seq<nat>): (r: seq<nat>)
    requires InRange(bi, acc) && InRange(bi, d)
    ensures InRange(bi, r)
    decreases |d|
  {
    if d == [] then acc else Merge(bi, MergeAll(bi, acc, d[..|d| - 1]), d[|d| - 1])
  }

  // ---------- which declarations an entry keeps ----------

  /** Declaration `p` is the one its name keeps: the first that is not optional, or the last
      if all are optional. */
  predicate Wins(bi: seq<BiNode>, d: seq<nat>, p: nat)
    requires InRange(bi, d) && p < |d|
  {
    if MayYield(bi[d[p]]) then
      forall q :: 0 <= q < |d| && q != p && bi[d[q]].name == bi[d[p]].name ==> q < p && MayYield(bi[d[q]])
    else
      forall q :: 0 <= q < p && bi[d[q]].name == bi[d[p]].name ==> MayYield(bi[d[q]])
  }

  /** A declaration that a later one of its name replaces: Optional or OptionalPlaceholder. */
  predicate MayYield(b: BiNode) {
    b.rule == ModellingRule.Optional || b.rule == ModellingRule.OptionalPlaceholder
  }

  predicate UniqueNames(bi: seq<BiNode>, list: seq<nat>)
    requires InRange(bi, list)
  {
    forall i, j :: 0 <= i < j < |list| ==> bi[list[i]].name != bi[list[j]].name
  }

  lemma DistinctFront(d: seq<nat>)
    requires NoDuplicates(d) && d != []
    ensures NoDuplicates(d[..|d| - 1]) && d[|d| - 1] !in d[..|d| - 1]
  {
  }

  /** An entry holds one declaration per name, the one that wins. */
  lemma {:induction false} EntryKeepsWinners(bi: seq<BiNode>, d: seq<nat>)
    requires InRange(bi, d) && NoDuplicates(d)
    ensures Kept(bi, d, MergeAll(bi, [], d))
    decreases |d|
  {
    if d != [] {
      DistinctFront(d);
      EntryKeepsWinners(bi, d[..|d| - 1]);
      EntryKeepsNext(bi, d, MergeAll(bi, [], d[..|d| - 1]));
    }
  }

  lemma EntryKeepsNext(bi: seq<BiNode>, d: seq<nat>, acc: seq<nat>)
    requires InRange(bi, d) && NoDuplicates(d) && d != [] && InRange(bi, acc) && Kept(bi, d[..|d| - 1], acc)
    ensures Kept(bi, d, Merge(bi, acc, d[|d| - 1]))
  {
    var front, c := d[..|d| - 1], d[|d| - 1];
    DistinctFront(d);
    WinnersStep(bi, front, acc, c);
    KeptWith(bi, d, front, c, Merge(bi, acc, c));
  }

  lemma KeptWith(bi: seq<BiNode>, d: seq<nat>, front: seq<nat>, c: nat, r: seq<nat>)
    requires InRange(bi, d) && InRange(bi, r) && front + [c] == d && Kept(bi, front + [c], r)
    ensures Kept(bi, d, r)
  {
  }

  /** What `EntryKeepsWinners` says of a list of declarations and the entry they leave. */
  predicate Kept(bi: seq<BiNode>, d: seq<nat>, r: seq<nat>)
    requires InRange(bi, d) && InRange(bi, r)
  {
    && UniqueNames(bi, r)
    && (forall i :: 0 <= i < |r| ==> r[i] in d)
    && (forall p :: 0 <= p < |d| ==> (d[p] in r <==> Wins(bi, d, p)))
    && (forall p :: 0 <= p < |d| ==> HasName(bi, r, bi[d[p]].name))
  }

  /** The entries come in the order in which they were declared. */
  predicate InDeclarationOrder(d: seq<nat>, r: seq<nat>) {
    forall i, j, p, q :: 0 <= i < j < |r| && 0 <= p < |d| && 0 <= q < |d| && d[p] == r[i] && d[q] == r[j] ==> p < q
  }

  /** Whatever is kept stays in place, and what replaces an entry goes to the end; so an entry
      lists its winners in the order of their declarations. */
  lemma {:induction false} EntryInOrder(bi: seq<BiNode>, d: seq<nat>)
    requires InRange(bi, d) && NoDuplicates(d)
    ensures InDeclarationOrder(d, MergeAll(bi, [], d))
    decreases |d|
  {
    if d != [] {
      var front, c := d[..|d| - 1], d[|d| - 1];
      DistinctFront(d);
      EntryInOrder(bi, front);
      EntryIsDeclared(bi, front);
      MergedInOrder(bi, front, MergeAll(bi, [], front), c);
      OrderOfSame(d, front, c, Merge(bi, MergeAll(bi, [], front), c));
    }
  }

  lemma EntryIsDeclared(bi: seq<BiNode>, d: seq<nat>)
    requires InRange(bi, d) && NoDuplicates(d)
    ensures forall i :: 0 <= i < |MergeAll(bi, [], d)| ==> MergeAll(bi, [], d)[i] in d
  {
    EntryKeepsWinners(bi, d);
  }

  lemma OrderOfSame(d: seq<nat>, front: seq<nat>, c: nat, r: seq<nat>)
    requires d == front + [c] && InDeclarationOrder(front + [c], r)
    ensures InDeclarationOrder(d, r)
  {
  }

  lemma MergedInOrder(bi: seq<BiNode>, d: seq<nat>, acc: seq<nat>, c: nat)
    requires InRange(bi, acc) && c < |bi| && c !in d
    requires InDeclarationOrder(d, acc) && forall i :: 0 <= i < |acc| ==> acc[i] in d
    ensures InDeclarationOrder(d + [c], Merge(bi, acc, c))
  {
    var k := Find(bi, acc, bi[c].name);
    if k == |acc| {
      AppendedInOrder(d, acc, c);
    } else if bi[acc[k]].rule.IsOptional() {
      IsReplaced(acc, k, c);
      ReplacedInOrder(d, acc, k, c, Merge(bi, acc, c));
    } else {
      MoreDeclared(d, acc, c);
    }
  }

  lemma MoreDeclared(d: seq<nat>, acc: seq<nat>, c: nat)
    requires InDeclarationOrder(d, acc) && (forall i :: 0 <= i < |acc| ==> acc[i] in d) && c !in d
    ensures InDeclarationOrder(d + [c], acc)
  {
    assert forall i :: 0 <= i < |acc| ==> acc[i] != c;
  }

  lemma LastOnly(d: seq<nat>, c: nat, q: nat)
    requires c !in d && q <= |d| && (d + [c])[q] == c
    ensures q == |d|
  {
  }

  lemma AppendedInOrder(d: seq<nat>, acc: seq<nat>, c: nat)
    requires InDeclarationOrder(d, acc) && (forall i :: 0 <= i < |acc| ==> acc[i] in d) && c !in d
    ensures InDeclarationOrder(d + [c], acc + [c])
  {
    var d', r := d + [c], acc + [c];
    forall i, j, p, q | 0 <= i < j < |r| && 0 <= p < |d'| && 0 <= q < |d'| && d'[p] == r[i] && d'[q] == r[j]
      ensures p < q
    {
      assert acc[i] in d && acc[i] != c && p < |d|;
      if j < |acc| {
        assert acc[j] in d && acc[j] != c;
      } else {
        LastOnly(d, c, q);
      }
    }
  }

  lemma ReplacedInOrder(d: seq<nat>, acc: seq<nat>, k: nat, c: nat, r: seq<nat>)
    requires InDeclarationOrder(d, acc) && (forall i :: 0 <= i < |acc| ==> acc[i] in d) && c !in d
    requires k < |acc| && Replaced(acc, k, c, r)
    ensures InDeclarationOrder(d + [c], r)
  {
    var rest := acc[..k] + acc[k + 1..];
    assert forall i :: 0 <= i < |rest| ==> rest[i] == acc[if i < k then i else i + 1];
    forall i, j, p, q | 0 <= i < j < |rest| && 0 <= p < |d| && 0 <= q < |d| && d[p] == rest[i] && d[q] == rest[j]
      ensures p < q
    {
      var i', j' := if i < k then i else i + 1, if j < k then j else j + 1;
      assert acc[i'] == rest[i] && acc[j'] == rest[j];
    }
    assert r == rest + [c];
    AppendedInOrder(d, rest, c);
  }

  lemma WinnerStep(bi: seq<BiNode>, d: seq<nat>, acc: seq<nat>, c: nat, p: nat)
    requires InRange(bi, d) && InRange(bi, acc) && c < |bi| && c !in d && NoDuplicates(d) && Kept(bi, d, acc) && p <= |d|
    ensures (d + [c])[p] in Merge(bi, acc, c) <==> Wins(bi, d + [c], p)
  {
    assert c !in acc;
    MergeMembers(bi, acc, c);
    WinsAfter(bi, d, c, p);
    if p == |d| {
      NewcomerWins(bi, d, acc, c);
    } else {
      assert (d + [c])[p] == d[p];
      assert d[p] in acc <==> Wins(bi, d, p);
    }
  }

  lemma WinnersStep(bi: seq<BiNode>, d: seq<nat>, acc: seq<nat>, c: nat)
    requires InRange(bi, d) && InRange(bi, acc) && c < |bi| && c !in d && NoDuplicates(d) && Kept(bi, d, acc)
    ensures Kept(bi, d + [c], Merge(bi, acc, c))
  {
    var d', r := d + [c], Merge(bi, acc, c);
    MergedEntries(bi, d, acc, c);
    forall p | 0 <= p < |d'|
      ensures d'[p] in r <==> Wins(bi, d', p)
    {
      WinnerStep(bi, d, acc, c, p);
    }
    forall p | 0 <= p < |d'|
      ensures HasName(bi, r, bi[d'[p]].name)
    {
      NameStays(bi, d, acc, c, p);
    }
  }

  lemma MergedEntries(bi: seq<BiNode>, d: seq<nat>, acc: seq<nat>, c: nat)
    requires InRange(bi, d) && InRange(bi, acc) && c < |bi| && c !in d && Kept(bi, d, acc)
    ensures var r := Merge(bi, acc, c); UniqueNames(bi, r) && forall i :: 0 <= i < |r| ==> r[i] in d + [c]
  {
    MergedDeclared(bi, d, acc, c);
    MergeNames(bi, acc, c);
  }

  lemma MergedDeclared(bi: seq<BiNode>, d: seq<nat>, acc: seq<nat>, c: nat)
    requires InRange(bi, acc) && c < |bi| && forall i :: 0 <= i < |acc| ==> acc[i] in d
    ensures var r := Merge(bi, acc, c); forall i :: 0 <= i < |r| ==> r[i] in d + [c]
  {
    var r, k := Merge(bi, acc, c), Find(bi, acc, bi[c].name);
    forall i | 0 <= i < |r|
      ensures r[i] in d + [c]
    {
      if r[i] != c {
        assert r[i] == acc[if k < |acc| && k <= i && r != acc then i + 1 else i];
      }
    }
  }

  lemma NameStays(bi: seq<BiNode>, d: seq<nat>, acc: seq<nat>, c: nat, p: nat)
    requires InRange(bi, d) && InRange(bi, acc) && c < |bi| && Kept(bi, d, acc) && p <= |d|
    ensures HasName(bi, Merge(bi, acc, c), bi[(d + [c])[p]].name)
  {
    MergeNames(bi, acc, c);
    if p < |d| {
      assert HasName(bi, acc, bi[d[p]].name);
    }
  }

  /** `r` is `acc` with entry `k` taken out and `c` put at the end. */
  predicate Replaced(acc: seq<nat>, k: nat, c: nat, r: seq<nat>)
    requires k < |acc|
  {
    && |r| == |acc| && r[|acc| - 1] == c
    && (forall j :: 0 <= j < k ==> r[j] == acc[j])
    && (forall j :: k < j < |acc| ==> r[j - 1] == acc[j])
  }

  lemma IsReplaced(acc: seq<nat>, k: nat, c: nat)
    requires k < |acc|
    ensures Replaced(acc, k, c, acc[..k] + acc[k + 1..] + [c])
  {
  }

  lemma ReplacedUnique(bi: seq<BiNode>, acc: seq<nat>, k: nat, c: nat, r: seq<nat>)
    requires InRange(bi, acc) && InRange(bi, r) && c < |bi| && UniqueNames(bi, acc)
    requires k < |acc| && bi[acc[k]].name == bi[c].name && Replaced(acc, k, c, r)
    ensures UniqueNames(bi, r)
  {
    forall i, j | 0 <= i < j < |r|
      ensures bi[r[i]].name != bi[r[j]].name
    {
      var i' := if i < k then i else i + 1;
      assert r[i] == acc[i'];
      var j' := if j == |acc| - 1 then k else if j < k then j else j + 1;
      assert bi[r[j]].name == bi[acc[j']].name && i' != j';
    }
  }

  lemma ReplacedElements(bi: seq<BiNode>, acc: seq<nat>, k: nat, c: nat, r: seq<nat>)
    requires InRange(bi, acc) && c < |bi| && c !in acc && UniqueNames(bi, acc)
    requires k < |acc| && bi[acc[k]].name == bi[c].name && Replaced(acc, k, c, r)
    ensures forall x :: x in r <==> x == c || (x in acc && x != acc[k])
  {
    forall x | x in acc && x != acc[k]
      ensures x in r
    {
      var j :| 0 <= j < |acc| && acc[j] == x;
      assert r[if j < k then j else j - 1] == x;
    }
    forall x | x in r && x != c
      ensures x in acc && x != acc[k]
    {
      var j :| 0 <= j < |r| && r[j] == x;
      assert x == acc[if j < k then j else j + 1];
    }
  }

  lemma ReplacedNames(bi: seq<BiNode>, acc: seq<nat>, k: nat, c: nat, r: seq<nat>)
    requires InRange(bi, acc) && c < |bi|
    requires k < |acc| && bi[acc[k]].name == bi[c].name && Replaced(acc, k, c, r)
    ensures forall name :: HasName(bi, acc, name) ==> HasName(bi, r, name)
    ensures HasName(bi, r, bi[c].name)
  {
    forall name | HasName(bi, acc, name)
      ensures HasName(bi, r, name)
    {
      var j :| 0 <= j < |acc| && bi[acc[j]].name == name;
      assert bi[r[if j < k then j else if j == k then |acc| - 1 else j - 1]].name == name;
    }
  }

  lemma AppendedNames(bi: seq<BiNode>, acc: seq<nat>, c: nat)
    requires InRange(bi, acc) && c < |bi| && UniqueNames(bi, acc)
    requires forall i :: 0 <= i < |acc| ==> bi[acc[i]].name != bi[c].name
    ensures UniqueNames(bi, acc + [c])
    ensures forall name :: HasName(bi, acc, name) ==> HasName(bi, acc + [c], name)
    ensures HasName(bi, acc + [c], bi[c].name)
  {
    assert (acc + [c])[|acc|] == c;
    forall name | HasName(bi, acc, name)
      ensures HasName(bi, acc + [c], name)
    {
      HasNameGrows(bi, acc, acc + [c], name);
    }
  }

  /** The members of the merged list `r`, by name. */
  predicate MembersAre(bi: seq<BiNode>, acc: seq<nat>, c: nat, r: seq<nat>)
    requires InRange(bi, acc) && c < |bi|
  {
    && (forall x :: x in r ==> x in acc || x == c)
    && (forall x :: x in acc && x < |bi| ==> (x in r <==> bi[x].name != bi[c].name || !bi[x].rule.IsOptional()))
  }

  lemma MergeMembers(bi: seq<BiNode>, acc: seq<nat>, c: nat)
    requires InRange(bi, acc) && c < |bi| && c !in acc && UniqueNames(bi, acc)
    ensures var k := Find(bi, acc, bi[c].name); c in Merge(bi, acc, c) <==> k == |acc| || bi[acc[k]].rule.IsOptional()
    ensures MembersAre(bi, acc, c, Merge(bi, acc, c))
  {
    var k := Find(bi, acc, bi[c].name);
    if k == |acc| {
      AppendedMembers(bi, acc, c);
    } else if bi[acc[k]].rule.IsOptional() {
      ReplacedMembers(bi, acc, k, c);
    } else {
      KeptMembers(bi, acc, k, c);
    }
  }

  lemma AppendedMembers(bi: seq<BiNode>, acc: seq<nat>, c: nat)
    requires InRange(bi, acc) && c < |bi| && forall i :: 0 <= i < |acc| ==> bi[acc[i]].name != bi[c].name
    ensures c in acc + [c] && MembersAre(bi, acc, c, acc + [c])
  {
    assert (acc + [c])[|acc|] == c;
  }

  lemma KeptMembers(bi: seq<BiNode>, acc: seq<nat>, k: nat, c: nat)
    requires InRange(bi, acc) && c < |bi| && UniqueNames(bi, acc)
    requires k < |acc| && bi[acc[k]].name == bi[c].name && !bi[acc[k]].rule.IsOptional()
    ensures MembersAre(bi, acc, c, acc)
  {
    OnlyOne(bi, acc, k);
  }

  lemma ReplacedMembers(bi: seq<BiNode>, acc: seq<nat>, k: nat, c: nat)
    requires InRange(bi, acc) && c < |bi| && c !in acc && UniqueNames(bi, acc)
    requires k < |acc| && bi[acc[k]].name == bi[c].name && bi[acc[k]].rule.IsOptional()
    ensures var r := acc[..k] + acc[k + 1..] + [c]; c in r && MembersAre(bi, acc, c, r)
  {
    var r := acc[..k] + acc[k + 1..] + [c];
    IsReplaced(acc, k, c);
    ReplacedElements(bi, acc, k, c, r);
    OnlyOne(bi, acc, k);
  }

  lemma OnlyOne(bi: seq<BiNode>, acc: seq<nat>, k: nat)
    requires InRange(bi, acc) && UniqueNames(bi, acc) && k < |acc|
    ensures forall x :: x in acc && x < |bi| && bi[x].name == bi[acc[k]].name ==> x == acc[k]
  {
  }

  lemma MergeNames(bi: seq<BiNode>, acc: seq<nat>, c: nat)
    requires InRange(bi, acc) && c < |bi| && UniqueNames(bi, acc)
    ensures var r := Merge(bi, acc, c);
            && UniqueNames(bi, r)
            && (forall name :: HasName(bi, acc, name) ==> HasName(bi, r, name))
            && HasName(bi, r, bi[c].name)
  {
    var r, k := Merge(bi, acc, c), Find(bi, acc, bi[c].name);
    if k == |acc| {
      AppendedNames(bi, acc, c);
    } else if bi[acc[k]].rule.IsOptional() {
      IsReplaced(acc, k, c);
      ReplacedUnique(bi, acc, k, c, r);
      ReplacedNames(bi, acc, k, c, r);
    } else {
      assert bi[acc[k]].name == bi[c].name;
    }
  }

  lemma NewcomerWins(bi: seq<BiNode>, d: seq<nat>, acc: seq<nat>, c: nat)
    requires InRange(bi, d) && InRange(bi, acc) && c < |bi| && NoDuplicates(d) && Kept(bi, d, acc)
    ensures var k := Find(bi, acc, bi[c].name);
            (k == |acc| || bi[acc[k]].rule.IsOptional()) <==>
            forall q :: 0 <= q < |d| && bi[d[q]].name == bi[c].name ==> bi[d[q]].rule.IsOptional()
  {
    var k := Find(bi, acc, bi[c].name);
    if k < |acc| {
      assert acc[k] in d;
      var p :| 0 <= p < |d| && d[p] == acc[k];
      assert Wins(bi, d, p);
    }
  }

  /** How a further declaration `c` changes who wins. */
  lemma WinsAfter(bi: seq<BiNode>, d: seq<nat>, c: nat, p: nat)
    requires InRange(bi, d) && c < |bi| && p <= |d|
    ensures p < |d| ==>
      (Wins(bi, d + [c], p) <==> Wins(bi, d, p) && (bi[d[p]].name != bi[c].name || !bi[d[p]].rule.IsOptional()))
    ensures p == |d| ==>
      (Wins(bi, d + [c], p) <==> forall q :: 0 <= q < |d| && bi[d[q]].name == bi[c].name ==> bi[d[q]].rule.IsOptional())
  {
    var d' := d + [c];
    assert d'[|d|] == c && forall q :: 0 <= q < |d| ==> d'[q] == d[q];
  }

  // ---------- the declarations of a type ----------

  function NonTypes(bi: seq<BiNode>, cs: seq<nat>): (r: seq<nat>)
    requires InRange(bi, cs)
    ensures InRange(bi, r)
  {
    if cs == [] then []
    else
      var front, last := cs[..|cs| - 1], cs[|cs| - 1];
      if bi[last].isType then NonTypes(bi, front) else NonTypes(bi, front) + [last]
  }

  /** The type and its ancestors, the type first. */
  function Bloodline(bi: seq<BiNode>, t: nat): (r: seq<nat>)
    requires WellFormed(bi) && t < |bi|
    ensures InRange(bi, r) && r != [] && r[0] == t
    decreases t
  {
    assert NodeOk(bi, t);
    [t] + if bi[t].parent.Some? then Bloodline(bi, bi[t].parent.value) else []
  }

  /** The declared children along a bloodline, root first. */
  function Declared(bi: seq<BiNode>, line: seq<nat>): (r: seq<nat>)
    requires WellFormed(bi) && InRange(bi, line)
    ensures InRange(bi, r)
  {
    if line == [] then [] else assert NodeOk(bi, line[0]); Declared(bi, line[1..]) + NonTypes(bi, bi[line[0]].children)
  }

  function Declarations(bi: seq<BiNode>, t: nat): (r: seq<nat>)
    requires WellFormed(bi) && t < |bi|
    ensures InRange(bi, r)
  {
    Declared(bi, Bloodline(bi, t))
  }

  lemma {:induction false} NonTypesAre(bi: seq<BiNode>, cs: seq<nat>)
    requires InRange(bi, cs)
    ensures forall x :: x in NonTypes(bi, cs) <==> x in cs && x < |bi| && !bi[x].isType
    ensures NoDuplicates(cs) ==> NoDuplicates(NonTypes(bi, cs))
    decreases |cs|
  {
    if cs != [] {
      var front, last := cs[..|cs| - 1], cs[|cs| - 1];
      NonTypesAre(bi, front);
      assert cs == front + [last];
      if NoDuplicates(cs) {
        assert NoDuplicates(front);
        assert last !in front;
      }
    }
  }

  /** The declarations of a bloodline are distinct nodes, none of them a type. */
  lemma {:induction false} DeclarationsDistinct(bi: seq<BiNode>, t: nat)
    requires WellFormed(bi) && t < |bi|
    ensures NoDuplicates(Declarations(bi, t))
    ensures forall x :: x in Declarations(bi, t) ==> x < |bi| && !bi[x].isType && bi[x].parent.Some? && bi[x].parent.value <= t
    decreases t
  {
    assert NodeOk(bi, t);
    var own := NonTypes(bi, bi[t].children);
    NonTypesAre(bi, bi[t].children);
    forall x | x in own
      ensures x < |bi| && !bi[x].isType && bi[x].parent == Some(t)
    {
      var k :| 0 <= k < |bi[t].children| && bi[t].children[k] == x;
    }
    if bi[t].parent.Some? {
      var up := Declarations(bi, bi[t].parent.value);
      DeclarationsDistinct(bi, bi[t].parent.value);
      assert Bloodline(bi, t)[1..] == Bloodline(bi, bi[t].parent.value);
      assert Declarations(bi, t) == up + own;
      forall i, j | 0 <= i < |up| && 0 <= j < |own|
        ensures up[i] != own[j]
      {
        assert up[i] in up && own[j] in own;
      }
    } else {
      assert Bloodline(bi, t)[1..] == [];
      assert Bloodline(bi, t) == [t] && Declared(bi, []) == [];
      assert Declarations(bi, t) == [] + own;
      assert [] + own == own;
    }
  }

  lemma DeclarationsUnfold(bi: seq<BiNode>, t: nat)
    requires WellFormed(bi) && t < |bi| && InRange(bi, bi[t].children)
    requires bi[t].parent.Some? ==> bi[t].parent.value < t
    ensures Declarations(bi, t) ==
            (if bi[t].parent.Some? then Declarations(bi, bi[t].parent.value) else []) + NonTypes(bi, bi[t].children)
  {
    if bi[t].parent.Some? {
      assert Bloodline(bi, t)[1..] == Bloodline(bi, bi[t].parent.value);
    } else {
      assert Bloodline(bi, t)[1..] == [];
      assert Bloodline(bi, t) == [t] && Declared(bi, []) == [];
    }
  }

  lemma OwnDeclarations(bi: seq<BiNode>, t: nat, x: nat)
    requires WellFormed(bi) && t < |bi|
    ensures NodeOk(bi, t) && InRange(bi, bi[t].children)
    ensures x in NonTypes(bi, bi[t].children) <==> x < |bi| && !bi[x].isType && bi[x].parent == Some(t)
  {
    assert NodeOk(bi, t);
    NonTypesAre(bi, bi[t].children);
    if x < |bi| {
      assert NodeOk(bi, x);
    }
    if x in bi[t].children {
      var k :| 0 <= k < |bi[t].children| && bi[t].children[k] == x;
    }
  }

  /** The declarations of a type are exactly the nodes below it or one of its ancestors that
      are no types. */
  lemma {:induction false} DeclarationsAre(bi: seq<BiNode>, t: nat, x: nat)
    requires WellFormed(bi) && t < |bi|
    ensures x in Declarations(bi, t) <==>
            x < |bi| && !bi[x].isType && bi[x].parent.Some? && bi[x].parent.value < |bi| && Within(bi, t, bi[x].parent.value)
    decreases t
  {
    assert NodeOk(bi, t);
    OwnDeclarations(bi, t, x);
    DeclarationsUnfold(bi, t);
    if bi[t].parent.Some? {
      DeclarationsAre(bi, bi[t].parent.value, x);
    }
    if x < |bi| {
      assert NodeOk(bi, x);
    }
  }

  /** They come from the root down, and below one node in its order of children. */
  predicate RootFirst(bi: seq<BiNode>, d: seq<nat>)
    requires InRange(bi, d)
  {
    forall i, j :: 0 <= i < j < |d| && bi[d[i]].parent.Some? && bi[d[j]].parent.Some? && bi[d[j]].parent.value < |bi| ==>
      || bi[d[i]].parent.value < bi[d[j]].parent.value
      || (bi[d[i]].parent == bi[d[j]].parent && Earlier(bi[bi[d[j]].parent.value].children, d[i], d[j]))
  }

  predicate Earlier(cs: seq<nat>, x: nat, y: nat) {
    exists k, l :: 0 <= k < l < |cs| && cs[k] == x && cs[l] == y
  }

  lemma {:induction false} NonTypesInOrder(bi: seq<BiNode>, cs: seq<nat>)
    requires InRange(bi, cs)
    ensures forall i, j :: 0 <= i < j < |NonTypes(bi, cs)| ==> Earlier(cs, NonTypes(bi, cs)[i], NonTypes(bi, cs)[j])
    decreases |cs|
  {
    if cs != [] {
      var front, last := cs[..|cs| - 1], cs[|cs| - 1];
      NonTypesInOrder(bi, front);
      NonTypesAre(bi, front);
      var r := NonTypes(bi, cs);
      forall i, j | 0 <= i < j < |r|
        ensures Earlier(cs, r[i], r[j])
      {
        if j < |NonTypes(bi, front)| {
          var k, l :| 0 <= k < l < |front| && front[k] == r[i] && front[l] == r[j];
          assert cs[k] == r[i] && cs[l] == r[j];
        } else {
          assert r[i] in front;
          var k :| 0 <= k < |front| && front[k] == r[i];
          assert cs[k] == r[i] && cs[|front|] == r[j];
        }
      }
    }
  }

  lemma {:induction false} DeclarationsRootFirst(bi: seq<BiNode>, t: nat)
    requires WellFormed(bi) && t < |bi|
    ensures RootFirst(bi, Declarations(bi, t))
    decreases t
  {
    assert NodeOk(bi, t);
    DeclarationsUnfold(bi, t);
    OwnInOrder(bi, t);
    if bi[t].parent.Some? {
      DeclarationsRootFirst(bi, bi[t].parent.value);
      AncestorsFirst(bi, t, bi[t].parent.value);
      RootFirstSum(bi, t, Declarations(bi, bi[t].parent.value), NonTypes(bi, bi[t].children));
    } else {
      RootFirstSum(bi, t, [], NonTypes(bi, bi[t].children));
    }
  }

  lemma OwnInOrder(bi: seq<BiNode>, t: nat)
    requires WellFormed(bi) && t < |bi| && InRange(bi, bi[t].children)
    ensures var own := NonTypes(bi, bi[t].children);
            && (forall i :: 0 <= i < |own| ==> bi[own[i]].parent == Some(t))
            && forall i, j :: 0 <= i < j < |own| ==> Earlier(bi[t].children, own[i], own[j])
  {
    var own := NonTypes(bi, bi[t].children);
    NonTypesInOrder(bi, bi[t].children);
    forall i | 0 <= i < |own|
      ensures bi[own[i]].parent == Some(t)
    {
      OwnDeclarations(bi, t, own[i]);
    }
  }

  lemma AncestorsFirst(bi: seq<BiNode>, t: nat, p: nat)
    requires WellFormed(bi) && p < t < |bi|
    ensures var up := Declarations(bi, p); forall i :: 0 <= i < |up| ==> bi[up[i]].parent.Some? && bi[up[i]].parent.value < t
  {
    DeclarationsDistinct(bi, p);
    var up := Declarations(bi, p);
    assert forall i :: 0 <= i < |up| ==> up[i] in up;
  }

  lemma RootFirstSum(bi: seq<BiNode>, t: nat, up: seq<nat>, own: seq<nat>)
    requires t < |bi| && InRange(bi, up) && InRange(bi, own) && RootFirst(bi, up)
    requires forall i :: 0 <= i < |up| ==> bi[up[i]].parent.Some? && bi[up[i]].parent.value < t
    requires forall i :: 0 <= i < |own| ==> bi[own[i]].parent == Some(t)
    requires forall i, j :: 0 <= i < j < |own| ==> Earlier(bi[t].children, own[i], own[j])
    ensures InRange(bi, up + own) && RootFirst(bi, up + own)
  {
    var d := up + own;
    forall i, j | 0 <= i < j < |d| && bi[d[i]].parent.Some? && bi[d[j]].parent.Some? && bi[d[j]].parent.value < |bi|
      ensures || bi[d[i]].parent.value < bi[d[j]].parent.value
              || (bi[d[i]].parent == bi[d[j]].parent && Earlier(bi[bi[d[j]].parent.value].children, d[i], d[j]))
    {
      if j < |up| {
        assert d[i] == up[i] && d[j] == up[j];
      } else if i < |up| {
        assert d[i] == up[i] && d[j] == own[j - |up|];
      } else {
        assert d[i] == own[i - |up|] && d[j] == own[j - |up|];
      }
    }
  }

  // ---------- merging, on the whole store ----------

  /** The list of the entry found under the name of `c` gets the names it lacks from `c`'s list. */
  function Absorb(bi: seq<BiNode>, lists: Lists, t: nat, c: nat): (r: Lists)
    requires WellFormed(bi) && Stored(bi, lists) && t < |bi| && c < |bi|
    ensures |r| == |bi|
  {
    var k := Find(bi, lists[t], bi[c].name);
    if k < |lists[t]| then lists[lists[t][k] := AddMissing(bi, lists[lists[t][k]], lists[c])] else lists
  }

  /** One round of the inner loop of `setupTypeMap`: child `c` of an ancestor of type `t`. */
  function MergeChild(bi: seq<BiNode>, lists: Lists, t: nat, c: nat): (r: Lists)
    requires WellFormed(bi) && Stored(bi, lists) && t < |bi| && c < |bi|
    ensures |r| == |bi|
  {
    ConvertedStored(bi, lists, c);
    var converted := Converted(bi, lists, c);
    Absorb(bi, converted, t, c)[t := Merge(bi, converted[t], c)]
  }

  /** One list per node, all entries nodes. */
  predicate Stored(bi: seq<BiNode>, lists: Lists) {
    |lists| == |bi| && forall j :: 0 <= j < |lists| ==> InRange(bi, lists[j])
  }

  lemma ConvertedStored(bi: seq<BiNode>, lists: Lists, i: nat)
    requires WellFormed(bi) && Stored(bi, lists)
    ensures Stored(bi, Converted(bi, lists, i))
  {
    forall j | 0 <= j < |bi|
      ensures InRange(bi, Converted(bi, lists, i)[j])
    {
      assert NodeOk(bi, j);
    }
  }

  /** Non-type lists only grow, and no list of another type changes. */
  predicate Grows(bi: seq<BiNode>, before: Lists, after: Lists, t: nat) {
    && |before| == |after| == |bi|
    && (forall j :: 0 <= j < |bi| && !bi[j].isType ==> before[j] <= after[j])
    && (forall j :: 0 <= j < |bi| && bi[j].isType && j != t ==> before[j] == after[j])
  }

  lemma ConvertedGrows(bi: seq<BiNode>, lists: Lists, t: nat, c: nat)
    requires WellFormed(bi) && Stored(bi, lists) && t < |bi| && c < |bi| && bi[t].isType && !bi[c].isType
    ensures var r := Converted(bi, lists, c);
            && Stored(bi, r) && Grows(bi, lists, r, t) && r[t] == lists[t]
            && r[c] == lists[c] + bi[c].children
  {
    ConvertedStored(bi, lists, c);
    forall j | 0 <= j < |bi| && bi[j].isType
      ensures !Within(bi, j, c)
    {
      if Within(bi, j, c) {
        NoTypesBelow(bi, j, c);
      }
    }
    assert Within(bi, c, c);
  }

  predicate Covers(bi: seq<BiNode>, list: seq<nat>, cs: seq<nat>)
    requires InRange(bi, cs)
  {
    forall i :: 0 <= i < |cs| ==> HasName(bi, list, bi[cs[i]].name)
  }

  lemma CoversGrows(bi: seq<BiNode>, before: seq<nat>, after: seq<nat>, cs: seq<nat>)
    requires InRange(bi, cs) && before <= after && Covers(bi, before, cs)
    ensures Covers(bi, after, cs)
  {
    forall i | 0 <= i < |cs|
      ensures HasName(bi, after, bi[cs[i]].name)
    {
      HasNameGrows(bi, before, after, bi[cs[i]].name);
    }
  }

  lemma AddedCovers(bi: seq<BiNode>, base: seq<nat>, more: seq<nat>, cs: seq<nat>)
    requires InRange(bi, base) && InRange(bi, more) && InRange(bi, cs) && Covers(bi, more, cs)
    ensures Covers(bi, AddMissing(bi, base, more), cs)
  {
    AddMissingCovers(bi, base, more);
    forall i | 0 <= i < |cs|
      ensures HasName(bi, AddMissing(bi, base, more), bi[cs[i]].name)
    {
      assert HasName(bi, more, bi[cs[i]].name);
      var j :| 0 <= j < |more| && more[j] < |bi| && bi[more[j]].name == bi[cs[i]].name;
      assert HasName(bi, AddMissing(bi, base, more), bi[more[j]].name);
    }
  }

  lemma AbsorbGrows(bi: seq<BiNode>, lists: Lists, t: nat, c: nat)
    requires WellFormed(bi) && Stored(bi, lists) && t < |bi| && c < |bi| && bi[t].isType
    requires forall i :: 0 <= i < |lists[t]| ==> !bi[lists[t][i]].isType
    ensures var r := Absorb(bi, lists, t, c);
            Stored(bi, r) && Grows(bi, lists, r, t) && r[t] == lists[t] && forall j :: 0 <= j < |bi| ==> lists[j] <= r[j]
  {
  }

  lemma AbsorbStep(bi: seq<BiNode>, lists: Lists, t: nat, c: nat)
    requires WellFormed(bi) && Stored(bi, lists) && t < |bi| && c < |bi| && bi[t].isType && !bi[c].isType
    requires NodeOk(bi, c) && (forall i :: 0 <= i < |lists[t]| ==> !bi[lists[t][i]].isType) && Covers(bi, lists[c], bi[c].children)
    ensures var r, k := Absorb(bi, lists, t, c), Find(bi, lists[t], bi[c].name);
            && Stored(bi, r) && Grows(bi, lists, r, t) && r[t] == lists[t]
            && Covers(bi, r[c], bi[c].children)
            && (k < |lists[t]| ==> Covers(bi, r[lists[t][k]], bi[c].children))
  {
    AbsorbGrows(bi, lists, t, c);
    CoversGrows(bi, lists[c], Absorb(bi, lists, t, c)[c], bi[c].children);
    var k := Find(bi, lists[t], bi[c].name);
    if k < |lists[t]| {
      AddedCovers(bi, lists[lists[t][k]], lists[c], bi[c].children);
    }
  }

  /** The merged child's own list, and the list of the entry it was merged into, cover its children. */
  lemma MergeChildStep(bi: seq<BiNode>, lists: Lists, t: nat, c: nat)
    requires WellFormed(bi) && Stored(bi, lists) && t < |bi| && c < |bi| && bi[t].isType && !bi[c].isType
    requires NodeOk(bi, c) && forall i :: 0 <= i < |lists[t]| ==> !bi[lists[t][i]].isType
    ensures var r, k := MergeChild(bi, lists, t, c), Find(bi, lists[t], bi[c].name);
            && Stored(bi, r) && Grows(bi, lists, r, t)
            && r[t] == Merge(bi, lists[t], c)
            && Covers(bi, r[c], bi[c].children)
            && (k < |lists[t]| ==> Covers(bi, r[lists[t][k]], bi[c].children))
  {
    ConvertedGrows(bi, lists, t, c);
    var converted := Converted(bi, lists, c);
    forall i | 0 <= i < |bi[c].children|
      ensures HasName(bi, converted[c], bi[bi[c].children[i]].name)
    {
      assert converted[c][|lists[c]| + i] == bi[c].children[i];
    }
    AbsorbStep(bi, converted, t, c);
    EntryUpdate(bi, lists, converted, Absorb(bi, converted, t, c), t, c);
  }

  /** Entries share their children: what type `t` redeclares below a child it inherits from
      `u` also shows below that child in the entry of `u`. */
  lemma RedeclarationLeaks(bi: seq<BiNode>, lists: Lists, t: nat, u: nat, c: nat, i: nat)
    requires WellFormed(bi) && Stored(bi, lists) && t < |bi| && u < |bi| && c < |bi| && bi[t].isType && !bi[c].isType
    requires NodeOk(bi, c) && forall i :: 0 <= i < |lists[t]| ==> !bi[lists[t][i]].isType
    requires u != t && bi[u].isType && i < |bi[c].children|
    requires var k := Find(bi, lists[t], bi[c].name); k < |lists[t]| && lists[t][k] in lists[u]
    ensures var r, f := MergeChild(bi, lists, t, c), lists[t][Find(bi, lists[t], bi[c].name)];
            f in r[u] && HasName(bi, r[f], bi[bi[c].children[i]].name)
  {
    MergeChildStep(bi, lists, t, c);
  }

  lemma EntryUpdate(bi: seq<BiNode>, lists: Lists, l1: Lists, l2: Lists, t: nat, c: nat)
    requires Stored(bi, lists) && Stored(bi, l2) && t < |bi| && c < |bi| && bi[t].isType
    requires Grows(bi, lists, l1, t) && Grows(bi, l1, l2, t)
    ensures var r := l2[t := Merge(bi, lists[t], c)];
            Stored(bi, r) && Grows(bi, lists, r, t)
  {
  }

  /** An optional declaration that is replaced hands nothing down: the list of the declaration
      that takes its place gets that declaration's own children and no others. */
  lemma ReplacementInheritsNothing(bi: seq<BiNode>, lists: Lists, t: nat, c: nat)
    requires WellFormed(bi) && Stored(bi, lists) && t < |bi| && c < |bi| && bi[t].isType && !bi[c].isType
    requires c !in lists[t]
    requires var k := Find(bi, lists[t], bi[c].name); k < |lists[t]| && bi[lists[t][k]].rule.IsOptional()
    ensures var r := MergeChild(bi, lists, t, c);
            r[c] == lists[c] + bi[c].children && c in r[t]
  {
    ConvertedGrows(bi, lists, t, c);
    var r := MergeChild(bi, lists, t, c);
    assert r[t][|r[t]| - 1] == c;
  }

  // ---------- compiling one type, and all types ----------

  /** The store after the declarations `d` were merged into the entry of type `t`. */
  function Compile(bi: seq<BiNode>, lists: Lists, t: nat, d: seq<nat>): (r: Lists)
    requires WellFormed(bi) && Stored(bi, lists) && t < |bi| && InRange(bi, d)
    ensures Stored(bi, r)
    decreases |d|
  {
    if d == [] then lists
    else
      MergeChildStored(bi, Compile(bi, lists, t, d[..|d| - 1]), t, d[|d| - 1]);
      MergeChild(bi, Compile(bi, lists, t, d[..|d| - 1]), t, d[|d| - 1])
  }

  lemma MergeChildStored(bi: seq<BiNode>, lists: Lists, t: nat, c: nat)
    requires WellFormed(bi) && Stored(bi, lists) && t < |bi| && c < |bi|
    ensures Stored(bi, MergeChild(bi, lists, t, c))
  {
    ConvertedStored(bi, lists, c);
  }

  /** Every kept declaration covers the children of all later declarations of its name, and its own. */
  predicate CoveredEntry(bi: seq<BiNode>, lists: Lists, entry: seq<nat>, d: seq<nat>)
    requires WellFormed(bi) && Stored(bi, lists) && InRange(bi, d)
  {
    forall p, i :: 0 <= p <= i < |d| && d[p] in entry && bi[d[p]].name == bi[d[i]].name ==>
      assert NodeOk(bi, d[i]); Covers(bi, lists[d[p]], bi[d[i]].children)
  }

  predicate AllDeclared(bi: seq<BiNode>, d: seq<nat>) {
    InRange(bi, d) && NoDuplicates(d) && forall i :: 0 <= i < |d| ==> !bi[d[i]].isType
  }

  lemma CompileStep(bi: seq<BiNode>, lists: Lists, before: Lists, t: nat, d: seq<nat>, c: nat)
    requires WellFormed(bi) && Stored(bi, lists) && Stored(bi, before) && t < |bi| && bi[t].isType
    requires AllDeclared(bi, d) && c < |bi| && c !in d && !bi[c].isType
    requires Grows(bi, lists, before, t) && Kept(bi, d, before[t]) && CoveredEntry(bi, before, before[t], d)
    ensures var r := MergeChild(bi, before, t, c);
            Stored(bi, r) && Grows(bi, lists, r, t) && r[t] == Merge(bi, before[t], c) && CoveredEntry(bi, r, r[t], d + [c])
  {
    var acc := before[t];
    forall i | 0 <= i < |acc|
      ensures !bi[acc[i]].isType
    {
      assert acc[i] in d;
    }
    assert NodeOk(bi, c);
    MergeChildStep(bi, before, t, c);
    GrowsTwice(bi, lists, before, MergeChild(bi, before, t, c), t);
    CoverStep(bi, before, MergeChild(bi, before, t, c), t, d, c);
  }

  lemma GrowsTwice(bi: seq<BiNode>, a: Lists, b: Lists, c: Lists, t: nat)
    requires Grows(bi, a, b, t) && Grows(bi, b, c, t)
    ensures Grows(bi, a, c, t)
  {
  }

  lemma OlderCover(bi: seq<BiNode>, before: Lists, after: Lists, acc: seq<nat>, t: nat, d: seq<nat>, p: nat, i: nat)
    requires WellFormed(bi) && Stored(bi, before) && Stored(bi, after) && Grows(bi, before, after, t)
    requires AllDeclared(bi, d) && CoveredEntry(bi, before, acc, d)
    requires p <= i < |d| && d[p] in acc && bi[d[p]].name == bi[d[i]].name
    ensures NodeOk(bi, d[i]) && Covers(bi, after[d[p]], bi[d[i]].children)
  {
    assert NodeOk(bi, d[i]);
    CoversGrows(bi, before[d[p]], after[d[p]], bi[d[i]].children);
  }

  lemma CoverStep(bi: seq<BiNode>, before: Lists, after: Lists, t: nat, d: seq<nat>, c: nat)
    requires WellFormed(bi) && Stored(bi, before) && Stored(bi, after) && t < |bi| && Grows(bi, before, after, t)
    requires AllDeclared(bi, d) && c < |bi| && c !in d && !bi[c].isType && NodeOk(bi, c)
    requires UniqueNames(bi, before[t]) && (forall i :: 0 <= i < |before[t]| ==> before[t][i] in d)
    requires CoveredEntry(bi, before, before[t], d) && after[t] == Merge(bi, before[t], c)
    requires Covers(bi, after[c], bi[c].children)
    requires var k := Find(bi, before[t], bi[c].name);
             k < |before[t]| ==> Covers(bi, after[before[t][k]], bi[c].children)
    ensures CoveredEntry(bi, after, after[t], d + [c])
  {
    var acc, d', k := before[t], d + [c], Find(bi, before[t], bi[c].name);
    assert c !in acc;
    MergeMembers(bi, acc, c);
    forall p, i | 0 <= p <= i < |d'| && d'[p] in after[t] && bi[d'[p]].name == bi[d'[i]].name
      ensures NodeOk(bi, d'[i]) && Covers(bi, after[d'[p]], bi[d'[i]].children)
    {
      if i < |d| {
        OlderCover(bi, before, after, acc, t, d, p, i);
      } else if p < |d| {
        FoundUnderName(bi, acc, c, d[p]);
      }
    }
  }

  lemma FoundUnderName(bi: seq<BiNode>, acc: seq<nat>, c: nat, f: nat)
    requires InRange(bi, acc) && UniqueNames(bi, acc) && c < |bi| && f in acc && bi[f].name == bi[c].name
    ensures Find(bi, acc, bi[c].name) < |acc| && acc[Find(bi, acc, bi[c].name)] == f
  {
    var j :| 0 <= j < |acc| && acc[j] == f;
    assert j == Find(bi, acc, bi[c].name);
  }

  lemma DeclaredFront(bi: seq<BiNode>, d: seq<nat>)
    requires AllDeclared(bi, d) && d != []
    ensures var front, c := d[..|d| - 1], d[|d| - 1];
            AllDeclared(bi, front) && c < |bi| && c !in front && !bi[c].isType
  {
  }

  /** What compiling the declarations `d` into the entry of `t` leaves in the store. */
  predicate EntryCompiled(bi: seq<BiNode>, lists: Lists, r: Lists, t: nat, d: seq<nat>)
    requires WellFormed(bi) && Stored(bi, r) && t < |bi| && InRange(bi, d)
  {
    Grows(bi, lists, r, t) && r[t] == MergeAll(bi, [], d) && CoveredEntry(bi, r, r[t], d)
  }

  lemma CompileLast(bi: seq<BiNode>, lists: Lists, t: nat, d: seq<nat>, front: seq<nat>, c: nat)
    requires WellFormed(bi) && Stored(bi, lists) && t < |bi| && InRange(bi, d) && InRange(bi, front) && c < |bi|
    requires d != [] && front == d[..|d| - 1] && c == d[|d| - 1]
    ensures Compile(bi, lists, t, d) == MergeChild(bi, Compile(bi, lists, t, front), t, c)
  {
  }

  lemma MergeAllSnoc(bi: seq<BiNode>, d: seq<nat>, c: nat)
    requires InRange(bi, d) && c < |bi|
    ensures InRange(bi, d + [c]) && MergeAll(bi, [], d + [c]) == Merge(bi, MergeAll(bi, [], d), c)
  {
    assert (d + [c])[..|d|] == d;
  }

  lemma CompileOneMore(bi: seq<BiNode>, lists: Lists, before: Lists, t: nat, d: seq<nat>, c: nat)
    requires WellFormed(bi) && Stored(bi, lists) && Stored(bi, before) && t < |bi| && bi[t].isType
    requires AllDeclared(bi, d) && c < |bi| && c !in d && !bi[c].isType && EntryCompiled(bi, lists, before, t, d)
    ensures Stored(bi, MergeChild(bi, before, t, c)) && InRange(bi, d + [c])
    ensures EntryCompiled(bi, lists, MergeChild(bi, before, t, c), t, d + [c])
  {
    EntryKeepsWinners(bi, d);
    MergeAllSnoc(bi, d, c);
    CompileStep(bi, lists, before, t, d, c);
  }

  lemma CompileNone(bi: seq<BiNode>, lists: Lists, t: nat)
    requires WellFormed(bi) && Stored(bi, lists) && t < |bi| && lists[t] == []
    ensures EntryCompiled(bi, lists, lists, t, [])
  {
  }

  lemma CompileNext(bi: seq<BiNode>, lists: Lists, t: nat, d: seq<nat>, front: seq<nat>, c: nat)
    requires WellFormed(bi) && Stored(bi, lists) && t < |bi| && bi[t].isType && AllDeclared(bi, d)
    requires d != [] && front == d[..|d| - 1] && c == d[|d| - 1] && InRange(bi, front)
    requires EntryCompiled(bi, lists, Compile(bi, lists, t, front), t, front)
    ensures EntryCompiled(bi, lists, Compile(bi, lists, t, d), t, d)
  {
    DeclaredFront(bi, d);
    CompileOneMore(bi, lists, Compile(bi, lists, t, front), t, front, c);
    CompileLast(bi, lists, t, d, front, c);
    assert front + [c] == d;
  }

  lemma {:induction false} CompileEntry(bi: seq<BiNode>, lists: Lists, t: nat, d: seq<nat>)
    requires WellFormed(bi) && Stored(bi, lists) && t < |bi| && bi[t].isType && lists[t] == [] && AllDeclared(bi, d)
    ensures EntryCompiled(bi, lists, Compile(bi, lists, t, d), t, d)
    decreases |d|
  {
    if d == [] {
      CompileNone(bi, lists, t);
    } else {
      DeclaredFront(bi, d);
      CompileEntry(bi, lists, t, d[..|d| - 1]);
      CompileNext(bi, lists, t, d, d[..|d| - 1], d[|d| - 1]);
    }
  }

  // ---------- declarations are converted to the bottom ----------

  /** Every node below `c` has its own children in its list. */
  predicate Expanded(bi: seq<BiNode>, lists: Lists, c: nat)
    requires WellFormed(bi) && |lists| == |bi|
  {
    forall j :: 0 <= j < |bi| && Within(bi, j, c) ==> HasAll(lists[j], bi[j].children)
  }

  predicate HasAll(list: seq<nat>, cs: seq<nat>) {
    forall x :: x in cs ==> x in list
  }

  lemma ConvertedExpands(bi: seq<BiNode>, lists: Lists, c: nat)
    requires WellFormed(bi) && |lists| == |bi|
    ensures Expanded(bi, Converted(bi, lists, c), c)
  {
  }

  lemma ExpandedLasts(bi: seq<BiNode>, before: Lists, after: Lists, t: nat, c: nat)
    requires WellFormed(bi) && |before| == |bi| && Grows(bi, before, after, t) && c < |bi| && !bi[c].isType
    requires Expanded(bi, before, c)
    ensures Expanded(bi, after, c)
  {
    forall j | 0 <= j < |bi| && Within(bi, j, c)
      ensures HasAll(after[j], bi[j].children)
    {
      NoTypesBelow(bi, j, c);
      assert HasAll(before[j], bi[j].children) && before[j] <= after[j];
    }
  }

  lemma MergeChildExpands(bi: seq<BiNode>, lists: Lists, t: nat, c: nat)
    requires WellFormed(bi) && Stored(bi, lists) && t < |bi| && c < |bi| && bi[t].isType && !bi[c].isType
    requires forall i :: 0 <= i < |lists[t]| ==> !bi[lists[t][i]].isType
    ensures Expanded(bi, MergeChild(bi, lists, t, c), c)
  {
    var converted := Converted(bi, lists, c);
    ConvertedExpands(bi, lists, c);
    ConvertedGrows(bi, lists, t, c);
    var absorbed := Absorb(bi, converted, t, c);
    AbsorbGrows(bi, converted, t, c);
    ExpandedLasts(bi, converted, absorbed, t, c);
    ExpandedLasts(bi, absorbed, absorbed[t := Merge(bi, converted[t], c)], t, c);
  }

  /** All nodes of the list are expanded. */
  predicate AllExpanded(bi: seq<BiNode>, lists: Lists, d: seq<nat>)
    requires WellFormed(bi) && |lists| == |bi|
  {
    forall c :: c in d ==> Expanded(bi, lists, c)
  }

  lemma AllExpandedLasts(bi: seq<BiNode>, before: Lists, after: Lists, t: nat, d: seq<nat>)
    requires WellFormed(bi) && |before| == |bi| && Grows(bi, before, after, t) && AllExpanded(bi, before, d)
    requires forall c :: c in d ==> c < |bi| && !bi[c].isType
    ensures AllExpanded(bi, after, d)
  {
    forall c | c in d
      ensures Expanded(bi, after, c)
    {
      ExpandedLasts(bi, before, after, t, c);
    }
  }

  lemma ExpandsNext(bi: seq<BiNode>, before: Lists, after: Lists, t: nat, d: seq<nat>, c: nat)
    requires WellFormed(bi) && Stored(bi, before) && t < |bi| && bi[t].isType && AllDeclared(bi, d) && c < |bi| && !bi[c].isType
    requires forall i :: 0 <= i < |before[t]| ==> !bi[before[t][i]].isType
    requires AllExpanded(bi, before, d) && after == MergeChild(bi, before, t, c)
    ensures |after| == |bi| && AllExpanded(bi, after, d) && Expanded(bi, after, c)
  {
    assert NodeOk(bi, c);
    MergeChildStep(bi, before, t, c);
    MergeChildExpands(bi, before, t, c);
    AllExpandedLasts(bi, before, after, t, d);
  }

  lemma AllExpandedOf(bi: seq<BiNode>, lists: Lists, d: seq<nat>)
    requires WellFormed(bi) && |lists| == |bi| && d != []
    requires AllExpanded(bi, lists, d[..|d| - 1]) && Expanded(bi, lists, d[|d| - 1])
    ensures AllExpanded(bi, lists, d)
  {
    assert d == d[..|d| - 1] + [d[|d| - 1]];
  }

  lemma {:induction false} CompileExpands(bi: seq<BiNode>, lists: Lists, t: nat, d: seq<nat>)
    requires WellFormed(bi) && Stored(bi, lists) && t < |bi| && bi[t].isType && lists[t] == [] && AllDeclared(bi, d)
    ensures AllExpanded(bi, Compile(bi, lists, t, d), d)
    decreases |d|
  {
    if d != [] {
      var front, last := d[..|d| - 1], d[|d| - 1];
      DeclaredFront(bi, d);
      CompileExpands(bi, lists, t, front);
      EntryHasNoTypes(bi, lists, t, front);
      CompileLast(bi, lists, t, d, front, last);
      ExpandsNext(bi, Compile(bi, lists, t, front), Compile(bi, lists, t, d), t, front, last);
      AllExpandedOf(bi, Compile(bi, lists, t, d), d);
    }
  }

  lemma EntryHasNoTypes(bi: seq<BiNode>, lists: Lists, t: nat, d: seq<nat>)
    requires WellFormed(bi) && Stored(bi, lists) && t < |bi| && bi[t].isType && lists[t] == [] && AllDeclared(bi, d)
    ensures var entry := Compile(bi, lists, t, d)[t]; forall i :: 0 <= i < |entry| ==> !bi[entry[i]].isType
  {
    CompileEntry(bi, lists, t, d);
    EntryKeepsWinners(bi, d);
  }

  // ---------- nothing else is inherited ----------

  lemma {:induction false} BloodlineTransitive(bi: seq<BiNode>, p: nat, q: nat, r: nat)
    requires WellFormed(bi) && q < |bi| && r < |bi| && p in Bloodline(bi, q) && q in Bloodline(bi, r)
    ensures p in Bloodline(bi, r)
    decreases r
  {
    assert NodeOk(bi, r);
    if q != r {
      BloodlineTransitive(bi, p, q, bi[r].parent.value);
    }
  }

  /** `g` declares the name of `f`, for the type of `f` or one below it. */
  predicate Redeclares(bi: seq<BiNode>, f: nat, g: nat)
    requires WellFormed(bi) && f < |bi| && g < |bi|
  {
    assert NodeOk(bi, g);
    && bi[f].name == bi[g].name && bi[f].parent.Some? && bi[g].parent.Some?
    && bi[f].parent.value in Bloodline(bi, bi[g].parent.value)
  }

  /** Why `x` is in the list of `f`: `f` declares it, or a redeclaration of `f` does. */
  predicate Origin(bi: seq<BiNode>, f: nat, x: nat)
    requires WellFormed(bi) && f < |bi|
  {
    x in bi[f].children || exists g :: 0 <= g < |bi| && Redeclares(bi, f, g) && x in bi[g].children
  }

  predicate Originates(bi: seq<BiNode>, f: nat, list: seq<nat>)
    requires WellFormed(bi) && f < |bi|
  {
    forall x :: x in list ==> Origin(bi, f, x)
  }

  predicate Bounded(bi: seq<BiNode>, lists: Lists)
    requires WellFormed(bi) && |lists| == |bi|
  {
    forall f :: 0 <= f < |bi| && !bi[f].isType ==> Originates(bi, f, lists[f])
  }

  /** What a redeclaration may have, the declaration may have. */
  lemma OriginOfRedeclared(bi: seq<BiNode>, f: nat, c: nat, x: nat)
    requires WellFormed(bi) && f < |bi| && c < |bi| && Redeclares(bi, f, c) && Origin(bi, c, x)
    ensures Origin(bi, f, x)
  {
    if x !in bi[c].children {
      var g :| 0 <= g < |bi| && Redeclares(bi, c, g) && x in bi[g].children;
      assert NodeOk(bi, c) && NodeOk(bi, g);
      BloodlineTransitive(bi, bi[f].parent.value, bi[c].parent.value, bi[g].parent.value);
      assert Redeclares(bi, f, g);
    }
  }

  lemma {:induction false} AddMissingElements(bi: seq<BiNode>, base: seq<nat>, more: seq<nat>)
    requires InRange(bi, base) && InRange(bi, more)
    ensures forall x :: x in AddMissing(bi, base, more) ==> x in base || x in more
    decreases |more|
  {
    if more != [] {
      AddMissingElements(bi, base, more[..|more| - 1]);
    }
  }

  lemma AbsorbedOriginates(bi: seq<BiNode>, f: nat, c: nat, base: seq<nat>, more: seq<nat>)
    requires WellFormed(bi) && f < |bi| && c < |bi| && InRange(bi, base) && InRange(bi, more)
    requires Originates(bi, f, base) && Originates(bi, c, more) && Redeclares(bi, f, c)
    ensures Originates(bi, f, AddMissing(bi, base, more))
  {
    AddMissingElements(bi, base, more);
    forall x | x in AddMissing(bi, base, more)
      ensures Origin(bi, f, x)
    {
      if x !in base {
        OriginOfRedeclared(bi, f, c, x);
      }
    }
  }

  lemma ConvertedBounded(bi: seq<BiNode>, lists: Lists, i: nat)
    requires WellFormed(bi) && |lists| == |bi| && Bounded(bi, lists)
    ensures Bounded(bi, Converted(bi, lists, i))
  {
    forall f | 0 <= f < |bi| && !bi[f].isType
      ensures Originates(bi, f, Converted(bi, lists, i)[f])
    {
      assert Originates(bi, f, lists[f]);
    }
  }

  /** Entries of the name of `c` are redeclared by `c`. */
  predicate Precedes(bi: seq<BiNode>, entry: seq<nat>, c: nat)
    requires WellFormed(bi) && InRange(bi, entry) && c < |bi|
  {
    forall i :: 0 <= i < |entry| && bi[entry[i]].name == bi[c].name ==> Redeclares(bi, entry[i], c)
  }

  lemma AbsorbBounded(bi: seq<BiNode>, lists: Lists, t: nat, c: nat)
    requires WellFormed(bi) && Stored(bi, lists) && t < |bi| && c < |bi| && !bi[c].isType && Bounded(bi, lists)
    requires Precedes(bi, lists[t], c) && forall i :: 0 <= i < |lists[t]| ==> !bi[lists[t][i]].isType
    ensures Bounded(bi, Absorb(bi, lists, t, c))
  {
    var k := Find(bi, lists[t], bi[c].name);
    if k < |lists[t]| {
      var f := lists[t][k];
      assert Redeclares(bi, f, c) && Originates(bi, f, lists[f]) && Originates(bi, c, lists[c]);
      AbsorbedOriginates(bi, f, c, lists[f], lists[c]);
      forall j | 0 <= j < |bi| && !bi[j].isType
        ensures Originates(bi, j, Absorb(bi, lists, t, c)[j])
      {
        assert Originates(bi, j, lists[j]);
      }
    }
  }

  lemma MergeChildBounded(bi: seq<BiNode>, lists: Lists, t: nat, c: nat)
    requires WellFormed(bi) && Stored(bi, lists) && t < |bi| && c < |bi| && bi[t].isType && !bi[c].isType && Bounded(bi, lists)
    requires Precedes(bi, lists[t], c) && forall i :: 0 <= i < |lists[t]| ==> !bi[lists[t][i]].isType
    ensures Bounded(bi, MergeChild(bi, lists, t, c))
  {
    ConvertedGrows(bi, lists, t, c);
    ConvertedBounded(bi, lists, c);
    var absorbed := Absorb(bi, Converted(bi, lists, c), t, c);
    AbsorbBounded(bi, Converted(bi, lists, c), t, c);
    var r := MergeChild(bi, lists, t, c);
    forall f | 0 <= f < |bi| && !bi[f].isType
      ensures Originates(bi, f, r[f])
    {
      assert Originates(bi, f, absorbed[f]) && r[f] == absorbed[f];
    }
  }

  /** Declarations of a bloodline come in the order of its types, root first. */
  predicate InOrder(bi: seq<BiNode>, d: seq<nat>)
    requires WellFormed(bi) && InRange(bi, d)
  {
    forall i, j :: 0 <= i < j < |d| && bi[d[i]].name == bi[d[j]].name ==> Redeclares(bi, d[i], d[j])
  }

  lemma {:induction false} DeclarationsInOrder(bi: seq<BiNode>, t: nat)
    requires WellFormed(bi) && t < |bi|
    ensures InOrder(bi, Declarations(bi, t))
    ensures forall x :: x in Declarations(bi, t) ==> x < |bi| && bi[x].parent.Some? && bi[x].parent.value in Bloodline(bi, t)
    decreases t
  {
    assert NodeOk(bi, t);
    var own := NonTypes(bi, bi[t].children);
    NonTypesAre(bi, bi[t].children);
    forall x | x in own
      ensures x < |bi| && bi[x].parent == Some(t)
    {
      var k :| 0 <= k < |bi[t].children| && bi[t].children[k] == x;
    }
    if bi[t].parent.Some? {
      var up := Declarations(bi, bi[t].parent.value);
      DeclarationsInOrder(bi, bi[t].parent.value);
      assert Bloodline(bi, t)[1..] == Bloodline(bi, bi[t].parent.value);
      assert Declarations(bi, t) == up + own;
      OrderedSum(bi, t, up, own);
    } else {
      assert Bloodline(bi, t)[1..] == [];
      assert Bloodline(bi, t) == [t] && Declared(bi, []) == [];
      assert Declarations(bi, t) == [] + own;
      assert [] + own == own;
      OrderedSum(bi, t, [], own);
    }
  }

  lemma OrderedSum(bi: seq<BiNode>, t: nat, up: seq<nat>, own: seq<nat>)
    requires WellFormed(bi) && t < |bi| && InRange(bi, up) && InRange(bi, own) && InOrder(bi, up)
    requires forall x :: x in own ==> x < |bi| && bi[x].parent == Some(t)
    requires forall x :: x in up ==> x < |bi| && bi[x].parent.Some? && bi[x].parent.value in Bloodline(bi, t)
    ensures InRange(bi, up + own) && InOrder(bi, up + own)
  {
    var d := up + own;
    forall i, j | 0 <= i < j < |d| && bi[d[i]].name == bi[d[j]].name
      ensures Redeclares(bi, d[i], d[j])
    {
      if j < |up| {
        assert Redeclares(bi, up[i], up[j]);
      } else {
        assert d[j] in own && (d[i] in up || d[i] in own);
        assert t in Bloodline(bi, t);
      }
    }
  }

  lemma {:induction false} CompileBounded(bi: seq<BiNode>, lists: Lists, t: nat, d: seq<nat>)
    requires WellFormed(bi) && Stored(bi, lists) && t < |bi| && bi[t].isType && lists[t] == [] && AllDeclared(bi, d)
    requires Bounded(bi, lists) && InOrder(bi, d)
    ensures Bounded(bi, Compile(bi, lists, t, d))
    decreases |d|
  {
    if d != [] {
      var front, c := d[..|d| - 1], d[|d| - 1];
      DeclaredFront(bi, d);
      assert InOrder(bi, front);
      CompileBounded(bi, lists, t, front);
      CompileEntry(bi, lists, t, front);
      EntryKeepsWinners(bi, front);
      EntryPrecedes(bi, d, Compile(bi, lists, t, front)[t]);
      MergeChildBounded(bi, Compile(bi, lists, t, front), t, c);
      CompileLast(bi, lists, t, d, front, c);
    }
  }

  lemma EntryPrecedes(bi: seq<BiNode>, d: seq<nat>, entry: seq<nat>)
    requires WellFormed(bi) && AllDeclared(bi, d) && InOrder(bi, d) && d != [] && InRange(bi, entry)
    requires forall i :: 0 <= i < |entry| ==> entry[i] in d[..|d| - 1]
    ensures Precedes(bi, entry, d[|d| - 1]) && forall i :: 0 <= i < |entry| ==> !bi[entry[i]].isType
  {
    forall i | 0 <= i < |entry|
      ensures !bi[entry[i]].isType
      ensures bi[entry[i]].name == bi[d[|d| - 1]].name ==> Redeclares(bi, entry[i], d[|d| - 1])
    {
      var k :| 0 <= k < |d| - 1 && d[k] == entry[i];
    }
  }

  /** The store when the types of `done` were compiled and the others were not. */
  ghost predicate Compiled(bi: seq<BiNode>, lists: Lists, done: set<nat>)
    requires WellFormed(bi)
  {
    && Stored(bi, lists) && Bounded(bi, lists)
    && (forall t :: 0 <= t < |bi| && bi[t].isType && t !in done ==> lists[t] == [])
    && (forall t :: t in done ==> t < |bi| && bi[t].isType && EntryOk(bi, lists, t))
    && (forall t, c :: t in done && c in Declarations(bi, t) ==> Expanded(bi, lists, c))
  }

  predicate EntryOk(bi: seq<BiNode>, lists: Lists, t: nat)
    requires WellFormed(bi) && Stored(bi, lists) && t < |bi|
  {
    var d := Declarations(bi, t);
    lists[t] == MergeAll(bi, [], d) && CoveredEntry(bi, lists, lists[t], d)
  }

  lemma DeclarationsAreDeclared(bi: seq<BiNode>, t: nat)
    requires WellFormed(bi) && t < |bi|
    ensures AllDeclared(bi, Declarations(bi, t))
  {
    DeclarationsDistinct(bi, t);
    var d := Declarations(bi, t);
    assert forall i :: 0 <= i < |d| ==> d[i] in d;
  }

  /** Compiling one type leaves the entries of the others as they were described. */
  lemma CompileKeepsOthers(bi: seq<BiNode>, lists: Lists, done: set<nat>, t: nat)
    requires WellFormed(bi) && Compiled(bi, lists, done) && t < |bi| && bi[t].isType && t !in done
    ensures Compiled(bi, Compile(bi, lists, t, Declarations(bi, t)), done + {t})
  {
    DeclarationsAreDeclared(bi, t);
    CompileEntry(bi, lists, t, Declarations(bi, t));
    DeclarationsInOrder(bi, t);
    CompileBounded(bi, lists, t, Declarations(bi, t));
    var r := Compile(bi, lists, t, Declarations(bi, t));
    forall u | u in done
      ensures EntryOk(bi, r, u)
    {
      DeclarationsAreDeclared(bi, u);
      EntryLasts(bi, lists, r, t, u);
    }
    CompileExpands(bi, lists, t, Declarations(bi, t));
    forall u, c | u in done && c in Declarations(bi, u)
      ensures Expanded(bi, r, c)
    {
      DeclarationsDistinct(bi, u);
      ExpandedLasts(bi, lists, r, t, c);
    }
  }

  lemma EntryLasts(bi: seq<BiNode>, before: Lists, after: Lists, t: nat, u: nat)
    requires WellFormed(bi) && Stored(bi, before) && Stored(bi, after) && Grows(bi, before, after, t)
    requires u < |bi| && bi[u].isType && u != t && EntryOk(bi, before, u) && AllDeclared(bi, Declarations(bi, u))
    ensures EntryOk(bi, after, u)
  {
    var d := Declarations(bi, u);
    forall p, i | 0 <= p <= i < |d| && d[p] in after[u] && bi[d[p]].name == bi[d[i]].name
      ensures NodeOk(bi, d[i]) && Covers(bi, after[d[p]], bi[d[i]].children)
    {
      assert NodeOk(bi, d[i]);
      CoversGrows(bi, before[d[p]], after[d[p]], bi[d[i]].children);
    }
  }

  // ---------- what the type map promises ----------

  /** Once all types are compiled: an entry has one child per name declared anywhere on the
      bloodline, in the order of declarations; it is the first declaration from the root that
      is not optional, or the most derived one; it has a child for every name declared below it, there or further down the
      bloodline, and no other child than its own and those of its redeclarations, which may
      belong to any type below its own. */
  lemma CompiledEntry(bi: seq<BiNode>, lists: Lists, done: set<nat>, t: nat)
    requires WellFormed(bi) && Compiled(bi, lists, done) && t in done
    ensures var d := Declarations(bi, t);
            && UniqueNames(bi, lists[t]) && InDeclarationOrder(d, lists[t])
            && (forall name :: HasName(bi, lists[t], name) <==> HasName(bi, d, name))
            && (forall p :: 0 <= p < |d| ==> (d[p] in lists[t] <==> Wins(bi, d, p)))
            && (forall p, i :: 0 <= p <= i < |d| && Wins(bi, d, p) && bi[d[p]].name == bi[d[i]].name ==>
                  NodeOk(bi, d[i]) && Covers(bi, lists[d[p]], bi[d[i]].children))
            && (forall p :: 0 <= p < |d| && Wins(bi, d, p) ==> Originates(bi, d[p], lists[d[p]]))
            && (forall p :: 0 <= p < |d| ==> Expanded(bi, lists, d[p]))
  {
    DeclarationsAreDeclared(bi, t);
    EntryNames(bi, lists, t, Declarations(bi, t));
    EntryCoverage(bi, lists, t, Declarations(bi, t));
  }

  lemma EntryNames(bi: seq<BiNode>, lists: Lists, t: nat, d: seq<nat>)
    requires Stored(bi, lists) && t < |bi| && AllDeclared(bi, d) && lists[t] == MergeAll(bi, [], d)
    ensures UniqueNames(bi, lists[t]) && InDeclarationOrder(d, lists[t])
    ensures forall name :: HasName(bi, lists[t], name) <==> HasName(bi, d, name)
    ensures forall p :: 0 <= p < |d| ==> (d[p] in lists[t] <==> Wins(bi, d, p))
  {
    EntryKeepsWinners(bi, d);
    EntryInOrder(bi, d);
    KeptNames(bi, d, lists[t]);
  }

  lemma EntryCoverage(bi: seq<BiNode>, lists: Lists, t: nat, d: seq<nat>)
    requires WellFormed(bi) && Stored(bi, lists) && t < |bi| && InRange(bi, d) && CoveredEntry(bi, lists, lists[t], d)
    requires forall p :: 0 <= p < |d| ==> (d[p] in lists[t] <==> Wins(bi, d, p))
    ensures forall p, i :: 0 <= p <= i < |d| && Wins(bi, d, p) && bi[d[p]].name == bi[d[i]].name ==>
              NodeOk(bi, d[i]) && Covers(bi, lists[d[p]], bi[d[i]].children)
  {
    forall p, i | 0 <= p <= i < |d| && Wins(bi, d, p) && bi[d[p]].name == bi[d[i]].name
      ensures NodeOk(bi, d[i]) && Covers(bi, lists[d[p]], bi[d[i]].children)
    {
      assert d[p] in lists[t];
    }
  }

  lemma KeptNames(bi: seq<BiNode>, d: seq<nat>, r: seq<nat>)
    requires InRange(bi, d) && InRange(bi, r) && Kept(bi, d, r)
    ensures forall name :: HasName(bi, r, name) <==> HasName(bi, d, name)
  {
    forall name
      ensures HasName(bi, r, name) <==> HasName(bi, d, name)
    {
      if HasName(bi, r, name) {
        var i :| 0 <= i < |r| && bi[r[i]].name == name;
        assert r[i] in d;
      }
      if HasName(bi, d, name) {
        var p :| 0 <= p < |d| && bi[d[p]].name == name;
        assert HasName(bi, r, bi[d[p]].name);
      }
    }
  }
}
