/** Is a type the same as or a subtype of another one: the memo of supertypes, and the memo
    that classifies machine types by the configured types. */
module SuperTypes {
  import opened OpcUa

  const UNDEFINED_TYPE := NodeId(NS0_URI, "i=0")

  predicate IsNoType(n: NodeId) {
    Same(n, UNDEFINED_TYPE) || n.IsNull()
  }

  /** The supertype the server answers with for each type it has; null if it finds none or
      several. Asking for any other node throws. */
  type Forest = map<NodeId, NodeId>

  /** The null id and the undefined type, `i=0` of namespace 0, end every walk. */
  predicate EndsWalk(n: NodeId) {
    (n.uri == "" && (n.id == "" || n.id == "i=0")) || (n.uri == "http://opcfoundation.org/UA/" && n.id == "i=0")
  }

  /** A walk from a type towards its supertypes. */
  predicate IsChain(f: Forest, p: seq<NodeId>) {
    p != [] && !EndsWalk(p[0]) && (|p| > 1 ==> p[0] in f && f[p[0]] == p[1] && IsChain(f, p[1..]))
  }

  ghost predicate Acyclic(f: Forest) {
    forall p, i, j :: IsChain(f, p) && 0 <= i < j < |p| ==> p[i] != p[j]
  }

  ghost predicate Reaches(f: Forest, e: NodeId, t: NodeId) {
    exists p :: IsChain(f, p) && p[0] == t && p[|p| - 1] == e
  }

  /** Some type on the way from `t` up, before `e`, is neither in the memo nor can it be
      browsed now. */
  ghost predicate Blocked(f: Forest, memo: Forest, failing: set<NodeId>, e: NodeId, t: NodeId) {
    exists p :: IsBlockedChain(f, memo, failing, e, p) && p[0] == t
  }

  predicate IsBlockedChain(f: Forest, memo: Forest, failing: set<NodeId>, e: NodeId, p: seq<NodeId>) {
    && p != [] && !EndsWalk(p[0]) && p[0] != e
    && if |p| == 1 then Stuck(f, memo, failing, p[0])
       else p[0] in f && f[p[0]] == p[1] && IsBlockedChain(f, memo, failing, e, p[1..])
  }

  predicate Stuck(f: Forest, memo: Forest, failing: set<NodeId>, t: NodeId) {
    t !in memo && (t !in f || t in failing)
  }

  // ---------- walks ----------

  lemma {:induction false} Append(f: Forest, p: seq<NodeId>, q: seq<NodeId>)
    requires IsChain(f, p) && IsChain(f, q) && p[|p| - 1] in f && f[p[|p| - 1]] == q[0]
    ensures IsChain(f, p + q)
  {
    if |p| > 1 {
      assert p[1..][|p| - 2] == p[|p| - 1];
      Append(f, p[1..], q);
      assert p + q == [p[0]] + (p[1..] + q) && (p[1..] + q)[0] == p[1];
      Cons(f, p[0], p[1..] + q);
    } else {
      assert p + q == [p[0]] + q;
      Cons(f, p[0], q);
    }
  }

  lemma Cons(f: Forest, t: NodeId, p: seq<NodeId>)
    requires !IsNoType(t) && t in f && IsChain(f, p) && p[0] == f[t]
    ensures IsChain(f, [t] + p)
  {
    assert ([t] + p)[1..] == p;
  }

  lemma ReachesStep(f: Forest, e: NodeId, t: NodeId)
    ensures IsNoType(t) ==> !Reaches(f, e, t)
    ensures !IsNoType(t) ==> (Reaches(f, e, t) <==> e == t || (t in f && Reaches(f, e, f[t])))
  {
    if !IsNoType(t) {
      if e == t {
        assert IsChain(f, [t]);
      }
      if Reaches(f, e, t) && e != t {
        var p :| IsChain(f, p) && p[0] == t && p[|p| - 1] == e;
        assert IsChain(f, p[1..]);
      }
      if t in f && Reaches(f, e, f[t]) {
        var p :| IsChain(f, p) && p[0] == f[t] && p[|p| - 1] == e;
        Cons(f, t, p);
        assert ([t] + p)[|p|] == e;
      }
    }
  }

  lemma BlockedStep(f: Forest, memo: Forest, failing: set<NodeId>, e: NodeId, t: NodeId)
    ensures IsNoType(t) || e == t ==> !Blocked(f, memo, failing, e, t)
    ensures !IsNoType(t) && e != t && Stuck(f, memo, failing, t) ==> Blocked(f, memo, failing, e, t)
    ensures !IsNoType(t) && e != t && !Stuck(f, memo, failing, t) && t in f ==>
              (Blocked(f, memo, failing, e, t) <==> Blocked(f, memo, failing, e, f[t]))
  {
    if !IsNoType(t) && e != t {
      if Stuck(f, memo, failing, t) {
        assert IsBlockedChain(f, memo, failing, e, [t]);
      } else if t in f {
        if Blocked(f, memo, failing, e, t) {
          var p :| IsBlockedChain(f, memo, failing, e, p) && p[0] == t;
          assert IsBlockedChain(f, memo, failing, e, p[1..]);
        }
        if Blocked(f, memo, failing, e, f[t]) {
          var p :| IsBlockedChain(f, memo, failing, e, p) && p[0] == f[t];
          assert ([t] + p)[1..] == p;
          assert IsBlockedChain(f, memo, failing, e, [t] + p);
        }
      }
    }
  }

  lemma {:induction false} BlockedChainIsChain(f: Forest, memo: Forest, failing: set<NodeId>, e: NodeId, p: seq<NodeId>)
    requires IsBlockedChain(f, memo, failing, e, p)
    ensures IsChain(f, p)
  {
    if |p| > 1 {
      BlockedChainIsChain(f, memo, failing, e, p[1..]);
    }
  }

  lemma {:induction false} MemoOutsideChain(f: Forest, memo: Forest, failing: set<NodeId>, e: NodeId, t: NodeId, p: seq<NodeId>)
    requires t in f && p != [] && p[|p| - 1] != t
    ensures IsBlockedChain(f, memo[t := f[t]], failing, e, p) <==> IsBlockedChain(f, memo, failing, e, p)
  {
    if |p| > 1 {
      MemoOutsideChain(f, memo, failing, e, t, p[1..]);
    }
  }

  /** Walks remember only what could be browsed, so they free no type that was stuck. */
  ghost predicate SameStuck(f: Forest, before: Forest, after: Forest, failing: set<NodeId>) {
    forall t :: Stuck(f, after, failing, t) <==> Stuck(f, before, failing, t)
  }

  lemma {:induction false} SameBlockedChain(f: Forest, before: Forest, after: Forest, failing: set<NodeId>, e: NodeId, p: seq<NodeId>)
    requires SameStuck(f, before, after, failing)
    ensures IsBlockedChain(f, after, failing, e, p) <==> IsBlockedChain(f, before, failing, e, p)
  {
    if |p| > 1 {
      SameBlockedChain(f, before, after, failing, e, p[1..]);
    }
  }

  lemma SameBlocked(f: Forest, before: Forest, after: Forest, failing: set<NodeId>, e: NodeId, t: NodeId)
    requires SameStuck(f, before, after, failing)
    ensures Blocked(f, after, failing, e, t) <==> Blocked(f, before, failing, e, t)
  {
    forall p
      ensures IsBlockedChain(f, after, failing, e, p) <==> IsBlockedChain(f, before, failing, e, p)
    {
      SameBlockedChain(f, before, after, failing, e, p);
    }
  }

  /** Remembering `t` does not change how its supertypes are walked. */
  lemma MemoOfChild(f: Forest, memo: Forest, failing: set<NodeId>, e: NodeId, t: NodeId)
    requires Acyclic(f) && t in f && !IsNoType(t)
    ensures Blocked(f, memo[t := f[t]], failing, e, f[t]) <==> Blocked(f, memo, failing, e, f[t])
  {
    forall m, p | m in {memo, memo[t := f[t]]} && IsBlockedChain(f, m, failing, e, p) && p[0] == f[t]
      ensures IsBlockedChain(f, memo[t := f[t]], failing, e, p) <==> IsBlockedChain(f, memo, failing, e, p)
    {
      BlockedChainIsChain(f, m, failing, e, p);
      Cons(f, t, p);
      assert ([t] + p)[0] != ([t] + p)[|p|];
      MemoOutsideChain(f, memo, failing, e, t, p);
    }
  }

  lemma {:induction false} ChainEndsInType(f: Forest, p: seq<NodeId>)
    requires IsChain(f, p)
    ensures !IsNoType(p[|p| - 1])
  {
    if |p| > 1 {
      ChainEndsInType(f, p[1..]);
    }
  }

  lemma ReachedIsType(f: Forest, e: NodeId, t: NodeId)
    requires Reaches(f, e, t)
    ensures !IsNoType(e)
  {
    var p :| IsChain(f, p) && p[0] == t && p[|p| - 1] == e;
    ChainEndsInType(f, p);
  }

  lemma Join(f: Forest, p: seq<NodeId>, q: seq<NodeId>)
    requires IsChain(f, p) && IsChain(f, q) && p[|p| - 1] == q[0]
    ensures IsChain(f, p + q[1..]) && (p + q[1..])[|p| + |q| - 2] == q[|q| - 1]
  {
    if |q| > 1 {
      Append(f, p, q[1..]);
    } else {
      assert p + q[1..] == p;
    }
  }

  lemma ReachesTransitive(f: Forest, a: NodeId, b: NodeId, c: NodeId)
    requires Reaches(f, a, b) && Reaches(f, b, c)
    ensures Reaches(f, a, c)
  {
    var p :| IsChain(f, p) && p[0] == c && p[|p| - 1] == b;
    var q :| IsChain(f, q) && q[0] == b && q[|q| - 1] == a;
    Join(f, p, q);
  }

  /** On an acyclic forest "same or subtype" is an order, and the supertypes of a type form a line. */
  lemma SubtypeIsOrder(f: Forest, a: NodeId, b: NodeId)
    requires Acyclic(f) && Reaches(f, a, b) && Reaches(f, b, a)
    ensures a == b
  {
    var p :| IsChain(f, p) && p[0] == a && p[|p| - 1] == b;
    var q :| IsChain(f, q) && q[0] == b && q[|q| - 1] == a;
    var r := p + q[1..];
    Join(f, p, q);
    assert r[0] == a && r[|r| - 1] == a;
  }

  lemma {:induction false} SuperTypesAreComparable(f: Forest, a: NodeId, b: NodeId, t: NodeId, p: seq<NodeId>)
    requires IsChain(f, p) && p[0] == t && p[|p| - 1] == a && Reaches(f, b, t)
    ensures Reaches(f, a, b) || Reaches(f, b, a)
    decreases |p|
  {
    if b != t && |p| > 1 {
      ReachesStep(f, b, t);
      assert IsChain(f, p[1..]);
      SuperTypesAreComparable(f, a, b, p[1], p[1..]);
    }
  }

  /** The types a walk has not visited. */
  ghost function Unvisited(f: Forest, trail: seq<NodeId>): set<NodeId> {
    f.Keys - set x | x in trail
  }

  ghost predicate LeadsTo(f: Forest, trail: seq<NodeId>, t: NodeId) {
    trail != [] ==> IsChain(f, trail) && trail[|trail| - 1] in f && f[trail[|trail| - 1]] == t
  }

  lemma TrailGrows(f: Forest, trail: seq<NodeId>, t: NodeId)
    requires Acyclic(f) && LeadsTo(f, trail, t) && !IsNoType(t) && t in f
    ensures LeadsTo(f, trail + [t], f[t]) && Unvisited(f, trail + [t]) < Unvisited(f, trail)
  {
    if trail != [] {
      Append(f, trail, [t]);
    } else {
      assert trail + [t] == [t];
    }
    forall i | 0 <= i < |trail|
      ensures trail[i] != t
    {
      assert (trail + [t])[i] != (trail + [t])[|trail|];
    }
    assert t in Unvisited(f, trail) && t !in Unvisited(f, trail + [t]);
  }

  // ---------- the program ----------

  class TypeClient {
    const forest: Forest
    var superTypes: Forest

    ghost predicate Valid()
      reads this
    {
      && Acyclic(forest)
      && forall t :: t in superTypes ==> t in forest && superTypes[t] == forest[t]
    }

    constructor (forest: Forest)
      requires Acyclic(forest)
      ensures Valid() && this.forest == forest && superTypes == map[]
    {
      this.forest, superTypes := forest, map[];
    }

    /** `browseSuperType`; `failing` are the nodes the server gives a bad answer for now. */
    method BrowseSuperType(t: NodeId, failing: set<NodeId>) returns (r: Option<NodeId>)
      ensures r == if t in forest && t !in failing then Some(forest[t]) else None
    {
      if t !in forest || t in failing {
        return None;
      }
      return Some(forest[t]);
    }

    /** The walk of the program; `None` is an exception. The depth limit is passed on, and
        never looked at. The answer is the same for every content of the memo and every limit. */
    method Walk(expected: NodeId, check: NodeId, maxDepth: nat, failing: set<NodeId>, ghost trail: seq<NodeId>)
      returns (r: Option<bool>)
      requires Valid() && LeadsTo(forest, trail, check)
      modifies `superTypes
      ensures Valid() && old(superTypes.Keys) <= superTypes.Keys
      ensures r.None? <==> Blocked(forest, old(superTypes), failing, expected, check)
      ensures r.Some? ==> (r.value <==> Reaches(forest, expected, check))
      ensures SameStuck(forest, old(superTypes), superTypes, failing)
      decreases Unvisited(forest, trail)
    {
      ReachesStep(forest, expected, check);
      BlockedStep(forest, superTypes, failing, expected, check);
      if IsNoType(check) {
        return Some(false);
      }
      if expected == check {
        return Some(true);
      }
      var next := if maxDepth == 0 then SIZE_MAX else maxDepth - 1;
      if check in superTypes {
        TrailGrows(forest, trail, check);
        r := Walk(expected, superTypes[check], next, failing, trail + [check]);
      } else {
        var superType := BrowseSuperType(check, failing);
        if superType.None? {
          return None;
        }
        TrailGrows(forest, trail, check);
        MemoOfChild(forest, superTypes, failing, expected, check);
        superTypes := superTypes[check := superType.value];
        r := Walk(expected, superType.value, next, failing, trail + [check]);
      }
    }

    /** `isSameOrSubtype` as the rest of the program calls it: an exception means no. */
    method IsSameOrSubtype(expected: NodeId, check: NodeId, maxDepth: nat, failing: set<NodeId>) returns (r: bool)
      requires Valid()
      modifies `superTypes
      ensures Valid()
      ensures r <==> Reaches(forest, expected, check) && !Blocked(forest, old(superTypes), failing, expected, check)
      ensures SameStuck(forest, old(superTypes), superTypes, failing)
    {
      var o := Walk(expected, check, maxDepth, failing, []);
      return o.Some? && o.value;
    }
  }

  const SIZE_MAX := 0xFFFF_FFFF_FFFF_FFFF

  /** When nothing fails, the walk to a supertype that is reached is never blocked: the memo
      cannot be seen from outside. */
  lemma {:induction false} ReachedIsNotBlocked(f: Forest, memo: Forest, e: NodeId, t: NodeId, p: seq<NodeId>)
    requires IsChain(f, p) && p[0] == t && p[|p| - 1] == e
    ensures !Blocked(f, memo, {}, e, t)
    decreases |p|
  {
    BlockedStep(f, memo, {}, e, t);
    if e != t {
      assert |p| > 1;
      assert IsChain(f, p[1..]);
      ReachedIsNotBlocked(f, memo, e, p[1], p[1..]);
    }
  }

  lemma AnswerWithoutFailures(f: Forest, memo: Forest, e: NodeId, t: NodeId)
    ensures Reaches(f, e, t) && !Blocked(f, memo, {}, e, t) <==> Reaches(f, e, t)
  {
    if Reaches(f, e, t) {
      var p :| IsChain(f, p) && p[0] == t && p[|p| - 1] == e;
      ReachedIsNotBlocked(f, memo, e, t, p);
    }
  }

  // ---------- classifying machine types ----------

  /** The configured types that `t` is the same as or a subtype of. */
  ghost function Reached(f: Forest, configured: seq<NodeId>, t: NodeId): set<NodeId> {
    set e | e in configured && Reaches(f, e, t)
  }

  /** The first of `list` that is in `good`. */
  function FirstIn(list: seq<NodeId>, good: set<NodeId>): Option<NodeId> {
    if list == [] then None
    else
      var before := FirstIn(list[..|list| - 1], good);
      if before.Some? then before
      else if list[|list| - 1] in good then Some(list[|list| - 1])
      else None
  }

  /** The first configured type, in the order of the configuration, that `t` descends from. */
  ghost function FirstConfigured(f: Forest, configured: seq<NodeId>, t: NodeId): Option<NodeId> {
    FirstIn(configured, Reached(f, configured, t))
  }

  /** It is found at the earliest place that is good, and there is none exactly if no place is. */
  lemma {:induction false} FirstInIsFirst(list: seq<NodeId>, good: set<NodeId>)
    ensures FirstIn(list, good).None? <==> forall k :: 0 <= k < |list| ==> list[k] !in good
    ensures FirstIn(list, good).Some? ==>
              exists k :: 0 <= k < |list| && list[k] == FirstIn(list, good).value && list[k] in good &&
                          forall j :: 0 <= j < k ==> list[j] !in good
  {
    if list != [] {
      var front := list[..|list| - 1];
      FirstInIsFirst(front, good);
      if FirstIn(front, good).Some? {
        var k :| 0 <= k < |front| && front[k] == FirstIn(front, good).value && front[k] in good &&
                 forall j :: 0 <= j < k ==> front[j] !in good;
        assert list[k] == front[k] && forall j :: 0 <= j < k ==> list[j] == front[j];
      } else {
        assert forall k :: 0 <= k < |front| ==> list[k] == front[k];
      }
    }
  }

  lemma {:induction false} FirstInOfPrefix(list: seq<NodeId>, good: set<NodeId>, k: nat)
    requires k < |list| && FirstIn(list[..k], good).None? && list[k] in good
    ensures FirstIn(list, good) == Some(list[k])
    decreases |list|
  {
    var n := |list| - 1;
    if k < n {
      assert list[..n][..k] == list[..k];
      FirstInOfPrefix(list[..n], good, k);
    }
  }

  lemma FirstConfiguredIsReached(f: Forest, configured: seq<NodeId>, t: NodeId)
    ensures var first := FirstConfigured(f, configured, t);
            if first.None? then forall e :: e in configured ==> !Reaches(f, e, t)
            else first.value in configured && Reaches(f, first.value, t)
  {
    FirstInIsFirst(configured, Reached(f, configured, t));
    forall e | e in configured && FirstConfigured(f, configured, t).None?
      ensures !Reaches(f, e, t)
    {
      var k :| 0 <= k < |configured| && configured[k] == e;
      assert configured[k] !in Reached(f, configured, t);
    }
  }

  /** What a machine of type `t` is treated as. */
  ghost function Classified(f: Forest, configured: seq<NodeId>, t: NodeId): NodeId {
    var first := FirstConfigured(f, configured, t);
    if t in configured || first.None? then t else first.value
  }

  /** What the memo holds for a type when nothing failed. */
  ghost function MemoOf(f: Forest, configured: seq<NodeId>, t: NodeId): NodeId {
    var first := FirstConfigured(f, configured, t);
    if t in configured then t else if first.None? then UNDEFINED_TYPE else first.value
  }

  /** The classification is configured exactly if some configured type is reached, and
      classifying again changes nothing. */
  lemma ClassifiedIsConfiguredIff(f: Forest, configured: seq<NodeId>, t: NodeId)
    requires !IsNoType(t)
    ensures Classified(f, configured, t) in configured <==> exists e :: e in configured && Reaches(f, e, t)
    ensures Classified(f, configured, Classified(f, configured, t)) == Classified(f, configured, t)
  {
    ReachesStep(f, t, t);
    FirstConfiguredIsReached(f, configured, t);
  }

  /** What the memo may hold for a type after any history: no type is ever taken for one that
      it does not descend from. */
  ghost predicate Plausible(f: Forest, configured: seq<NodeId>, t: NodeId, base: NodeId) {
    if t in configured then base == t else base == UNDEFINED_TYPE || (base in configured && Reaches(f, base, t))
  }

  /** What a remembered base makes of type `t`. */
  function Used(base: NodeId, t: NodeId): NodeId {
    if Same(base, UNDEFINED_TYPE) then t else base
  }

  /** A remembered base is used right exactly if it is the one an exact memo holds. */
  lemma UseOfMemo(f: Forest, configured: seq<NodeId>, t: NodeId, base: NodeId)
    requires Plausible(f, configured, t, base)
    ensures Used(base, t) == t || (Used(base, t) in configured && Reaches(f, Used(base, t), t))
    ensures Used(base, t) == Classified(f, configured, t) <==> base == MemoOf(f, configured, t)
  {
    FirstConfiguredIsReached(f, configured, t);
    if Reaches(f, base, t) {
      ReachedIsType(f, base, t);
    }
    if Reaches(f, MemoOf(f, configured, t), t) {
      ReachedIsType(f, MemoOf(f, configured, t), t);
    }
  }

  // ---------- lookups that fail ----------

  /** The configured types that the walk from `t` gets to. */
  ghost function Free(f: Forest, configured: seq<NodeId>, memo: Forest, failing: set<NodeId>, t: NodeId): set<NodeId> {
    set e | e in configured && Reaches(f, e, t) && !Blocked(f, memo, failing, e, t)
  }

  /** What the lookup finds while the nodes of `failing` cannot be browsed. */
  ghost function FirstFree(f: Forest, configured: seq<NodeId>, memo: Forest, failing: set<NodeId>, t: NodeId): Option<NodeId> {
    FirstIn(configured, Free(f, configured, memo, failing, t))
  }

  lemma {:induction false} FirstInOfLess(list: seq<NodeId>, good: set<NodeId>, fewer: set<NodeId>)
    requires fewer <= good
    ensures FirstIn(list, fewer) == FirstIn(list, good) <==>
            FirstIn(list, good).None? || FirstIn(list, good).value in fewer
  {
    if list != [] {
      var front := list[..|list| - 1];
      FirstInOfLess(front, good, fewer);
      FirstInIsFirst(front, good);
      FirstInIsFirst(front, fewer);
    }
  }

  /** Failures go unnoticed exactly if the walk to the first configured ancestor is free: the
      failing nodes may lie anywhere else, below other types or above that ancestor. */
  lemma FoundDespiteFailuresIff(f: Forest, configured: seq<NodeId>, memo: Forest, failing: set<NodeId>, t: NodeId)
    ensures var first := FirstConfigured(f, configured, t);
            FirstFree(f, configured, memo, failing, t) == first <==>
            first.None? || !Blocked(f, memo, failing, first.value, t)
  {
    FirstInOfLess(configured, Reached(f, configured, t), Free(f, configured, memo, failing, t));
    FirstConfiguredIsReached(f, configured, t);
  }

  lemma FirstFreeIsReached(f: Forest, configured: seq<NodeId>, memo: Forest, failing: set<NodeId>, t: NodeId)
    ensures var first := FirstFree(f, configured, memo, failing, t);
            first.Some? ==> first.value in configured && Reaches(f, first.value, t)
  {
    FirstInIsFirst(configured, Free(f, configured, memo, failing, t));
  }

  lemma FreeWithoutFailures(f: Forest, configured: seq<NodeId>, memo: Forest, t: NodeId)
    ensures FirstFree(f, configured, memo, {}, t) == FirstConfigured(f, configured, t)
  {
    forall e
      ensures e in Free(f, configured, memo, {}, t) <==> e in Reached(f, configured, t)
    {
      AnswerWithoutFailures(f, memo, e, t);
    }
    assert Free(f, configured, memo, {}, t) == Reached(f, configured, t);
  }

  lemma ChainOfThree(f: Forest, a: NodeId, m: NodeId, b: NodeId)
    requires a in f && m in f && f[a] == m && f[m] == b && !IsNoType(a) && !IsNoType(m) && !IsNoType(b)
    ensures Reaches(f, b, a)
  {
    ReachesStep(f, b, b);
    ReachesStep(f, b, m);
    ReachesStep(f, b, a);
  }

  lemma BlockedAtSecond(f: Forest, failing: set<NodeId>, a: NodeId, m: NodeId, b: NodeId)
    requires a in f && a !in failing && m in failing && f[a] == m && b != a && b != m && !IsNoType(a) && !IsNoType(m)
    ensures Blocked(f, map[], failing, b, a)
  {
    BlockedStep(f, map[], failing, b, m);
    BlockedStep(f, map[], failing, b, a);
  }

  lemma FirstInOfOne(e: NodeId, good: set<NodeId>)
    ensures FirstIn([e], good) == if e in good then Some(e) else None
  {
    assert [e][..0] == [];
  }

  /** A type that can be browsed under a supertype that cannot is not found to be configured,
      although it descends from a configured type. */
  lemma FailureHides(f: Forest, a: NodeId, m: NodeId, b: NodeId)
    requires a in f && m in f && f[a] == m && f[m] == b
    requires a != m && m != b && a != b && !IsNoType(a) && !IsNoType(m) && !IsNoType(b)
    ensures FirstFree(f, [b], map[], {m}, a) == None && Classified(f, [b], a) == b
  {
    ChainOfThree(f, a, m, b);
    BlockedAtSecond(f, {m}, a, m, b);
    FirstInOfOne(b, Free(f, [b], map[], {m}, a));
    FirstInOfOne(b, Reached(f, [b], a));
  }

  /** One such input. */
  lemma FailureHidesConfiguredType()
    ensures var a, m, b := NodeId("a", "i=1"), NodeId("m", "i=1"), NodeId("b", "i=1");
            var f: Forest := map[a := m, m := b];
            FirstFree(f, [b], map[], {m}, a) == None && Classified(f, [b], a) == b
  {
    assert "a"[0] == 'a' && "m"[0] == 'm' && "b"[0] == 'b' && |NS0_URI| > 1;
    FailureHides(map[NodeId("a", "i=1") := NodeId("m", "i=1"), NodeId("m", "i=1") := NodeId("b", "i=1")],
                 NodeId("a", "i=1"), NodeId("m", "i=1"), NodeId("b", "i=1"));
  }

  /** What the memo holds and what is answered for a type that is met for the first time. */
  lemma FirstMeeting(f: Forest, configured: seq<NodeId>, memo: Forest, failing: set<NodeId>, t: NodeId)
    requires t !in configured
    ensures var found := FirstFree(f, configured, memo, failing, t);
            var base, r := if found.Some? then found.value else UNDEFINED_TYPE, if found.Some? then found.value else t;
            && Plausible(f, configured, t, base) && (r == t || (r in configured && Reaches(f, r, t)))
            && (r == Classified(f, configured, t) <==> found == FirstConfigured(f, configured, t))
            && (failing == {} ==> base == MemoOf(f, configured, t) && r == Classified(f, configured, t))
  {
    FirstConfiguredIsReached(f, configured, t);
    FirstFreeIsReached(f, configured, memo, failing, t);
    if failing == {} {
      FreeWithoutFailures(f, configured, memo, t);
    }
  }

  class Classifier {
    const configured: seq<NodeId>
    const client: TypeClient
    var memo: map<NodeId, NodeId>

    ghost predicate Valid()
      reads this, client
    {
      && client.Valid()
      && (forall t :: t in configured ==> t in memo)
      && (forall t :: t in memo ==> Plausible(client.forest, configured, t, memo[t]))
    }

    /** Holds as long as no lookup failed. */
    ghost predicate Exact()
      reads this
    {
      forall t :: t in memo ==> memo[t] == MemoOf(client.forest, configured, t)
    }

    constructor (configured: seq<NodeId>, client: TypeClient)
      requires client.Valid()
      ensures Valid() && Exact() && this.configured == configured && this.client == client
    {
      this.configured, this.client := configured, client;
      memo := map t | t in configured :: t;
    }

    /** Tries the configured types in order. */
    method FindBase(t: NodeId, failing: set<NodeId>) returns (r: Option<NodeId>)
      requires client.Valid()
      modifies client
      ensures client.Valid()
      ensures r == FirstFree(client.forest, configured, old(client.superTypes), failing, t)
    {
      ghost var start := client.superTypes;
      ghost var good := Free(client.forest, configured, start, failing, t);
      for k := 0 to |configured|
        invariant client.Valid() && SameStuck(client.forest, start, client.superTypes, failing)
        invariant FirstIn(configured[..k], good).None?
      {
        assert configured[..k + 1][..k] == configured[..k];
        SameBlocked(client.forest, start, client.superTypes, failing, configured[k], t);
        var same := client.IsSameOrSubtype(configured[k], t, 3, failing);
        if same {
          FirstInOfPrefix(configured, good, k);
          return Some(configured[k]);
        }
      }
      assert configured[..|configured|] == configured;
      return None;
    }

    /** A type that is not in the memo. */
    method Meet(t: NodeId, failing: set<NodeId>) returns (r: NodeId)
      requires client.Valid() && t !in memo
      modifies `memo, client
      ensures client.Valid()
      ensures var found := FirstFree(client.forest, configured, old(client.superTypes), failing, t);
              && memo == old(memo)[t := if found.Some? then found.value else UNDEFINED_TYPE]
              && r == (if found.Some? then found.value else t)
    {
      r := t;
      memo := memo[t := UNDEFINED_TYPE];
      var base := FindBase(t, failing);
      if base.Some? {
        memo := memo[t := base.value];
        r := base.value;
      }
    }

    /** The lookup of `browseForMachines`. A type met for the first time is remembered under
        the first configured type its walk gets to; the answer is the classification exactly if
        that is the first configured ancestor, and stays what it was from then on. */
    method Classify(t: NodeId, failing: set<NodeId>) returns (r: NodeId)
      requires Valid()
      modifies `memo, client
      ensures Valid()
      ensures r == t || (r in configured && Reaches(client.forest, r, t))
      ensures t in old(memo) ==> memo == old(memo) && r == Used(memo[t], t)
      ensures t in old(memo) ==> (r == Classified(client.forest, configured, t) <==> memo[t] == MemoOf(client.forest, configured, t))
      ensures t !in old(memo) ==>
                var found := FirstFree(client.forest, configured, old(client.superTypes), failing, t);
                && memo == old(memo)[t := if found.Some? then found.value else UNDEFINED_TYPE]
                && r == (if found.Some? then found.value else t)
                && (r == Classified(client.forest, configured, t) <==> found == FirstConfigured(client.forest, configured, t))
      ensures old(Exact()) && failing == {} ==> Exact() && r == Classified(client.forest, configured, t)
    {
      if t !in memo {
        FirstMeeting(client.forest, configured, client.superTypes, failing, t);
        r := Meet(t, failing);
      } else {
        UseOfMemo(client.forest, configured, t, memo[t]);
        r := Used(memo[t], t);
      }
    }
  }
}
