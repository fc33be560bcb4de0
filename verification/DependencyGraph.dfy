/** The depth-first topological sort of the type dictionary (`DependecyGraph`). */
module DependencyGraph {

  // ---------- graphs and orders ----------

  /** The edge list of a vertex; an absent key reads as the empty list. */
  function Out<T(==)>(adj: map<T, seq<T>>, v: T): seq<T> {
    if v in adj then adj[v] else []
  }

  /** Consecutive vertices are joined by edges. */
  ghost predicate IsTrail<T>(adj: map<T, seq<T>>, p: seq<T>) {
    forall i :: 0 <= i < |p| - 1 ==> p[i + 1] in Out(adj, p[i])
  }

  ghost predicate Acyclic<T(!new)>(adj: map<T, seq<T>>) {
    forall p: seq<T> :: |p| >= 2 && IsTrail(adj, p) ==> p[0] != p[|p| - 1]
  }

  ghost predicate Distinct<T>(s: seq<T>) {
    forall i, j :: 0 <= i < j < |s| ==> s[i] != s[j]
  }

  ghost predicate AllIn<T>(xs: seq<T>, s: seq<T>) {
    forall k :: 0 <= k < |xs| ==> xs[k] in s
  }

  /** Every target of an edge lies below (before) the source. */
  ghost predicate Ordered<T>(adj: map<T, seq<T>>, stack: seq<T>) {
    stack == [] ||
    (Ordered(adj, stack[..|stack| - 1]) && AllIn(Out(adj, stack[|stack| - 1]), stack[..|stack| - 1]))
  }

  lemma {:induction false} OrderedAt<T>(adj: map<T, seq<T>>, stack: seq<T>, i: nat)
    requires Ordered(adj, stack) && i < |stack|
    ensures AllIn(Out(adj, stack[i]), stack[..i])
  {
    if i < |stack| - 1 {
      OrderedAt(adj, stack[..|stack| - 1], i);
      assert stack[..|stack| - 1][..i] == stack[..i];
    }
  }

  lemma OrderedGrows<T>(adj: map<T, seq<T>>, stack: seq<T>, v: T)
    requires Ordered(adj, stack) && AllIn(Out(adj, v), stack)
    ensures Ordered(adj, stack + [v])
  {
    assert (stack + [v])[..|stack|] == stack;
  }

  lemma ExtendTrail<T>(adj: map<T, seq<T>>, trail: seq<T>, w: T)
    requires trail != [] && IsTrail(adj, trail) && w in Out(adj, trail[|trail| - 1])
    ensures IsTrail(adj, trail + [w])
  {
  }

  /** An edge back into the trail closes a cycle. */
  lemma BackEdgeIsACycle<T(!new)>(adj: map<T, seq<T>>, trail: seq<T>, w: T)
    requires trail != [] && IsTrail(adj, trail) && w in Out(adj, trail[|trail| - 1]) && w in trail
    ensures !Acyclic(adj)
  {
    var k :| 0 <= k < |trail| && trail[k] == w;
    var p := trail[k..] + [w];
    assert IsTrail(adj, p) by {
      forall i | 0 <= i < |p| - 1
        ensures p[i + 1] in Out(adj, p[i])
      {
        assert p[i] == trail[k + i];
        if i + 1 < |trail| - k {
          assert p[i + 1] == trail[k + i + 1];
        }
      }
    }
    assert p[0] == p[|p| - 1];
  }

  // ---------- the partner: an order exists only on acyclic graphs ----------

  lemma {:induction false} TrailGoesDown<T>(adj: map<T, seq<T>>, stack: seq<T>, p: seq<T>, k: nat)
    requires Ordered(adj, stack) && Distinct(stack) && |p| >= 2 && IsTrail(adj, p) && k < |stack| && stack[k] == p[0]
    ensures p[|p| - 1] in stack[..k]
    decreases |p|
  {
    OrderedAt(adj, stack, k);
    assert p[1] in Out(adj, stack[k]);
    var j :| 0 <= j < k && stack[j] == p[1];
    if |p| > 2 {
      var q := p[1..];
      forall i | 0 <= i < |q| - 1
        ensures q[i + 1] in Out(adj, q[i])
      {
        assert p[i + 1 + 1] in Out(adj, p[i + 1]);
      }
      TrailGoesDown(adj, stack, q, j);
      assert q[|q| - 1] == p[|p| - 1];
      assert stack[..j] <= stack[..k];
      var m :| 0 <= m < |stack[..j]| && stack[..j][m] == p[|p| - 1];
      assert stack[..k][m] == stack[m];
    } else {
      assert stack[..k][j] == p[1];
    }
  }

  /** If the stack orders every vertex that has edges, there is no cycle. */
  lemma OrderedIsAcyclic<T(!new)>(adj: map<T, seq<T>>, stack: seq<T>)
    requires Ordered(adj, stack) && Distinct(stack) && forall v :: v in adj ==> v in stack
    ensures Acyclic(adj)
  {
    forall p: seq<T> | |p| >= 2 && IsTrail(adj, p)
      ensures p[0] != p[|p| - 1]
    {
      assert p[1] in Out(adj, p[0]);
      var k :| 0 <= k < |stack| && stack[k] == p[0];
      TrailGoesDown(adj, stack, p, k);
      var m :| 0 <= m < |stack[..k]| && stack[..k][m] == p[|p| - 1];
      assert stack[m] == p[|p| - 1] && m < k;
    }
  }

  // ---------- the program ----------

  class Graph<T(!new,==)> {
    var adj: map<T, seq<T>>
    var visited: map<T, bool>
    /** Pushed at the end; the top is the last element. */
    var resultStack: seq<T>

    ghost predicate Valid()
      reads this
    {
      && adj.Keys <= visited.Keys
      && (forall v, i :: v in adj && 0 <= i < |adj[v]| ==> adj[v][i] in visited)
    }

    /** No sort has run since the edges were added. */
    ghost predicate Unsorted()
      reads this
    {
      resultStack == [] && forall v :: v in visited ==> !visited[v]
    }

    ghost function Unvisited(): set<T>
      reads this
    {
      set v | v in visited && !visited[v]
    }

    constructor ()
      ensures Valid() && Unsorted() && adj == map[] && visited == map[]
    {
      adj, visited, resultStack := map[], map[], [];
    }

    method AddEdge(v: T, w: T)
      requires Valid()
      modifies `adj, `visited
      ensures Valid() && adj == old(adj)[v := Out(old(adj), v) + [w]]
      ensures visited == old(visited)[v := false][w := false]
      ensures old(Unsorted()) ==> Unsorted()
    {
      adj := adj[v := Out(adj, v) + [w]];
      visited := visited[v := false];
      visited := visited[w := false];
    }

    /** In the middle of a sort: `trail` holds the vertices that are visited but not yet pushed. */
    ghost predicate Sorting(trail: seq<T>)
      reads this
    {
      && Valid() && Distinct(resultStack) && (Acyclic(adj) ==> Ordered(adj, resultStack))
      && (forall x :: x in visited && visited[x] <==> x in trail || x in resultStack)
      && (forall x :: x in trail ==> x !in resultStack)
    }

    method TopologicalSortUtil(v: T, ghost trail: seq<T>)
      requires Sorting(trail) && v in visited && !visited[v] && IsTrail(adj, trail + [v])
      modifies `visited, `resultStack
      ensures Sorting(trail) && visited.Keys == old(visited.Keys) && Unvisited() < old(Unvisited())
      ensures old(resultStack) <= resultStack && v in resultStack
      decreases Unvisited(), 1
    {
      Enter(v, trail);
      VisitTargets(v, trail + [v]);
      Push(v, trail);
    }

    /** The loop over the edges of the last vertex of the trail. */
    method VisitTargets(v: T, ghost here: seq<T>)
      requires Sorting(here) && here != [] && IsTrail(adj, here) && here[|here| - 1] == v
      modifies `visited, `resultStack
      ensures Sorting(here) && visited.Keys == old(visited.Keys) && Unvisited() <= old(Unvisited())
      ensures old(resultStack) <= resultStack && (Acyclic(adj) ==> AllIn(Out(adj, v), resultStack))
      decreases Unvisited(), 3
    {
      var out := Out(adj, v);
      for i := 0 to |out|
        invariant Sorting(here) && visited.Keys == old(visited.Keys) && Unvisited() <= old(Unvisited())
        invariant old(resultStack) <= resultStack
        invariant Acyclic(adj) ==> AllIn(out[..i], resultStack)
      {
        VisitTarget(out[i], here);
        assert out[..i + 1] == out[..i] + [out[i]];
      }
      assert out[..|out|] == out;
    }

    method Enter(v: T, ghost trail: seq<T>)
      requires Sorting(trail) && v in visited && !visited[v]
      modifies `visited
      ensures Sorting(trail + [v]) && v !in trail && visited.Keys == old(visited.Keys)
      ensures Unvisited() < old(Unvisited())
    {
      assert v in Unvisited();
      visited := visited[v := true];
      assert v !in Unvisited();
    }

    /** One iteration of it. */
    method VisitTarget(w: T, ghost here: seq<T>)
      requires Sorting(here) && here != [] && IsTrail(adj, here) && w in Out(adj, here[|here| - 1]) && w in visited
      modifies `visited, `resultStack
      ensures Sorting(here) && visited.Keys == old(visited.Keys) && Unvisited() <= old(Unvisited())
      ensures old(resultStack) <= resultStack && (Acyclic(adj) ==> w in resultStack)
      decreases Unvisited(), 2
    {
      if !visited[w] {
        ExtendTrail(adj, here, w);
        TopologicalSortUtil(w, here);
      } else if w in here {
        BackEdgeIsACycle(adj, here, w);
      }
    }

    method Push(v: T, ghost trail: seq<T>)
      requires Sorting(trail + [v]) && v !in trail
      requires Acyclic(adj) ==> AllIn(Out(adj, v), resultStack)
      modifies `resultStack
      ensures Sorting(trail) && resultStack == old(resultStack) + [v]
    {
      assert v in trail + [v];
      if Acyclic(adj) {
        OrderedGrows(adj, resultStack, v);
      }
      resultStack := resultStack + [v];
      assert forall x :: x in trail ==> x in trail + [v];
    }

    /** After the first sort the stack holds every vertex once; sources lie above their
        targets exactly if the graph has no cycle. Terminates on every graph. */
    method TopologicalSort()
      requires Valid() && Unsorted()
      modifies `visited, `resultStack
      ensures Valid() && visited.Keys == old(visited.Keys)
      ensures Distinct(resultStack) && forall x :: x in visited <==> x in resultStack
      ensures Acyclic(adj) <==> Ordered(adj, resultStack)
    {
      var rest := visited.Keys;
      while rest != {}
        invariant Sorting([]) && visited.Keys == old(visited.Keys) && rest <= visited.Keys
        invariant forall x :: x in visited.Keys - rest ==> visited[x]
        decreases rest
      {
        var v :| v in rest;
        if !visited[v] {
          TopologicalSortUtil(v, []);
        }
        rest := rest - {v};
      }
      if Ordered(adj, resultStack) {
        OrderedIsAcyclic(adj, resultStack);
      }
    }
  }
}
