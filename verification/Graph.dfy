/**
 * Dependency graphs and the depth-first cycle search both engines run over them: a visited set, a
 * recursion stack and the path from the root.
 */
module Graph {

  /** Each known node with the nodes it depends on; unknown nodes depend on nothing. */
  type Adjacency = map<string, seq<string>>

  function Parents(adj: Adjacency, node: string): seq<string> {
    if node in adj then adj[node] else []
  }

  ghost predicate Walk(adj: Adjacency, p: seq<string>) {
    |p| >= 1 && forall i | 0 <= i < |p| - 1 :: p[i + 1] in Parents(adj, p[i])
  }

  /** A walk of at least one edge. */
  ghost predicate Reaches(adj: Adjacency, from: string, to: string) {
    exists p :: Walk(adj, p) && |p| >= 2 && p[0] == from && p[|p| - 1] == to
  }

  ghost predicate Acyclic(adj: Adjacency) {
    forall n :: !Reaches(adj, n, n)
  }

  lemma WalksJoin(adj: Adjacency, p: seq<string>, q: seq<string>)
    requires Walk(adj, p) && Walk(adj, q) && p[|p| - 1] == q[0]
    ensures Walk(adj, p + q[1..])
  {
    var r := p + q[1..];
    forall i | 0 <= i < |r| - 1 ensures r[i + 1] in Parents(adj, r[i]) {
      if i >= |p| - 1 {
        assert r[i] == q[i - (|p| - 1)] && r[i + 1] == q[i + 1 - (|p| - 1)];
      }
    }
  }

  lemma ReachesTransitive(adj: Adjacency, a: string, b: string, c: string)
    requires Reaches(adj, a, b) && Reaches(adj, b, c)
    ensures Reaches(adj, a, c)
  {
    var p :| Walk(adj, p) && |p| >= 2 && p[0] == a && p[|p| - 1] == b;
    var q :| Walk(adj, q) && |q| >= 2 && q[0] == b && q[|q| - 1] == c;
    WalksJoin(adj, p, q);
  }

  /** Each node of a walk reaches the later ones. */
  lemma SubWalk(adj: Adjacency, p: seq<string>, i: nat, j: nat)
    requires Walk(adj, p) && i < j < |p|
    ensures Reaches(adj, p[i], p[j])
  {
    var q := p[i..j + 1];
    forall k | 0 <= k < |q| - 1 ensures q[k + 1] in Parents(adj, q[k]) {
      assert p[i + k + 1] in Parents(adj, p[i + k]);
    }
    assert Walk(adj, q);
  }

  /** A set that contains the parents of its members contains everything its members reach. */
  ghost predicate Closed(adj: Adjacency, s: set<string>) {
    forall n, m | n in s && m in Parents(adj, n) :: m in s
  }

  lemma {:induction false} ClosedWalk(adj: Adjacency, s: set<string>, p: seq<string>, i: nat)
    requires Closed(adj, s) && Walk(adj, p) && p[0] in s && i < |p|
    ensures p[i] in s
  {
    if i > 0 {
      ClosedWalk(adj, s, p, i - 1);
      assert p[i - 1 + 1] in Parents(adj, p[i - 1]);
    }
  }

  /** A node whose parents all lie in a closed set that does not contain it is on no cycle. */
  lemma NotOnCycle(adj: Adjacency, s: set<string>, node: string)
    requires Closed(adj, s) && node !in s && forall m | m in Parents(adj, node) :: m in s
    ensures !Reaches(adj, node, node)
  {
    if Reaches(adj, node, node) {
      var p :| Walk(adj, p) && |p| >= 2 && p[0] == node && p[|p| - 1] == node;
      var q := p[1..];
      assert p[0 + 1] in Parents(adj, p[0]);
      forall i | 0 <= i < |q| - 1 ensures q[i + 1] in Parents(adj, q[i]) {
        assert p[i + 1 + 1] in Parents(adj, p[i + 1]);
      }
      ClosedWalk(adj, s, q, |q| - 1);
    }
  }

  lemma {:induction false} Pigeonhole(p: seq<string>, s: set<string>)
    requires |p| > |s| && forall x | x in p :: x in s
    ensures exists i: nat, j: nat :: i < j < |p| && p[i] == p[j]
  {
    var last := |p| - 1;
    if i: nat :| i < last && p[i] == p[last] {
    } else {
      var rest := s - {p[last]};
      assert s == rest + {p[last]};
      forall x | x in p[..last] ensures x in rest {
        var i: nat :| i < last && p[..last][i] == x;
        assert p[i] != p[last];
      }
      Pigeonhole(p[..last], rest);
      var i: nat, j: nat :| i < j < last && p[..last][i] == p[..last][j];
      assert p[i] == p[j];
    }
  }

  lemma WalkExtends(adj: Adjacency, q: seq<string>, y: string)
    requires Walk(adj, q) && y in Parents(adj, q[|q| - 1])
    ensures Walk(adj, q + [y])
  {
    var p := q + [y];
    forall i | 0 <= i < |p| - 1 ensures p[i + 1] in Parents(adj, p[i]) {
      if i < |q| - 1 {
        assert q[i + 1] in Parents(adj, q[i]);
      }
    }
  }

  ghost predicate HasParentIn(adj: Adjacency, s: set<string>, x: string) {
    exists y :: y in s && y in Parents(adj, x)
  }

  ghost predicate WalkWithin(adj: Adjacency, s: set<string>, p: seq<string>) {
    Walk(adj, p) && forall x | x in p :: x in s
  }

  lemma WalkWithinExtends(adj: Adjacency, s: set<string>, q: seq<string>) returns (p: seq<string>)
    requires WalkWithin(adj, s, q) && HasParentIn(adj, s, q[|q| - 1])
    ensures WalkWithin(adj, s, p) && |p| == |q| + 1
  {
    var y :| y in s && y in Parents(adj, q[|q| - 1]);
    WalkExtends(adj, q, y);
    p := q + [y];
  }

  lemma {:induction false} LongWalk(adj: Adjacency, s: set<string>, start: string, n: nat) returns (p: seq<string>)
    requires start in s && forall x | x in s :: HasParentIn(adj, s, x)
    ensures WalkWithin(adj, s, p) && |p| == n + 1
  {
    if n == 0 {
      p := [start];
    } else {
      var q := LongWalk(adj, s, start, n - 1);
      assert q[|q| - 1] in q;
      p := WalkWithinExtends(adj, s, q);
    }
  }

  /** Descending forever inside a finite set is only possible along a cycle. */
  lemma EndlessDescentIsCycle(adj: Adjacency, s: set<string>)
    requires s != {} && forall x | x in s :: HasParentIn(adj, s, x)
    ensures !Acyclic(adj)
  {
    var start :| start in s;
    var p := LongWalk(adj, s, start, |s|);
    Pigeonhole(p, s);
    var i: nat, j: nat :| i < j < |p| && p[i] == p[j];
    SubWalk(adj, p, i, j);
  }

  // ---------------------------------------------------------------- the search

  ghost function Nodes(adj: Adjacency): set<string> {
    adj.Keys + set n, m | n in adj && m in adj[n] :: m
  }

  lemma ParentIsNode(adj: Adjacency, n: string, m: string)
    requires m in Parents(adj, n)
    ensures n in Nodes(adj) && m in Nodes(adj)
  {
    assert m in adj[n];
  }

  /**
   * The state of a search: the path is a walk without repetition over the nodes on the recursion
   * stack, and the nodes already finished reach only finished nodes and lie on no cycle.
   */
  ghost predicate SearchState(adj: Adjacency, visited: set<string>, recStack: set<string>, path: seq<string>) {
    && visited <= Nodes(adj) && recStack <= visited
    && (path == [] || Walk(adj, path))
    && (forall n :: n in recStack <==> n in path)
    && (forall i, j | 0 <= i < j < |path| :: path[i] != path[j])
    && Closed(adj, visited - recStack)
    && (forall n | n in visited - recStack :: !Reaches(adj, n, n))
  }

  lemma PushKeepsState(adj: Adjacency, visited: set<string>, recStack: set<string>, path: seq<string>, node: string)
    requires SearchState(adj, visited, recStack, path) && node !in visited && node in Nodes(adj)
    requires path == [] || node in Parents(adj, path[|path| - 1])
    ensures SearchState(adj, visited + {node}, recStack + {node}, path + [node])
    ensures (visited + {node}) - (recStack + {node}) == visited - recStack
  {
    assert (visited + {node}) - (recStack + {node}) == visited - recStack;
    if path != [] {
      WalkExtends(adj, path, node);
    }
  }

  lemma PopKeepsState(adj: Adjacency, visited: set<string>, recStack: set<string>, path: seq<string>, node: string)
    requires SearchState(adj, visited, recStack + {node}, path + [node]) && node !in recStack
    requires forall m | m in Parents(adj, node) :: m in visited - (recStack + {node})
    ensures SearchState(adj, visited, recStack, path)
  {
    var done := visited - (recStack + {node});
    NotOnCycle(adj, done, node);
    assert visited - recStack == done + {node};
    var longer := path + [node];
    assert forall i | 0 <= i < |path| :: longer[i] == path[i];
    if path != [] {
      forall i | 0 <= i < |path| - 1 ensures path[i + 1] in Parents(adj, path[i]) {
        assert longer[i + 1] in Parents(adj, longer[i]);
      }
    }
    forall n ensures n in recStack <==> n in path {
      assert n in longer <==> n in path || n == node;
      assert longer[|path|] == node;
    }
  }

  class CycleSearch {
    const adj: Adjacency
    var visited: set<string>
    var recStack: set<string>
    var path: seq<string>

    constructor (adj: Adjacency)
      ensures this.adj == adj && visited == {} && recStack == {} && path == []
    {
      this.adj := adj;
      visited, recStack, path := {}, {}, [];
    }

    ghost predicate Valid()
      reads this
    {
      SearchState(adj, visited, recStack, path)
    }

    /** The path is a walk whose last node has been on it before. */
    ghost predicate PathShowsCycle()
      reads this
    {
      Walk(adj, path) && exists i :: 0 <= i < |path| - 1 && path[i] == path[|path| - 1]
    }

    lemma CycleFound()
      requires PathShowsCycle()
      ensures !Acyclic(adj)
    {
      var i :| 0 <= i < |path| - 1 && path[i] == path[|path| - 1];
      SubWalk(adj, path, i, |path| - 1);
    }

    /** The path runs into a node on the recursion stack. */
    method CloseCycle(parent: string)
      requires Valid() && path != [] && parent in recStack && parent in Parents(adj, path[|path| - 1])
      modifies this`path
      ensures path == old(path) + [parent] && PathShowsCycle()
    {
      WalkExtends(adj, path, parent);
      ghost var k :| 0 <= k < |path| && path[k] == parent;
      path := path + [parent];
      assert path[k] == path[|path| - 1];
    }

    method CheckCycle(node: string) returns (found: bool)
      requires Valid() && node !in visited && node in Nodes(adj)
      requires path == [] || node in Parents(adj, path[|path| - 1])
      modifies this
      ensures found ==> PathShowsCycle() && old(path) + [node] <= path
      ensures !found ==> Valid() && path == old(path) && recStack == old(recStack)
      ensures !found ==> old(visited) <= visited && node in visited
      decreases Nodes(adj) - visited, 0
    {
      ghost var stack, onStack := path, recStack;
      PushKeepsState(adj, visited, recStack, path, node);
      visited := visited + {node};
      recStack := recStack + {node};
      path := path + [node];
      var parents := Parents(adj, node);
      for i := 0 to |parents|
        invariant Valid() && path == stack + [node] && recStack == onStack + {node}
        invariant old(visited) + {node} <= visited
        invariant forall k | 0 <= k < i :: parents[k] in visited - recStack
      {
        var cyclic := VisitParent(parents[i]);
        if cyclic {
          return true;
        }
      }
      PopKeepsState(adj, visited, onStack, stack, node);
      recStack := recStack - {node};
      path := path[..|path| - 1];
      assert recStack == onStack && path == stack;
      return false;
    }

    /** The loop body: search on from a parent not seen yet, or close a cycle through one on the stack. */
    method VisitParent(parent: string) returns (found: bool)
      requires Valid() && path != [] && parent in Parents(adj, path[|path| - 1])
      modifies this
      ensures found ==> PathShowsCycle() && old(path) <= path
      ensures !found ==> Valid() && path == old(path) && recStack == old(recStack)
      ensures !found ==> old(visited) <= visited && parent in visited - recStack
      decreases Nodes(adj) - visited, 1
    {
      ParentIsNode(adj, path[|path| - 1], parent);
      found := false;
      if parent !in visited {
        found := CheckCycle(parent);
      } else if parent in recStack {
        CloseCycle(parent);
        found := true;
      }
    }
  }
}
