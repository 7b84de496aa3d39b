/**
 * `depth_first_solve` of puzzle_tools.py: a recursive search that records a
 * configuration's key when it enters it, and collapses the tree onto the
 * first (and every later) solved node it enters.
 */
module DepthFirst {
  import opened Common
  import opened Puzzles
  import opened SearchTree

  /**
   * The successor list a call builds once, before recursing:
   * the extensions whose key is not visited yet and which do not fail fast.
   */
  function Unvisited<P(==)>(c: Contract<P>, ps: seq<P>, visited: set<string>): (r: seq<P>)
    ensures forall k | 0 <= k < |r| :: r[k] in ps && c.key(r[k]) !in visited && !c.failFast(r[k])
    ensures forall k | 0 <= k < |ps| && c.key(ps[k]) !in visited && !c.failFast(ps[k]) :: ps[k] in r
    ensures |r| <= |ps|
  {
    if ps == [] then []
    else (if c.key(ps[0]) !in visited && !c.failFast(ps[0]) then [ps[0]] else []) + Unvisited(c, ps[1..], visited)
  }

  /** Each configuration kept occurs as often among the successors as among the extensions; the others not at all. */
  lemma {:induction false} UnvisitedCounts<P>(c: Contract<P>, ps: seq<P>, visited: set<string>)
    ensures forall x :: multiset(Unvisited(c, ps, visited))[x] == (if c.key(x) !in visited && !c.failFast(x) then multiset(ps)[x] else 0)
  {
    if ps != [] {
      UnvisitedCounts(c, ps[1..], visited);
      assert ps == [ps[0]] + ps[1..];
      assert multiset(ps) == multiset{ps[0]} + multiset(ps[1..]);
      var head := if c.key(ps[0]) !in visited && !c.failFast(ps[0]) then [ps[0]] else [];
      assert multiset(Unvisited(c, ps, visited)) == multiset(head) + multiset(Unvisited(c, ps[1..], visited));
    }
  }

  /**
   * The successors keep the order of the extensions: building the list for
   * two runs of extensions one after the other gives the two lists one
   * after the other.
   */
  lemma {:induction false} UnvisitedAppend<P>(c: Contract<P>, a: seq<P>, b: seq<P>, visited: set<string>)
    ensures Unvisited(c, a + b, visited) == Unvisited(c, a, visited) + Unvisited(c, b, visited)
  {
    if a == [] {
      assert a + b == b;
    } else {
      assert (a + b)[0] == a[0] && (a + b)[1..] == a[1..] + b;
      UnvisitedAppend(c, a[1..], b, visited);
    }
  }

  /** Once every successor built against `snapshot` is visited, every extension of `p` is visited or fails fast. */
  lemma UnvisitedSettled<P>(c: Contract<P>, p: P, snapshot: set<string>, visited: set<string>)
    requires snapshot <= visited
    requires forall k | 0 <= k < |Unvisited(c, c.extensions(p), snapshot)| ::
      c.key(Unvisited(c, c.extensions(p), snapshot)[k]) in visited
    ensures Settled(c, p, visited)
  {
    var ps := c.extensions(p);
    var r := Unvisited(c, ps, snapshot);
    forall k | 0 <= k < |ps| && c.key(ps[k]) !in snapshot && !c.failFast(ps[k])
      ensures c.key(ps[k]) in visited
    {
      assert ps[k] in r;
      var j :| 0 <= j < |r| && r[j] == ps[k];
    }
  }

  /** The keys of the configurations held by the nodes of an arena. */
  function ArenaKeys<P>(c: Contract<P>, nodes: seq<Node<P>>): set<string>
  {
    set i | 0 <= i < |nodes| :: c.key(nodes[i].puzzle)
  }

  lemma ArenaKeysAppend<P>(c: Contract<P>, nodes: seq<Node<P>>, n: Node<P>)
    ensures ArenaKeys(c, nodes + [n]) == ArenaKeys(c, nodes) + {c.key(n.puzzle)}
  {
    var a := nodes + [n];
    assert c.key(a[|nodes|].puzzle) in ArenaKeys(c, a);
    forall x | x in ArenaKeys(c, nodes) ensures x in ArenaKeys(c, a) {
      var i :| 0 <= i < |nodes| && x == c.key(nodes[i].puzzle);
      assert a[i] == nodes[i];
    }
  }

  lemma ArenaKeysShape<P>(c: Contract<P>, a: seq<Node<P>>, b: seq<Node<P>>)
    requires SameShape(a, b)
    ensures ArenaKeys(c, b) == ArenaKeys(c, a)
  {
    forall x | x in ArenaKeys(c, a) ensures x in ArenaKeys(c, b) {
      var i :| 0 <= i < |a| && x == c.key(a[i].puzzle);
      assert x == c.key(b[i].puzzle);
    }
  }

  /** Appending a node keeps a collapsed chain collapsed. */
  lemma CollapsedAppend<P>(nodes: seq<Node<P>>, n: Node<P>, s: nat)
    requires WellFormed(nodes) && s < |nodes| && Collapsed(nodes, s)
    requires WellFormed(nodes + [n])
    ensures Collapsed(nodes + [n], s)
  {
    PathStable(nodes, nodes + [n], s);
  }

  /** The arena as the depth-first search keeps it: `Within` reach, and no node but the root failing fast. */
  ghost predicate Tree<P>(c: Contract<P>, reach: set<P>, nodes: seq<Node<P>>)
  {
    Within(c, reach, nodes) && forall i | 0 < i < |nodes| :: !c.failFast(nodes[i].puzzle)
  }

  lemma TreeShape<P>(c: Contract<P>, reach: set<P>, a: seq<Node<P>>, b: seq<Node<P>>)
    requires Tree(c, reach, a) && SameShape(a, b)
    ensures Tree(c, reach, b)
  {
  }

  lemma TreeAppend<P>(c: Contract<P>, reach: set<P>, nodes: seq<Node<P>>, next: P, parent: nat)
    requires Tree(c, reach, nodes) && parent < |nodes|
    requires next in c.extensions(nodes[parent].puzzle) && !c.failFast(next)
    ensures Tree(c, reach, nodes + [Node(next, Some(parent), Pendings(c.extensions(next)))])
  {
    var ps := c.extensions(nodes[parent].puzzle);
    var j :| 0 <= j < |ps| && ps[j] == next;
  }

  class DepthFirstSearch<P(==)> {
    const c: Contract<P>
    /** A finite set of configurations closed under extensions, holding the initial one. */
    ghost const reach: set<P>
    /** The search tree. */
    var nodes: seq<Node<P>>
    /** The shared set of visited keys. */
    var visited: set<string>
    /** The shared one-element result cell: None, or the root of the collapsed tree. */
    var solution: Option<nat>
    /** The solved node the collapsed chain leads to. */
    ghost var goal: nat

    ghost predicate Valid()
      reads this
    {
      Tree(c, reach, nodes) && visited <= Keys(c, reach) &&
      (solution.Some? ==>
        solution.value == 0 && goal < |nodes| && Collapsed(nodes, goal) && c.isSolved(nodes[goal].puzzle))
    }

    /** The set-up before the first call: an empty visited set and a root node holding the puzzle's extensions. */
    constructor (c: Contract<P>, puzzle: P, ghost reach: set<P>)
      requires Closed(c, reach) && puzzle in reach
      ensures Valid() && this.c == c && this.reach == reach
      ensures nodes == [Node(puzzle, None, Pendings(c.extensions(puzzle)))]
      ensures visited == {} && solution == None
    {
      this.c := c;
      this.reach := reach;
      nodes := [Node(puzzle, None, Pendings(c.extensions(puzzle)))];
      visited := {};
      solution := None;
      goal := 0;
    }

    /** `PuzzleNode(next_, [i for i in next_.extensions()], node)`, appended to the arena. */
    method AddChild(next: P, parent: nat) returns (idx: nat)
      requires Valid() && parent < |nodes|
      requires next in c.extensions(nodes[parent].puzzle) && !c.failFast(next)
      modifies this
      ensures Valid()
      ensures nodes == old(nodes) + [Node(next, Some(parent), Pendings(c.extensions(next)))]
      ensures idx == |nodes| - 1 && nodes[..idx] == old(nodes)
      ensures visited == old(visited) && solution == old(solution) && goal == old(goal)
    {
      var child := Node(next, Some(parent), Pendings(c.extensions(next)));
      ghost var pre := nodes;
      TreeAppend(c, reach, nodes, next, parent);
      nodes := nodes + [child];
      if solution.Some? {
        CollapsedAppend(pre, child, goal);
      }
      idx := |nodes| - 1;
      assert nodes[..idx] == pre;
    }

    /** The collapse onto a solved `node`, storing the root in the result cell. */
    method RecordSolution(node: nat)
      requires Valid() && node < |nodes| && c.isSolved(nodes[node].puzzle)
      modifies this
      ensures Valid() && SameShape(old(nodes), nodes)
      ensures solution == Some(0) && goal == node && visited == old(visited)
      ensures Collapsed(nodes, node)
    {
      var root;
      ghost var pre := nodes;
      nodes, root := Collapse(nodes, node);
      TreeShape(c, reach, pre, nodes);
      solution := Some(root);
      goal := node;
    }

    /**
     * What `dfs` does on entering `node`: record its key and, if it is
     * solved, collapse the tree onto it and store the root as the result.
     */
    method Enter(node: nat)
      requires Valid() && node == |nodes| - 1
      requires visited == ArenaKeys(c, nodes[..node])
      requires solution.None? ==> forall i | 0 <= i < node :: !c.isSolved(nodes[i].puzzle)
      modifies this
      ensures Valid() && SameShape(old(nodes), nodes)
      ensures visited == old(visited) + {c.key(nodes[node].puzzle)} && visited == ArenaKeys(c, nodes)
      ensures solution.None? <==> forall i | 0 <= i < |nodes| :: !c.isSolved(nodes[i].puzzle)
      ensures old(solution).Some? ==> solution.Some?
      ensures c.isSolved(nodes[node].puzzle) ==> Collapsed(nodes, node)
    {
      ghost var pre := nodes;
      var key := c.key(nodes[node].puzzle);
      assert key in Keys(c, reach);
      visited := visited + {key};
      assert nodes == nodes[..node] + [nodes[node]];
      ArenaKeysAppend(c, nodes[..node], nodes[node]);
      if c.isSolved(nodes[node].puzzle) {
        RecordSolution(node);
        ArenaKeysShape(c, pre, nodes);
      }
    }

    /**
     * The inner `dfs(node, visited, solution)`. `node` is the node just
     * created; `bound` is the visited set at the moment its parent built
     * its successor list (the key of `node` was not in it).
     */
    method Dfs(node: nat, ghost bound: set<string>)
      requires Valid() && node == |nodes| - 1
      requires visited == ArenaKeys(c, nodes[..node])
      requires solution.None? ==> forall i | 0 <= i < node :: !c.isSolved(nodes[i].puzzle)
      requires bound <= visited && c.key(nodes[node].puzzle) !in bound
      modifies this
      decreases |Keys(c, reach) - bound|, 2
      ensures Valid() && Grows(old(nodes), nodes)
      ensures visited == ArenaKeys(c, nodes)
      ensures old(visited) + {c.key(old(nodes[node].puzzle))} <= visited
      ensures solution.None? <==> forall i | 0 <= i < |nodes| :: !c.isSolved(nodes[i].puzzle)
      ensures old(solution).Some? ==> solution.Some? && |nodes| == old(|nodes|)
      ensures old(solution).Some? ==> visited == old(visited) + {c.key(old(nodes[node].puzzle))}
      ensures c.isSolved(old(nodes[node].puzzle)) ==> |nodes| == old(|nodes|) && Collapsed(nodes, node)
      ensures solution.None? ==> forall i | node <= i < |nodes| :: Settled(c, nodes[i].puzzle, visited)
    {
      Enter(node);
      if solution.None? {
        Expand(node, bound);
      }
    }

    /**
     * The rest of `dfs` when no result is recorded: build the successor list
     * once, then create a node for each successor and recurse into it, even
     * after a recursive call has recorded a result.
     */
    method Expand(node: nat, ghost bound: set<string>)
      requires Valid() && node < |nodes| && solution.None?
      requires visited == ArenaKeys(c, nodes)
      requires forall i | 0 <= i < |nodes| :: !c.isSolved(nodes[i].puzzle)
      requires bound <= visited && c.key(nodes[node].puzzle) !in bound && c.key(nodes[node].puzzle) in visited
      modifies this
      decreases |Keys(c, reach) - bound|, 1
      ensures Valid() && Grows(old(nodes), nodes)
      ensures visited == ArenaKeys(c, nodes) && old(visited) <= visited
      ensures solution.None? <==> forall i | 0 <= i < |nodes| :: !c.isSolved(nodes[i].puzzle)
      ensures Settled(c, nodes[node].puzzle, visited)
      ensures solution.None? ==> forall i | old(|nodes|) <= i < |nodes| :: Settled(c, nodes[i].puzzle, visited)
    {
      ghost var before := nodes;
      ghost var snapshot := visited;
      var successors := Unvisited(c, c.extensions(nodes[node].puzzle), visited);
      FewerMissing(Keys(c, reach), bound, snapshot, c.key(nodes[node].puzzle));
      var k := 0;
      while k < |successors|
        invariant 0 <= k <= |successors|
        invariant Valid() && Grows(before, nodes) && node < |nodes|
        invariant snapshot <= visited
        invariant visited == ArenaKeys(c, nodes)
        invariant solution.None? <==> forall i | 0 <= i < |nodes| :: !c.isSolved(nodes[i].puzzle)
        invariant forall j | 0 <= j < k :: c.key(successors[j]) in visited
        invariant solution.None? ==> forall i | |before| <= i < |nodes| :: Settled(c, nodes[i].puzzle, visited)
      {
        ghost var pre := nodes;
        ghost var preVisited := visited;
        Descend(successors[k], node, snapshot, bound);
        GrowsTrans(before, pre, nodes);
        if solution.None? {
          SettledKept(c, pre, nodes, |before|, preVisited, visited);
        }
        VisitedPrefix(c, successors, k, preVisited, visited);
        k := k + 1;
      }
      UnvisitedSettled(c, nodes[node].puzzle, snapshot, visited);
    }

    /** One round of the loop in `dfs`: `dfs(PuzzleNode(next, [i for i in next.extensions()], node), visited, solution)`. */
    method Descend(next: P, node: nat, ghost snapshot: set<string>, ghost bound: set<string>)
      requires Valid() && node < |nodes|
      requires next in c.extensions(nodes[node].puzzle) && !c.failFast(next)
      requires visited == ArenaKeys(c, nodes)
      requires solution.None? ==> forall i | 0 <= i < |nodes| :: !c.isSolved(nodes[i].puzzle)
      requires snapshot <= visited && c.key(next) !in snapshot
      requires |Keys(c, reach) - snapshot| < |Keys(c, reach) - bound|
      modifies this
      decreases |Keys(c, reach) - bound|, 0
      ensures Valid() && Grows(old(nodes), nodes)
      ensures visited == ArenaKeys(c, nodes)
      ensures solution.None? <==> forall i | 0 <= i < |nodes| :: !c.isSolved(nodes[i].puzzle)
      ensures c.key(next) in visited && old(visited) <= visited
      ensures old(solution).Some? ==> solution.Some?
      ensures solution.None? ==> forall i | old(|nodes|) <= i < |nodes| :: Settled(c, nodes[i].puzzle, visited)
    {
      var idx := AddChild(next, node);
      Dfs(idx, snapshot);
    }
  }

  /** Growing the arena and the visited set keeps the nodes from `from` on settled. */
  lemma SettledKept<P>(c: Contract<P>, a: seq<Node<P>>, b: seq<Node<P>>, from: nat, va: set<string>, vb: set<string>)
    requires Grows(a, b) && va <= vb
    requires forall i | from <= i < |a| :: Settled(c, a[i].puzzle, va)
    ensures forall i | from <= i < |a| :: Settled(c, b[i].puzzle, vb)
  {
    forall i | from <= i < |a| ensures Settled(c, b[i].puzzle, vb) {
      assert a[i].puzzle == b[i].puzzle;
    }
  }

  /** The loop in `dfs` has visited the first `k + 1` successors once the `k`-th is visited. */
  lemma VisitedPrefix<P>(c: Contract<P>, successors: seq<P>, k: nat, va: set<string>, vb: set<string>)
    requires k < |successors| && va <= vb && c.key(successors[k]) in vb
    requires forall j | 0 <= j < k :: c.key(successors[j]) in va
    ensures forall j | 0 <= j <= k :: c.key(successors[j]) in vb
  {
  }

  /** What the arena and result cell left by the search say about the answer. */
  lemma SolveOutcome<P>(c: Contract<P>, reach: set<P>, nodes: seq<Node<P>>, solution: Option<nat>, goal: nat)
    requires Tree(c, reach, nodes)
    requires solution.Some? ==> solution.value == 0 && goal < |nodes| && Collapsed(nodes, goal) && c.isSolved(nodes[goal].puzzle)
    ensures solution.Some? ==> SolutionChain(c, nodes, Follow(nodes, 0))
    ensures solution.Some? ==> exists i | 0 <= i < |nodes| :: c.isSolved(nodes[i].puzzle)
  {
    if solution.Some? {
      CollapsedIsSolution(c, nodes, goal);
    }
  }

  /**
   * An arena whose every node had all its extensions visited or failing fast
   * holds every configuration a chain from its root reaches, provided keys
   * tell the configurations of `reach` apart.
   */
  lemma {:induction false} ChainInArena<P>(c: Contract<P>, reach: set<P>, nodes: seq<Node<P>>, ps: seq<P>, n: nat) returns (i: nat)
    requires Within(c, reach, nodes) && KeysInjective(c, reach)
    requires forall j | 0 <= j < |nodes| :: Settled(c, nodes[j].puzzle, ArenaKeys(c, nodes))
    requires Chain(c, ps) && ps[0] == nodes[0].puzzle && n < |ps|
    ensures i < |nodes| && nodes[i].puzzle == ps[n]
    decreases n
  {
    if n == 0 {
      i := 0;
    } else {
      var j := ChainInArena(c, reach, nodes, ps, n - 1);
      var ext := c.extensions(nodes[j].puzzle);
      assert ps[n] in ext;
      var k :| 0 <= k < |ext| && ext[k] == ps[n];
      assert Settled(c, nodes[j].puzzle, ArenaKeys(c, nodes));
      assert c.key(ps[n]) in ArenaKeys(c, nodes);
      i :| 0 <= i < |nodes| && c.key(nodes[i].puzzle) == c.key(ps[n]);
      assert ps[n] in reach;
    }
  }

  /** An unsolved arena whose every node is settled leaves no chain from the root to a solved configuration. */
  lemma ArenaUnsolvable<P>(c: Contract<P>, reach: set<P>, nodes: seq<Node<P>>)
    requires Within(c, reach, nodes) && KeysInjective(c, reach)
    requires forall i | 0 <= i < |nodes| :: Settled(c, nodes[i].puzzle, ArenaKeys(c, nodes)) && !c.isSolved(nodes[i].puzzle)
    ensures forall ps | Chain(c, ps) && ps[0] == nodes[0].puzzle :: !c.isSolved(ps[|ps| - 1])
  {
    forall ps | Chain(c, ps) && ps[0] == nodes[0].puzzle ensures !c.isSolved(ps[|ps| - 1]) {
      var i := ChainInArena(c, reach, nodes, ps, |ps| - 1);
    }
  }

  /**
   * `depth_first_solve(puzzle)`: the arena the search built, its answer
   * (None or the root of a chain from `puzzle` to a solved configuration)
   * and the final visited set.
   */
  method DepthFirstSolve<P(==)>(c: Contract<P>, puzzle: P, ghost reach: set<P>)
    returns (nodes: seq<Node<P>>, solution: Option<nat>, visited: set<string>)
    requires Closed(c, reach) && puzzle in reach
    ensures WellFormed(nodes) && nodes[0].puzzle == puzzle && Linked(c, nodes)
    ensures forall i | 0 <= i < |nodes| :: nodes[i].puzzle in reach
    ensures solution.None? <==> forall i | 0 <= i < |nodes| :: !c.isSolved(nodes[i].puzzle)
    ensures solution.Some? ==> solution.value == 0 && SolutionChain(c, nodes, Follow(nodes, 0))
    ensures (forall p | p in reach :: !c.isSolved(p)) ==> solution.None?
    ensures c.isSolved(puzzle) ==> nodes == [Node(puzzle, None, [])] && solution == Some(0)
    ensures visited == ArenaKeys(c, nodes)
    ensures solution.None? ==> forall i | 0 <= i < |nodes| :: Settled(c, nodes[i].puzzle, visited)
    ensures solution.None? && KeysInjective(c, reach) ==>
      forall ps | Chain(c, ps) && ps[0] == puzzle :: !c.isSolved(ps[|ps| - 1])
  {
    var search := new DepthFirstSearch(c, puzzle, reach);
    search.Dfs(0, {});
    nodes, solution, visited := search.nodes, search.solution, search.visited;
    SolveOutcome(c, reach, nodes, solution, search.goal);
    if c.isSolved(puzzle) {
      assert nodes[0].children == [];
    }
    if solution.None? && KeysInjective(c, reach) {
      ArenaUnsolvable(c, reach, nodes);
    }
  }
}
