/**
 * `breadth_first_solve` of puzzle_tools.py: a first-in first-out search
 * that records a configuration's key when it takes its node off the queue,
 * and collapses the tree onto the first solved node it takes off.
 *
 * Every node the search creates goes to the back of the queue, so the queue
 * is always the suffix `nodes[head..]` of the arena: taking a node off the
 * front is moving `head` one step on.
 */
module BreadthFirst {
  import opened Common
  import opened Puzzles
  import opened SearchTree

  /**
   * First in, first out: every node but the root was enqueued while its
   * parent was being processed, after every earlier node's parent was, and
   * that parent has left the queue.
   */
  ghost predicate Fifo<P>(nodes: seq<Node<P>>, head: nat)
  {
    head <= |nodes| &&
    (forall j | 0 < j < |nodes| :: nodes[j].parent.Some? && nodes[j].parent.value < head) &&
    (forall i, j | 0 < i < j < |nodes| ::
      nodes[i].parent.Some? && nodes[j].parent.Some? && nodes[i].parent.value <= nodes[j].parent.value)
  }

  /** Before any collapse, every node holds its configuration's extensions as pending children. */
  ghost predicate Unexpanded<P>(c: Contract<P>, nodes: seq<Node<P>>)
  {
    forall j | 0 <= j < |nodes| :: nodes[j].children == Pendings(c.extensions(nodes[j].puzzle))
  }

  /** The keys of the configurations of the nodes indexed by `ix`. */
  function IndexKeys<P>(c: Contract<P>, nodes: seq<Node<P>>, ix: set<nat>): set<string>
  {
    set i | i in ix && i < |nodes| :: c.key(nodes[i].puzzle)
  }

  /** An extension is accounted for: its key was seen, or a node holds it. */
  ghost predicate Covered<P>(c: Contract<P>, nodes: seq<Node<P>>, seen: set<string>, e: P)
  {
    c.key(e) in seen || exists j | 0 <= j < |nodes| :: nodes[j].puzzle == e
  }

  /** The first `n` extensions of node `i`'s configuration are accounted for. */
  ghost predicate CoveredUpTo<P>(c: Contract<P>, nodes: seq<Node<P>>, seen: set<string>, i: nat, n: nat)
    requires i < |nodes|
  {
    n <= |c.extensions(nodes[i].puzzle)| &&
    forall k | 0 <= k < n :: Covered(c, nodes, seen, c.extensions(nodes[i].puzzle)[k])
  }

  /**
   * What the nodes taken off the queue so far say: each was skipped (its key
   * was already seen, or it fails fast) or expanded; an expanded node is not
   * solved, does not fail fast, and has each of its extensions accounted for.
   */
  ghost predicate Explored<P>(c: Contract<P>, nodes: seq<Node<P>>, head: nat, seen: set<string>, expanded: set<nat>)
  {
    head <= |nodes| &&
    (forall i | i in expanded :: i < head && !c.isSolved(nodes[i].puzzle) && !c.failFast(nodes[i].puzzle)) &&
    (forall i | 0 <= i < head :: c.key(nodes[i].puzzle) in seen || c.failFast(nodes[i].puzzle)) &&
    (forall i | i in expanded :: CoveredUpTo(c, nodes, seen, i, |c.extensions(nodes[i].puzzle)|))
  }

  lemma CoveredGrows<P>(c: Contract<P>, a: seq<Node<P>>, b: seq<Node<P>>, seen: set<string>, seen': set<string>, e: P)
    requires Grows(a, b) && seen <= seen' && Covered(c, a, seen, e)
    ensures Covered(c, b, seen', e)
  {
    if c.key(e) !in seen {
      var j :| 0 <= j < |a| && a[j].puzzle == e;
      assert b[j].puzzle == e;
    }
  }

  lemma CoveredUpToGrows<P>(c: Contract<P>, a: seq<Node<P>>, b: seq<Node<P>>, seen: set<string>, seen': set<string>, i: nat, n: nat)
    requires Grows(a, b) && seen <= seen' && i < |a| && CoveredUpTo(c, a, seen, i, n)
    ensures CoveredUpTo(c, b, seen', i, n)
  {
    forall k | 0 <= k < n
      ensures Covered(c, b, seen', c.extensions(b[i].puzzle)[k])
    {
      CoveredGrows(c, a, b, seen, seen', c.extensions(a[i].puzzle)[k]);
    }
  }

  /** Explored nodes stay explored when the arena grows or is collapsed, and the seen set grows. */
  lemma ExploredGrows<P>(c: Contract<P>, a: seq<Node<P>>, b: seq<Node<P>>, head: nat, seen: set<string>, seen': set<string>, expanded: set<nat>)
    requires Explored(c, a, head, seen, expanded) && Grows(a, b) && seen <= seen'
    ensures Explored(c, b, head, seen', expanded)
  {
    forall i | i in expanded
      ensures CoveredUpTo(c, b, seen', i, |c.extensions(b[i].puzzle)|)
    {
      CoveredUpToGrows(c, a, b, seen, seen', i, |c.extensions(a[i].puzzle)|);
    }
  }

  lemma IndexKeysGrows<P>(c: Contract<P>, a: seq<Node<P>>, b: seq<Node<P>>, ix: set<nat>)
    requires Grows(a, b) && forall i | i in ix :: i < |a|
    ensures IndexKeys(c, b, ix) == IndexKeys(c, a, ix)
  {
    forall x | x in IndexKeys(c, a, ix) ensures x in IndexKeys(c, b, ix) {
      var i :| i in ix && i < |a| && x == c.key(a[i].puzzle);
      assert x == c.key(b[i].puzzle);
    }
  }

  lemma IndexKeysAdd<P>(c: Contract<P>, nodes: seq<Node<P>>, ix: set<nat>, i: nat)
    requires i < |nodes|
    ensures IndexKeys(c, nodes, ix + {i}) == IndexKeys(c, nodes, ix) + {c.key(nodes[i].puzzle)}
  {
    assert c.key(nodes[i].puzzle) in IndexKeys(c, nodes, ix + {i});
  }

  lemma WithinShape<P>(c: Contract<P>, reach: set<P>, a: seq<Node<P>>, b: seq<Node<P>>)
    requires Within(c, reach, a) && SameShape(a, b)
    ensures Within(c, reach, b)
  {
  }

  /** Nodes for extensions of node `cur`, appended at the back of the queue, keep the arena within `reach`. */
  lemma AppendWithin<P>(c: Contract<P>, reach: set<P>, nodes: seq<Node<P>>, cur: nat, extra: seq<Node<P>>)
    requires Within(c, reach, nodes) && cur < |nodes|
    requires forall j | 0 <= j < |extra| :: extra[j].parent == Some(cur) && extra[j].puzzle in c.extensions(nodes[cur].puzzle)
    ensures Within(c, reach, nodes + extra)
  {
    var r := nodes + extra;
    var ps := c.extensions(nodes[cur].puzzle);
    forall i | |nodes| <= i < |r|
      ensures r[i].puzzle in c.extensions(r[r[i].parent.value].puzzle) && r[i].puzzle in reach
    {
      assert r[i] == extra[i - |nodes|];
      var j :| 0 <= j < |ps| && ps[j] == r[i].puzzle;
    }
  }

  /** Nodes whose parent is the node being processed (the last one taken off) keep the queue first in, first out. */
  lemma AppendFifo<P>(nodes: seq<Node<P>>, cur: nat, extra: seq<Node<P>>)
    requires Fifo(nodes, cur + 1) && cur < |nodes|
    requires forall j | 0 <= j < |extra| :: extra[j].parent == Some(cur)
    ensures Fifo(nodes + extra, cur + 1)
  {
  }

  lemma AppendUnexpanded<P>(c: Contract<P>, nodes: seq<Node<P>>, extra: seq<Node<P>>)
    requires Unexpanded(c, nodes)
    requires forall j | 0 <= j < |extra| :: extra[j].children == Pendings(c.extensions(extra[j].puzzle))
    ensures Unexpanded(c, nodes + extra)
  {
  }

  /** The search between two queue steps, before a solution is found. */
  ghost predicate Searching<P>(c: Contract<P>, reach: set<P>, nodes: seq<Node<P>>, head: nat, seen: set<string>, expanded: set<nat>)
  {
    Within(c, reach, nodes) && Fifo(nodes, head) && seen <= Keys(c, reach) && Unexpanded(c, nodes) &&
    Explored(c, nodes, head, seen, expanded) && seen == IndexKeys(c, nodes, expanded)
  }

  /**
   * The search after the collapse onto `goal`: the goal was taken off the
   * queue, is solved and does not fail fast, and every node before it fails
   * fast or has the key of an expanded, unsolved node.
   */
  ghost predicate Found<P>(c: Contract<P>, reach: set<P>, nodes: seq<Node<P>>, head: nat, seen: set<string>, expanded: set<nat>, goal: nat)
  {
    Within(c, reach, nodes) && Fifo(nodes, head) && Explored(c, nodes, head, seen, expanded) &&
    goal < head && Collapsed(nodes, goal) &&
    c.isSolved(nodes[goal].puzzle) && !c.failFast(nodes[goal].puzzle) &&
    seen == IndexKeys(c, nodes, expanded) + {c.key(nodes[goal].puzzle)} &&
    forall i | 0 <= i < goal :: c.failFast(nodes[i].puzzle) || c.key(nodes[i].puzzle) in IndexKeys(c, nodes, expanded)
  }

  /** Taking off a node whose key was seen or which fails fast changes nothing but the queue's front. */
  lemma SkipStep<P>(c: Contract<P>, reach: set<P>, nodes: seq<Node<P>>, head: nat, seen: set<string>, expanded: set<nat>)
    requires Searching(c, reach, nodes, head, seen, expanded) && head < |nodes|
    requires c.key(nodes[head].puzzle) in seen || c.failFast(nodes[head].puzzle)
    ensures Searching(c, reach, nodes, head + 1, seen, expanded)
  {
    FifoAdvance(nodes, head);
    ExploredAdvance(c, nodes, head, seen, expanded);
  }

  lemma FifoAdvance<P>(nodes: seq<Node<P>>, head: nat)
    requires Fifo(nodes, head) && head < |nodes|
    ensures Fifo(nodes, head + 1)
  {
  }

  lemma ExploredAdvance<P>(c: Contract<P>, nodes: seq<Node<P>>, head: nat, seen: set<string>, expanded: set<nat>)
    requires Explored(c, nodes, head, seen, expanded) && head < |nodes|
    requires c.key(nodes[head].puzzle) in seen || c.failFast(nodes[head].puzzle)
    ensures Explored(c, nodes, head + 1, seen, expanded)
  {
  }

  /** Taking off a fresh solved node and collapsing onto it ends the search with that node as the goal. */
  lemma SolveStep<P>(c: Contract<P>, reach: set<P>, nodes: seq<Node<P>>, r: seq<Node<P>>, head: nat, seen: set<string>, expanded: set<nat>)
    requires Searching(c, reach, nodes, head, seen, expanded) && head < |nodes|
    requires c.key(nodes[head].puzzle) !in seen && !c.failFast(nodes[head].puzzle) && c.isSolved(nodes[head].puzzle)
    requires SameShape(nodes, r) && WellFormed(r) && Collapsed(r, head)
    ensures Found(c, reach, r, head + 1, seen + {c.key(nodes[head].puzzle)}, expanded, head)
  {
    var seen' := seen + {c.key(nodes[head].puzzle)};
    WithinShape(c, reach, nodes, r);
    FifoShape(nodes, r, head + 1);
    ExploredGrows(c, nodes, r, head, seen, seen', expanded);
    ExploredAdvance(c, r, head, seen', expanded);
    IndexKeysGrows(c, nodes, r, expanded);
    SkippedBeforeGoal(c, nodes, r, head, seen, expanded);
  }

  /** Fifo order depends on parent links only. */
  lemma FifoShape<P>(nodes: seq<Node<P>>, r: seq<Node<P>>, head: nat)
    requires Fifo(nodes, head) && SameShape(nodes, r)
    ensures Fifo(r, head)
  {
  }

  /** Before a fresh node is taken off, every earlier node fails fast or has the key of an expanded node. */
  lemma SkippedBeforeGoal<P>(c: Contract<P>, nodes: seq<Node<P>>, r: seq<Node<P>>, head: nat, seen: set<string>, expanded: set<nat>)
    requires Explored(c, nodes, head, seen, expanded) && seen == IndexKeys(c, nodes, expanded) && SameShape(nodes, r)
    ensures forall i | 0 <= i < head :: c.failFast(r[i].puzzle) || c.key(r[i].puzzle) in IndexKeys(c, r, expanded)
  {
    IndexKeysGrows(c, nodes, r, expanded);
  }

  /**
   * The nodes the children loop appends for a node `parent` whose pending
   * children are `ps`: one per child whose key is not seen, in order.
   */
  function Enqueued<P>(c: Contract<P>, ps: seq<P>, seen: set<string>, parent: nat): (r: seq<Node<P>>)
    ensures |r| <= |ps|
    ensures forall j | 0 <= j < |r| ::
      r[j].parent == Some(parent) && r[j].puzzle in ps && c.key(r[j].puzzle) !in seen &&
      r[j].children == Pendings(c.extensions(r[j].puzzle))
  {
    if ps == [] then []
    else
      var last := ps[|ps| - 1];
      Enqueued(c, ps[..|ps| - 1], seen, parent) +
      (if c.key(last) !in seen then [Node(last, Some(parent), Pendings(c.extensions(last)))] else [])
  }

  /** One more pending child: its node, if any, goes after those of the children before it. */
  lemma EnqueuedSnoc<P>(c: Contract<P>, nodes: seq<Node<P>>, ps: seq<P>, seen: set<string>, parent: nat, k: nat)
    requires k < |ps|
    ensures nodes + Enqueued(c, ps[..k + 1], seen, parent) == nodes + Enqueued(c, ps[..k], seen, parent) +
      (if c.key(ps[k]) !in seen then [Node(ps[k], Some(parent), Pendings(c.extensions(ps[k])))] else [])
  {
    assert ps[..k + 1][..k] == ps[..k];
  }

  /**
   * The `for child in curr_ext.children` loop: a node for each pending child
   * of `cur` whose key is not seen, appended at the back of the queue.
   */
  method EnqueueChildren<P(==)>(c: Contract<P>, nodes: seq<Node<P>>, seen: set<string>, cur: nat)
    returns (r: seq<Node<P>>)
    requires cur < |nodes| && nodes[cur].children == Pendings(c.extensions(nodes[cur].puzzle))
    ensures r == nodes + Enqueued(c, c.extensions(nodes[cur].puzzle), seen, cur)
  {
    var children := nodes[cur].children;
    ghost var ps := c.extensions(nodes[cur].puzzle);
    r := nodes;
    var k := 0;
    assert ps[..0] == [];
    while k < |children|
      invariant 0 <= k <= |children| && children == Pendings(ps)
      invariant r == nodes + Enqueued(c, ps[..k], seen, cur)
    {
      var child := children[k].puzzle;
      EnqueuedSnoc(c, nodes, ps, seen, cur, k);
      if c.key(child) !in seen {
        r := r + [Node(child, Some(cur), Pendings(c.extensions(child)))];
      }
      k := k + 1;
    }
    assert ps[..k] == ps;
  }

  /** Some node of `r` holds `p`. */
  ghost predicate Holds<P>(r: seq<Node<P>>, p: P)
  {
    exists j | 0 <= j < |r| :: r[j].puzzle == p
  }

  /** Every pending child whose key is not seen gets a node. */
  lemma {:induction false} EnqueuedCovers<P>(c: Contract<P>, ps: seq<P>, seen: set<string>, parent: nat, k: nat)
    requires k < |ps| && c.key(ps[k]) !in seen
    ensures Holds(Enqueued(c, ps, seen, parent), ps[k])
    decreases |ps|
  {
    var init := ps[..|ps| - 1];
    var last := ps[|ps| - 1];
    var r := Enqueued(c, ps, seen, parent);
    var r0 := Enqueued(c, init, seen, parent);
    assert r == r0 + (if c.key(last) !in seen then [Node(last, Some(parent), Pendings(c.extensions(last)))] else []);
    if k < |ps| - 1 {
      EnqueuedCovers(c, init, seen, parent, k);
      var j :| 0 <= j < |r0| && r0[j].puzzle == init[k];
      assert r[j] == r0[j];
    } else {
      assert r[|r0|].puzzle == ps[k];
    }
  }

  /** Once the children loop is done, every extension of the processed node is accounted for. */
  lemma EnqueuedCovered<P>(c: Contract<P>, nodes: seq<Node<P>>, seen: set<string>, cur: nat)
    requires cur < |nodes|
    ensures CoveredUpTo(c, nodes + Enqueued(c, c.extensions(nodes[cur].puzzle), seen, cur), seen, cur, |c.extensions(nodes[cur].puzzle)|)
  {
    var ps := c.extensions(nodes[cur].puzzle);
    var extra := Enqueued(c, ps, seen, cur);
    var r := nodes + extra;
    forall k | 0 <= k < |ps|
      ensures Covered(c, r, seen, ps[k])
    {
      if c.key(ps[k]) !in seen {
        EnqueuedCovers(c, ps, seen, cur, k);
        var j :| 0 <= j < |extra| && extra[j].puzzle == ps[k];
        assert r[|nodes| + j] == extra[j];
      }
    }
  }

  /** The processed node joins the explored ones once its extensions are accounted for. */
  lemma ExploredExpand<P>(c: Contract<P>, nodes: seq<Node<P>>, head: nat, seen: set<string>, expanded: set<nat>)
    requires Explored(c, nodes, head, seen, expanded) && head < |nodes|
    requires c.key(nodes[head].puzzle) in seen && !c.isSolved(nodes[head].puzzle) && !c.failFast(nodes[head].puzzle)
    requires CoveredUpTo(c, nodes, seen, head, |c.extensions(nodes[head].puzzle)|)
    ensures Explored(c, nodes, head + 1, seen, expanded + {head})
  {
  }

  /** Taking off a fresh unsolved node and enqueueing its children leaves the search between two steps. */
  lemma ExpandStep<P>(c: Contract<P>, reach: set<P>, nodes: seq<Node<P>>, head: nat, seen: set<string>, expanded: set<nat>)
    requires Searching(c, reach, nodes, head, seen, expanded) && head < |nodes|
    requires c.key(nodes[head].puzzle) !in seen && !c.failFast(nodes[head].puzzle) && !c.isSolved(nodes[head].puzzle)
    ensures var seen' := seen + {c.key(nodes[head].puzzle)};
      Searching(c, reach, nodes + Enqueued(c, c.extensions(nodes[head].puzzle), seen', head), head + 1, seen', expanded + {head})
  {
    var seen' := seen + {c.key(nodes[head].puzzle)};
    var extra := Enqueued(c, c.extensions(nodes[head].puzzle), seen', head);
    var r := nodes + extra;
    AppendWithin(c, reach, nodes, head, extra);
    FifoAdvance(nodes, head);
    AppendFifo(nodes, head, extra);
    AppendUnexpanded(c, nodes, extra);
    assert Grows(nodes, r);
    ExploredGrows(c, nodes, r, head, seen, seen', expanded);
    EnqueuedCovered(c, nodes, seen', head);
    ExploredExpand(c, r, head, seen', expanded);
    IndexKeysAdd(c, nodes, expanded, head);
    IndexKeysGrows(c, nodes, r, expanded + {head});
    assert c.key(nodes[head].puzzle) in Keys(c, reach);
  }

  /** Breadth first: a node's depth is never smaller than that of any node created before it. */
  lemma {:induction false} DepthSorted<P>(nodes: seq<Node<P>>, head: nat, i: nat, j: nat)
    requires WellFormed(nodes) && Fifo(nodes, head) && i <= j < |nodes|
    ensures |Path(nodes, i)| <= |Path(nodes, j)|
    decreases j
  {
    if 0 < i < j {
      var pi, pj := nodes[i].parent.value, nodes[j].parent.value;
      DepthSorted(nodes, head, pi, pj);
      assert Path(nodes, i) == Path(nodes, pi) + [i];
      assert Path(nodes, j) == Path(nodes, pj) + [j];
    }
  }

  /** The tree a breadth-first search leaves: rooted at `puzzle`, within `reach`, and in order of depth. */
  ghost predicate LevelOrder<P>(c: Contract<P>, reach: set<P>, puzzle: P, nodes: seq<Node<P>>)
  {
    WellFormed(nodes) && nodes[0].puzzle == puzzle && Linked(c, nodes) &&
    (forall i | 0 <= i < |nodes| :: nodes[i].puzzle in reach) &&
    forall i, j | 0 <= i <= j < |nodes| :: |Path(nodes, i)| <= |Path(nodes, j)|
  }

  /** Expanded nodes were processed and found neither solved nor failing fast. */
  ghost predicate ExpandedUnsolved<P>(c: Contract<P>, nodes: seq<Node<P>>, expanded: set<nat>)
  {
    forall i | i in expanded :: i < |nodes| && !c.isSolved(nodes[i].puzzle) && !c.failFast(nodes[i].puzzle)
  }

  /**
   * A shortest answer: the chain from the root leads to the solved `goal`,
   * and every node shallower than the goal fails fast or has the key of an
   * expanded (so unsolved) node.
   */
  ghost predicate Shortest<P>(c: Contract<P>, nodes: seq<Node<P>>, expanded: set<nat>, goal: nat)
    requires WellFormed(nodes)
  {
    goal < |nodes| && !c.failFast(nodes[goal].puzzle) &&
    Follow(nodes, 0) == Path(nodes, goal) && SolutionChain(c, nodes, Follow(nodes, 0)) &&
    forall j | 0 <= j < |nodes| && |Path(nodes, j)| < |Path(nodes, goal)| ::
      c.failFast(nodes[j].puzzle) || c.key(nodes[j].puzzle) in IndexKeys(c, nodes, expanded)
  }

  /**
   * A search that ran out of queue: the seen keys are those of the expanded
   * nodes, every node was seen or fails fast, and every extension of an
   * expanded node was seen or fails fast.
   */
  ghost predicate Exhausted<P>(c: Contract<P>, nodes: seq<Node<P>>, seen: set<string>, expanded: set<nat>)
  {
    seen == IndexKeys(c, nodes, expanded) &&
    (forall i | 0 <= i < |nodes| :: c.key(nodes[i].puzzle) in seen || c.failFast(nodes[i].puzzle)) &&
    forall i | i in expanded && i < |nodes| :: forall k | 0 <= k < |c.extensions(nodes[i].puzzle)| ::
      c.key(c.extensions(nodes[i].puzzle)[k]) in seen || c.failFast(c.extensions(nodes[i].puzzle)[k])
  }

  lemma LevelOrderHolds<P>(c: Contract<P>, reach: set<P>, puzzle: P, nodes: seq<Node<P>>, head: nat)
    requires Within(c, reach, nodes) && Fifo(nodes, head) && nodes[0].puzzle == puzzle
    ensures LevelOrder(c, reach, puzzle, nodes)
  {
    forall i, j | 0 <= i <= j < |nodes| ensures |Path(nodes, i)| <= |Path(nodes, j)| {
      DepthSorted(nodes, head, i, j);
    }
  }

  /** What the search says once it stopped on a solved node. */
  lemma FoundOutcome<P>(c: Contract<P>, reach: set<P>, nodes: seq<Node<P>>, head: nat, seen: set<string>, expanded: set<nat>, goal: nat)
    requires Found(c, reach, nodes, head, seen, expanded, goal)
    ensures Shortest(c, nodes, expanded, goal) && ExpandedUnsolved(c, nodes, expanded)
  {
    CollapsedIsSolution(c, nodes, goal);
    forall j | 0 <= j < |nodes| && |Path(nodes, j)| < |Path(nodes, goal)|
      ensures j < goal
    {
      if goal <= j {
        DepthSorted(nodes, head, goal, j);
      }
    }
  }

  /** What the search says once the queue ran empty. */
  lemma ExhaustedOutcome<P>(c: Contract<P>, reach: set<P>, nodes: seq<Node<P>>, seen: set<string>, expanded: set<nat>)
    requires Searching(c, reach, nodes, |nodes|, seen, expanded)
    ensures Exhausted(c, nodes, seen, expanded) && ExpandedUnsolved(c, nodes, expanded)
  {
    forall i, k | i in expanded && i < |nodes| && 0 <= k < |c.extensions(nodes[i].puzzle)|
      ensures c.key(c.extensions(nodes[i].puzzle)[k]) in seen || c.failFast(c.extensions(nodes[i].puzzle)[k])
    {
      var e := c.extensions(nodes[i].puzzle)[k];
      assert Covered(c, nodes, seen, e);
      if c.key(e) !in seen {
        var j :| 0 <= j < |nodes| && nodes[j].puzzle == e;
      }
    }
  }

  /**
   * After a search that ran out of queue, an expanded node holds every
   * configuration a chain from the root reaches, provided the root does not
   * fail fast and keys tell the configurations of `reach` apart.
   */
  lemma {:induction false} ChainExpanded<P>(c: Contract<P>, reach: set<P>, nodes: seq<Node<P>>, seen: set<string>,
                                            expanded: set<nat>, ps: seq<P>, n: nat) returns (e: nat)
    requires Closed(c, reach) && KeysInjective(c, reach) && forall i | 0 <= i < |nodes| :: nodes[i].puzzle in reach
    requires Exhausted(c, nodes, seen, expanded) && |nodes| > 0
    requires Chain(c, ps) && ps[0] == nodes[0].puzzle && !c.failFast(ps[0]) && n < |ps|
    ensures e in expanded && e < |nodes| && nodes[e].puzzle == ps[n]
    decreases n
  {
    if n == 0 {
      assert c.key(nodes[0].puzzle) in IndexKeys(c, nodes, expanded);
    } else {
      var j := ChainExpanded(c, reach, nodes, seen, expanded, ps, n - 1);
      var ext := c.extensions(nodes[j].puzzle);
      assert ps[n] in ext;
      var k :| 0 <= k < |ext| && ext[k] == ps[n];
      assert c.key(ps[n]) in IndexKeys(c, nodes, expanded);
      assert ps[n] in reach;
    }
    e :| e in expanded && e < |nodes| && c.key(nodes[e].puzzle) == c.key(ps[n]);
  }

  /** A search that ran out of queue leaves no chain from the root to a solved configuration. */
  lemma ExhaustedUnsolvable<P>(c: Contract<P>, reach: set<P>, nodes: seq<Node<P>>, seen: set<string>, expanded: set<nat>)
    requires Closed(c, reach) && KeysInjective(c, reach) && forall i | 0 <= i < |nodes| :: nodes[i].puzzle in reach
    requires Exhausted(c, nodes, seen, expanded) && ExpandedUnsolved(c, nodes, expanded)
    requires |nodes| > 0 && !c.failFast(nodes[0].puzzle)
    ensures forall ps | Chain(c, ps) && ps[0] == nodes[0].puzzle :: !c.isSolved(ps[|ps| - 1])
  {
    forall ps | Chain(c, ps) && ps[0] == nodes[0].puzzle ensures !c.isSolved(ps[|ps| - 1]) {
      var e := ChainExpanded(c, reach, nodes, seen, expanded, ps, |ps| - 1);
    }
  }

  /**
   * One round of the `while len(q) > 0` loop: take the front node off the
   * queue; skip it if its key was seen or it fails fast; otherwise record
   * its key, and collapse onto it if it is solved, else enqueue its children.
   */
  method Step<P(==)>(c: Contract<P>, ghost reach: set<P>, nodes: seq<Node<P>>, head: nat, seen: set<string>, ghost expanded: set<nat>)
    returns (nodes': seq<Node<P>>, head': nat, seen': set<string>, ghost expanded': set<nat>, root: Option<nat>, ghost goal: nat)
    requires Searching(c, reach, nodes, head, seen, expanded) && head < |nodes|
    ensures head' == head + 1 && Grows(nodes, nodes')
    ensures root.None? ==> Searching(c, reach, nodes', head', seen', expanded')
    ensures root.Some? ==> root.value == 0 && Found(c, reach, nodes', head', seen', expanded', goal)
    ensures |Keys(c, reach) - seen'| < |Keys(c, reach) - seen| || (seen' == seen && nodes' == nodes)
    ensures var p := nodes[head].puzzle;
      (c.key(p) in seen || c.failFast(p) ==> nodes' == nodes && seen' == seen && root.None?) &&
      (c.key(p) !in seen && !c.failFast(p) && c.isSolved(p) ==>
        root.Some? && goal == head && seen' == seen + {c.key(p)} && SameShape(nodes, nodes') && Collapsed(nodes', head)) &&
      (c.key(p) !in seen && !c.failFast(p) && !c.isSolved(p) ==>
        root.None? && seen' == seen + {c.key(p)} && expanded' == expanded + {head} &&
        nodes' == nodes + Enqueued(c, c.extensions(p), seen', head))
  {
    var p := nodes[head].puzzle;
    head' := head + 1;
    goal := 0;
    if c.key(p) in seen || c.failFast(p) {
      SkipStep(c, reach, nodes, head, seen, expanded);
      nodes', seen', expanded', root := nodes, seen, expanded, None;
    } else {
      assert c.key(p) in Keys(c, reach);
      FewerMissing(Keys(c, reach), seen, seen + {c.key(p)}, c.key(p));
      seen' := seen + {c.key(p)};
      expanded' := expanded;
      if c.isSolved(p) {
        var top;
        nodes', top := Collapse(nodes, head);
        SolveStep(c, reach, nodes, nodes', head, seen, expanded);
        root, goal := Some(top), head;
      } else {
        ExpandStep(c, reach, nodes, head, seen, expanded);
        expanded' := expanded + {head};
        nodes' := EnqueueChildren(c, nodes, seen', head);
        root := None;
      }
    }
  }

  /** A one-node arena collapsed onto its root is the bare root. */
  lemma LoneRoot<P>(nodes: seq<Node<P>>, r: seq<Node<P>>)
    requires WellFormed(nodes) && |nodes| == 1 && SameShape(nodes, r) && WellFormed(r) && Collapsed(r, 0)
    ensures r == [Node(nodes[0].puzzle, None, [])]
  {
    assert r[0].parent == None;
  }

  /** The queue holding only the root node, with nothing seen, is a search state. */
  lemma StartSearching<P>(c: Contract<P>, reach: set<P>, puzzle: P)
    requires Closed(c, reach) && puzzle in reach
    ensures Searching(c, reach, [Node(puzzle, None, Pendings(c.extensions(puzzle)))], 0, {}, {})
  {
    var nodes := [Node(puzzle, None, Pendings(c.extensions(puzzle)))];
    assert IndexKeys(c, nodes, {}) == {};
  }

  /**
   * `search_queue(q, seen)`: runs steps until the queue `nodes[head..]` is
   * empty or a solved node has been collapsed onto the root. A fresh search
   * (one root, nothing seen) ends at once on a root that fails fast, and
   * with the bare root when the root itself is solved.
   */
  method SearchQueue<P(==)>(c: Contract<P>, ghost reach: set<P>, nodes0: seq<Node<P>>, head0: nat,
                            seen0: set<string>, ghost expanded0: set<nat>)
    returns (nodes: seq<Node<P>>, head: nat, seen: set<string>, ghost expanded: set<nat>, root: Option<nat>, ghost goal: nat)
    requires Searching(c, reach, nodes0, head0, seen0, expanded0)
    ensures Grows(nodes0, nodes)
    ensures root.None? ==> head == |nodes| && Searching(c, reach, nodes, head, seen, expanded)
    ensures root.Some? ==> root.value == 0 && Found(c, reach, nodes, head, seen, expanded, goal)
    ensures head0 == 0 && |nodes0| == 1 && seen0 == {} && c.failFast(nodes0[0].puzzle) ==>
      root.None? && nodes == nodes0
    ensures head0 == 0 && |nodes0| == 1 && seen0 == {} && c.isSolved(nodes0[0].puzzle) && !c.failFast(nodes0[0].puzzle) ==>
      root == Some(0) && nodes == [Node(nodes0[0].puzzle, None, [])]
  {
    ghost var lone := head0 == 0 && |nodes0| == 1 && seen0 == {};
    ghost var p0 := nodes0[0].puzzle;
    nodes, head, seen, expanded, root, goal := nodes0, head0, seen0, expanded0, None, 0;
    while head < |nodes| && root.None?
      invariant Grows(nodes0, nodes)
      invariant root.None? ==> Searching(c, reach, nodes, head, seen, expanded)
      invariant root.Some? ==> root.value == 0 && Found(c, reach, nodes, head, seen, expanded, goal)
      invariant lone && head == 0 ==> root.None? && seen == {} && nodes == nodes0
      invariant lone && 0 < head && c.failFast(p0) ==> root.None? && nodes == nodes0
      invariant lone && 0 < head && c.isSolved(p0) && !c.failFast(p0) ==> root == Some(0) && nodes == [Node(p0, None, [])]
      decreases |Keys(c, reach) - seen|, |nodes| - head
    {
      ghost var pre := nodes;
      ghost var first := lone && head == 0;
      nodes, head, seen, expanded, root, goal := Step(c, reach, nodes, head, seen, expanded);
      GrowsTrans(nodes0, pre, nodes);
      if first && c.isSolved(p0) && !c.failFast(p0) {
        LoneRoot(pre, nodes);
      }
    }
  }

  /**
   * `breadth_first_solve(puzzle)`: the arena the search built and its
   * answer, None or the root of a shortest chain from `puzzle` to a solved
   * configuration. `seen` is the final seen set, `expanded` the nodes
   * processed and found unsolved, `goal` the solved node collapsed onto.
   */
  method BreadthFirstSolve<P(==)>(c: Contract<P>, puzzle: P, ghost reach: set<P>)
    returns (nodes: seq<Node<P>>, root: Option<nat>, seen: set<string>, ghost expanded: set<nat>, ghost goal: nat)
    requires Closed(c, reach) && puzzle in reach
    ensures LevelOrder(c, reach, puzzle, nodes) && ExpandedUnsolved(c, nodes, expanded)
    ensures root.Some? ==> root.value == 0 && Shortest(c, nodes, expanded, goal)
    ensures root.None? ==> Exhausted(c, nodes, seen, expanded)
    ensures root.None? && KeysInjective(c, reach) && !c.failFast(puzzle) ==>
      forall ps | Chain(c, ps) && ps[0] == puzzle :: !c.isSolved(ps[|ps| - 1])
    ensures c.failFast(puzzle) ==> root.None? && nodes == [Node(puzzle, None, Pendings(c.extensions(puzzle)))]
    ensures c.isSolved(puzzle) && !c.failFast(puzzle) ==> root == Some(0) && nodes == [Node(puzzle, None, [])]
  {
    var start := [Node(puzzle, None, Pendings(c.extensions(puzzle)))];
    var head: nat;
    StartSearching(c, reach, puzzle);
    nodes, head, seen, expanded, root, goal := SearchQueue(c, reach, start, 0, {}, {});
    if root.Some? {
      FoundOutcome(c, reach, nodes, head, seen, expanded, goal);
    } else {
      ExhaustedOutcome(c, reach, nodes, seen, expanded);
    }
    LevelOrderHolds(c, reach, puzzle, nodes, head);
    if root.None? && KeysInjective(c, reach) && !c.failFast(puzzle) {
      ExhaustedUnsolvable(c, reach, nodes, seen, expanded);
    }
  }
}
