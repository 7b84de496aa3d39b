/**
 * The tree of search nodes (`PuzzleNode` in puzzle_tools.py), held as an
 * arena: node `i` is `nodes[i]`, its parent link is an index, and its
 * children list holds either not-yet-wrapped successor puzzles (what the
 * searches store when they create a node) or links to other nodes (what the
 * solution-path collapse writes).
 */
module SearchTree {
  import opened Common
  import opened Puzzles

  /** One entry of a node's `children` list. */
  datatype Child<P> = Pending(puzzle: P) | Link(index: nat)

  datatype Node<P> = Node(puzzle: P, parent: Option<nat>, children: seq<Child<P>>)

  /** The children list `[i for i in puzzle.extensions()]` stored in a fresh node. */
  function Pendings<P>(ps: seq<P>): (r: seq<Child<P>>)
    ensures |r| == |ps|
    ensures forall i | 0 <= i < |ps| :: r[i] == Pending(ps[i])
  {
    if ps == [] then [] else [Pending(ps[0])] + Pendings(ps[1..])
  }

  /**
   * `PuzzleNode(puzzle, children, parent)`: the children list is copied (a
   * value here, so later changes to the caller's list cannot reach the node),
   * and a missing list becomes the empty list.
   */
  function NewNode<P>(puzzle: P, children: Option<seq<Child<P>>>, parent: Option<nat>): (n: Node<P>)
    ensures n.puzzle == puzzle && n.parent == parent
    ensures children.None? ==> n.children == []
    ensures children.Some? ==> n.children == children.value
  {
    Node(puzzle, parent, match children case None => [] case Some(cs) => cs)
  }

  /** `x in cs`, with `eq` standing for Python's `==` on list entries. */
  predicate Contains<P>(cs: seq<Child<P>>, x: Child<P>, eq: (Child<P>, Child<P>) -> bool)
  {
    exists k | 0 <= k < |cs| :: eq(x, cs[k])
  }

  /**
   * `PuzzleNode.__eq__`: equal puzzles and every child of each node is in
   * the other's children list; order and repetition do not matter.
   */
  predicate NodeEq<P>(a: Node<P>, b: Node<P>, puzzleEq: (P, P) -> bool, childEq: (Child<P>, Child<P>) -> bool)
  {
    puzzleEq(a.puzzle, b.puzzle) &&
    (forall k | 0 <= k < |b.children| :: Contains(a.children, b.children[k], childEq)) &&
    (forall k | 0 <= k < |a.children| :: Contains(b.children, a.children[k], childEq))
  }

  /** Two nodes holding equal puzzles and the same children, in any order and with any repetition, are equal. */
  lemma NodeEqIgnoresOrder<P>(a: Node<P>, b: Node<P>, puzzleEq: (P, P) -> bool, childEq: (Child<P>, Child<P>) -> bool)
    requires forall x :: childEq(x, x)
    requires puzzleEq(a.puzzle, b.puzzle)
    requires forall x :: x in a.children <==> x in b.children
    ensures NodeEq(a, b, puzzleEq, childEq)
  {
    forall k | 0 <= k < |b.children|
      ensures Contains(a.children, b.children[k], childEq)
    {
      var x := b.children[k];
      assert x in a.children;
      var j :| 0 <= j < |a.children| && a.children[j] == x;
      assert childEq(x, a.children[j]);
    }
    forall k | 0 <= k < |a.children|
      ensures Contains(b.children, a.children[k], childEq)
    {
      var x := a.children[k];
      assert x in b.children;
      var j :| 0 <= j < |b.children| && b.children[j] == x;
      assert childEq(x, b.children[j]);
    }
  }

  /** Nodes whose puzzles differ under `puzzleEq` are never equal, whatever their children. */
  lemma NodeEqNeedsEqualPuzzles<P>(a: Node<P>, b: Node<P>, puzzleEq: (P, P) -> bool, childEq: (Child<P>, Child<P>) -> bool)
    requires !puzzleEq(a.puzzle, b.puzzle)
    ensures !NodeEq(a, b, puzzleEq, childEq)
  {
  }

  /**
   * The arena as both searches build it: node 0 is the root and the only
   * node without a parent; every other node was appended after its parent.
   */
  predicate WellFormed<P>(nodes: seq<Node<P>>)
  {
    |nodes| > 0 && nodes[0].parent.None? &&
    forall i | 0 < i < |nodes| :: nodes[i].parent.Some? && nodes[i].parent.value < i
  }

  /** The chain of parent links from the root down to node `i`. */
  function Path<P>(nodes: seq<Node<P>>, i: nat): (path: seq<nat>)
    requires WellFormed(nodes) && i < |nodes|
    ensures |path| > 0 && path[0] == 0 && path[|path| - 1] == i
    ensures nodes[path[0]].parent.None?
    ensures forall k | 0 <= k < |path| :: path[k] <= i
    ensures forall k | 0 < k < |path| :: nodes[path[k]].parent == Some(path[k - 1])
    ensures forall k | 0 < k < |path| :: path[k - 1] < path[k]
    decreases i
  {
    match nodes[i].parent
    case None => [i]
    case Some(p) => Path(nodes, p) + [i]
  }

  /** On a path, only the first node lacks a parent. */
  lemma OnlyRootWithoutParent<P>(nodes: seq<Node<P>>, s: nat, k: nat)
    requires WellFormed(nodes) && s < |nodes| && k < |Path(nodes, s)|
    ensures nodes[Path(nodes, s)[k]].parent.None? <==> k == 0
  {
  }

  /** `b` extends `a` without changing any parent link of `a`. */
  ghost predicate SameParents<P>(a: seq<Node<P>>, b: seq<Node<P>>)
  {
    |a| <= |b| && forall i | 0 <= i < |a| :: b[i].parent == a[i].parent
  }

  /** Paths depend on parent links only, so rewriting children or appending nodes keeps them. */
  lemma {:induction false} PathStable<P>(a: seq<Node<P>>, b: seq<Node<P>>, i: nat)
    requires WellFormed(a) && WellFormed(b) && SameParents(a, b) && i < |a|
    ensures Path(b, i) == Path(a, i)
    decreases i
  {
    match a[i].parent
    case None =>
    case Some(p) => PathStable(a, b, p);
  }

  /** Every node of `Path(nodes, s)` before `s` has exactly the next path node as its only child; `s` has none. */
  ghost predicate Collapsed<P>(nodes: seq<Node<P>>, s: nat)
    requires WellFormed(nodes) && s < |nodes|
  {
    var path := Path(nodes, s);
    nodes[s].children == [] &&
    forall k | 0 <= k < |path| - 1 :: nodes[path[k]].children == [Link(path[k + 1])]
  }

  /** Each node's puzzle is an extension of its parent's puzzle. */
  ghost predicate Linked<P>(c: Contract<P>, nodes: seq<Node<P>>)
    requires WellFormed(nodes)
  {
    forall i | 0 < i < |nodes| :: nodes[i].puzzle in c.extensions(nodes[nodes[i].parent.value].puzzle)
  }

  /**
   * The arena as both searches keep it: well formed, each child an extension
   * of its parent, and every configuration within `reach`, a set closed
   * under extensions.
   */
  ghost predicate Within<P>(c: Contract<P>, reach: set<P>, nodes: seq<Node<P>>)
  {
    WellFormed(nodes) && Linked(c, nodes) && Closed(c, reach) &&
    forall i | 0 <= i < |nodes| :: nodes[i].puzzle in reach
  }

  /**
   * The chain a caller sees from node `i`: as long as a node's children list
   * is a single link to a later node, follow it.
   */
  function Follow<P>(nodes: seq<Node<P>>, i: nat): (chain: seq<nat>)
    requires i < |nodes|
    ensures |chain| > 0 && chain[0] == i
    ensures forall k | 0 <= k < |chain| :: chain[k] < |nodes|
    decreases |nodes| - i
  {
    var cs := nodes[i].children;
    if |cs| == 1 && cs[0].Link? && i < cs[0].index < |nodes| then [i] + Follow(nodes, cs[0].index) else [i]
  }

  /** A solution as both searches promise it: a root, extension steps, and a solved last configuration. */
  ghost predicate SolutionChain<P>(c: Contract<P>, nodes: seq<Node<P>>, chain: seq<nat>)
  {
    |chain| > 0 && (forall k | 0 <= k < |chain| :: chain[k] < |nodes|) &&
    nodes[chain[0]].parent.None? &&
    c.isSolved(nodes[chain[|chain| - 1]].puzzle) &&
    forall k | 0 < k < |chain| :: nodes[chain[k]].puzzle in c.extensions(nodes[chain[k - 1]].puzzle)
  }

  /** Following the children of a collapsed tree from the root walks exactly the parent chain of `s`. */
  lemma {:induction false} FollowCollapsed<P>(nodes: seq<Node<P>>, s: nat)
    requires WellFormed(nodes) && s < |nodes| && Collapsed(nodes, s)
    ensures Follow(nodes, 0) == Path(nodes, s)
  {
    var path := Path(nodes, s);
    var k := |path| - 1;
    assert Follow(nodes, path[k]) == path[k..];
    while k > 0
      invariant 0 <= k < |path|
      invariant Follow(nodes, path[k]) == path[k..]
      decreases k
    {
      k := k - 1;
      FollowLink(nodes, path[k], path[k + 1]);
      assert path[k..] == [path[k]] + path[k + 1..];
    }
  }

  /** A node whose only child is a link to a later node continues into that node's chain. */
  lemma FollowLink<P>(nodes: seq<Node<P>>, i: nat, j: nat)
    requires i < j < |nodes| && nodes[i].children == [Link(j)]
    ensures Follow(nodes, i) == [i] + Follow(nodes, j)
  {
  }

  /** A collapsed tree whose last node is solved and whose links are extension steps reads as a solution from its root. */
  lemma CollapsedIsSolution<P>(c: Contract<P>, nodes: seq<Node<P>>, s: nat)
    requires WellFormed(nodes) && s < |nodes| && Linked(c, nodes)
    requires Collapsed(nodes, s) && c.isSolved(nodes[s].puzzle)
    ensures Follow(nodes, 0) == Path(nodes, s)
    ensures SolutionChain(c, nodes, Follow(nodes, 0))
  {
    FollowCollapsed(nodes, s);
    var path := Path(nodes, s);
    forall k | 0 < k < |path|
      ensures nodes[path[k]].puzzle in c.extensions(nodes[path[k - 1]].puzzle)
    {
      assert path[k] > 0;
    }
  }

  /** Puzzles and parent links are those of `a`; only children lists may differ. */
  ghost predicate SameShape<P>(a: seq<Node<P>>, b: seq<Node<P>>)
  {
    |a| == |b| && forall i | 0 <= i < |a| :: b[i].puzzle == a[i].puzzle && b[i].parent == a[i].parent
  }

  /** Two trees of the same shape, both collapsed onto `s` and equal off its path, are equal. */
  lemma CollapsedAgree<P>(a: seq<Node<P>>, b: seq<Node<P>>, s: nat)
    requires WellFormed(a) && s < |a| && SameShape(a, b) && WellFormed(b)
    requires Path(b, s) == Path(a, s) && Collapsed(a, s) && Collapsed(b, s)
    requires forall i | 0 <= i < |a| && i !in Path(a, s) :: b[i] == a[i]
    ensures b == a
  {
    var path := Path(a, s);
    forall i | 0 <= i < |a|
      ensures b[i] == a[i]
    {
      if i in path {
        var j :| 0 <= j < |path| && path[j] == i;
        if j < |path| - 1 {
          assert b[i].children == [Link(path[j + 1])] == a[i].children;
        }
      }
    }
  }

  /** `b` keeps the configurations and parent links of `a`'s nodes and may add nodes after them. */
  ghost predicate Grows<P>(a: seq<Node<P>>, b: seq<Node<P>>)
  {
    |a| <= |b| && forall i | 0 <= i < |a| :: b[i].puzzle == a[i].puzzle && b[i].parent == a[i].parent
  }

  lemma GrowsTrans<P>(a: seq<Node<P>>, b: seq<Node<P>>, c: seq<Node<P>>)
    requires Grows(a, b) && Grows(b, c)
    ensures Grows(a, c)
  {
  }

  /**
   * Halfway through the collapse of `s`: the walk has reached the `k`-th node
   * of the path; `s` and the path nodes from there on hold their new children
   * lists, every other node is untouched.
   */
  ghost predicate CollapsingAt<P>(nodes: seq<Node<P>>, r: seq<Node<P>>, s: nat, k: nat)
    requires WellFormed(nodes) && s < |nodes|
  {
    var path := Path(nodes, s);
    k < |path| && SameShape(nodes, r) &&
    r[s].children == [] &&
    (forall j | k <= j < |path| - 1 :: r[path[j]].children == [Link(path[j + 1])]) &&
    (forall i | 0 <= i < path[k] :: r[i] == nodes[i]) &&
    (forall i | 0 <= i < |nodes| && i !in path :: r[i] == nodes[i])
  }

  lemma CollapseStart<P>(nodes: seq<Node<P>>, s: nat)
    requires WellFormed(nodes) && s < |nodes|
    ensures CollapsingAt(nodes, nodes[s := nodes[s].(children := [])], s, |Path(nodes, s)| - 1)
  {
  }

  lemma CollapseStep<P>(nodes: seq<Node<P>>, r: seq<Node<P>>, s: nat, k: nat)
    requires WellFormed(nodes) && s < |nodes| && CollapsingAt(nodes, r, s, k) && k > 0
    ensures var path := Path(nodes, s);
      CollapsingAt(nodes, r[path[k - 1] := r[path[k - 1]].(children := [Link(path[k])])], s, k - 1)
  {
    var path := Path(nodes, s);
    var p := path[k - 1];
    var r' := r[p := r[p].(children := [Link(path[k])])];
    forall j | k <= j < |path|
      ensures p < path[j]
    {
      PathIncreasing(nodes, s, k, j);
    }
    assert SameShape(nodes, r');
    assert r'[s].children == [];
    forall j | k - 1 <= j < |path| - 1
      ensures r'[path[j]].children == [Link(path[j + 1])]
    {
      if j >= k {
        assert path[j] != p;
      }
    }
    assert forall i | 0 <= i < p :: r'[i] == nodes[i];
    assert forall i | 0 <= i < |nodes| && i !in path :: r'[i] == nodes[i];
  }

  /** Path indices grow along the path. */
  lemma {:induction false} PathIncreasing<P>(nodes: seq<Node<P>>, s: nat, k: nat, j: nat)
    requires WellFormed(nodes) && s < |nodes| && k <= j < |Path(nodes, s)|
    ensures Path(nodes, s)[k] <= Path(nodes, s)[j]
    decreases j - k
  {
    if k < j {
      PathIncreasing(nodes, s, k + 1, j);
    }
  }

  lemma CollapseEnd<P>(nodes: seq<Node<P>>, r: seq<Node<P>>, s: nat)
    requires WellFormed(nodes) && s < |nodes| && CollapsingAt(nodes, r, s, 0)
    ensures WellFormed(r) && Path(r, s) == Path(nodes, s) && Collapsed(r, s)
    ensures forall i | 0 <= i < |nodes| && i !in Path(nodes, s) :: r[i] == nodes[i]
    ensures Collapsed(nodes, s) ==> r == nodes
  {
    PathStable(nodes, r, s);
    if Collapsed(nodes, s) {
      CollapsedAgree(nodes, r, s);
    }
  }

  /**
   * The solution-path collapse both searches run on a solved node `s`:
   * empty its children, then walk the parent links upward, making each
   * parent's children list the one node just left. Returns the root.
   */
  method Collapse<P>(nodes: seq<Node<P>>, s: nat) returns (r: seq<Node<P>>, root: nat)
    requires WellFormed(nodes) && s < |nodes|
    ensures SameShape(nodes, r) && WellFormed(r)
    ensures Path(r, s) == Path(nodes, s)
    ensures Collapsed(r, s)
    ensures root == 0 && r[root].parent.None?
    ensures forall i | 0 <= i < |nodes| && i !in Path(nodes, s) :: r[i] == nodes[i]
    ensures Collapsed(nodes, s) ==> r == nodes
  {
    r := nodes[s := nodes[s].(children := [])];
    var cur := s;
    ghost var k: nat := |Path(nodes, s)| - 1;
    CollapseStart(nodes, s);
    while r[cur].parent.Some?
      invariant CollapsingAt(nodes, r, s, k)
      invariant k < |Path(nodes, s)| && cur == Path(nodes, s)[k]
      invariant |r| == |nodes| && cur <= s
      decreases k
    {
      OnlyRootWithoutParent(nodes, s, k);
      var p := r[cur].parent.value;
      CollapseStep(nodes, r, s, k);
      r := r[p := r[p].(children := [Link(cur)])];
      cur := p;
      k := k - 1;
    }
    OnlyRootWithoutParent(nodes, s, k);
    root := cur;
    CollapseEnd(nodes, r, s);
  }
}
