# Automated puzzle solving, modelled in Dafny

The repository solves puzzles by searching their configurations. A puzzle
offers four things:

- its `extensions()`, the configurations one move away;
- `is_solved()`;
- `fail_fast()`, a hint to prune a hopeless configuration;
- `str()`, the key the searches use to remember what they have visited.

`puzzle_tools.py` holds two generic solvers built on `PuzzleNode`, a tree
node with a parent link and a children list:

- `depth_first_solve` is a recursive search with one shared `visited` set.
  It records its answer in a shared one-element list.
- `breadth_first_solve` is a FIFO queue search. Its `seen` set is marked
  when a node is taken off the queue.

When either search meets a solved node, it collapses the tree onto that
node. The solved node loses its children. Then each ancestor, up the parent
links, is given a children list holding just the node below it. The root is
returned. Three puzzles implement the protocol:

- grid peg solitaire (`grid_peg_solitaire_puzzle.py`);
- the n-by-m sliding-tile puzzle (`mn_puzzle.py`);
- the word ladder (`word_ladder_puzzle.py`).

The model is split into modules:

- `Puzzles` (puzzle.dfy) is the protocol, a `Contract` of four functions.
- `SearchTree` (search_tree.dfy) holds `PuzzleNode`s as an arena, a
  sequence of nodes whose parent links are indices. It also holds the
  shared collapse, as a loop over parent indices.
- `DepthFirst` (depth_first.dfy) is the recursive search. It is a class
  whose fields are the arena, the `visited` set and the result cell. Each
  recursive call is a method that changes them.
- `BreadthFirst` (breadth_first.dfy) is the queue loop. The queue is the
  arena from index `head` on.
- `PegSolitaire`, `SlidingTile` and `WordLadder` are the three puzzles. Each
  has its `extensions` loop as a method, proved equal to a recursive
  function that enumerates the moves in the same order. Each has lemmas
  saying what the moves are.
- `Text` holds the string helpers the `__str__` methods share.
- `Common` holds `Option` and `Result`.

Both searches terminate on a finite set `reach` of configurations that is
closed under extensions. The decreasing measure is the number of keys of
`reach` not yet visited or seen. `WordLadder.ReachClosed` builds such a set
for every word ladder. When keys tell the configurations of `reach` apart
(`WordLadder.ReachKeysInjective`), an answer of None from either search
means no chain of moves reaches a solved configuration.

The sliding-tile model keeps two behaviours of the code as written:

- The blank search's `break` leaves only the inner loop. With several `*`,
  the blank used is the first one in the last row that has one.
- With no `*` at all, the position stays (-1, -1). Python's negative
  indices then produce two configurations. `SlidingTile.NoBlankExample`
  shows them.

The search key of a sliding-tile configuration concatenates its symbols.
Two different grids with multi-character symbols can therefore share a key
(`SlidingTile.RenderCollision`). Grids of one-character symbols cannot
(`SlidingTile.RenderInjective`).

## Model

| member | source | states |
|---|---|---|
| Puzzles.FewerMissing | puzzle_tools.py:63 | Recording a key that was not yet visited strictly shrinks the set of keys still unvisited, which is the measure both searches terminate on |
| SearchTree.Pendings | puzzle_tools.py:84 | The children list `[i for i in puzzle.extensions()]` holds every extension, in order, one entry each |
| SearchTree.NewNode | puzzle_tools.py:156-160 | `PuzzleNode(puzzle, children, parent)` keeps the puzzle and parent; a missing children list becomes empty, and a given one is held as a copy |
| SearchTree.NodeEqIgnoresOrder | puzzle_tools.py:179-182 | Two nodes with equal puzzles and the same children, in any order and with any repetition, are equal |
| SearchTree.NodeEqNeedsEqualPuzzles | puzzle_tools.py:179-180 | Nodes whose puzzles differ are never equal, whatever their children |
| SearchTree.Path | puzzle_tools.py:68-71 | The parent chain the collapse walks starts at the root, the only node without a parent, ends at the given node and climbs to strictly smaller indices |
| SearchTree.OnlyRootWithoutParent | puzzle_tools.py:68 | On a parent chain, a node lacks a parent exactly when it is the first one, so the collapse stops at the root |
| SearchTree.PathStable | puzzle_tools.py:65-71 | Rewriting children lists or appending nodes leaves every node's parent chain unchanged |
| SearchTree.FollowCollapsed | puzzle_tools.py:65-73 | After the collapse, following single-child links from the root walks exactly the parent chain of the solved node |
| SearchTree.FollowLink | puzzle_tools.py:70 | A node whose children list is the one later node continues into that node's chain |
| SearchTree.CollapsedIsSolution | puzzle_tools.py:64-73 | A collapsed tree with a solved last node and extension links reads from its root as a chain of extensions ending in a solved configuration |
| SearchTree.CollapsedAgree | puzzle_tools.py:65-71 | Two trees with the same puzzles and parent links, both collapsed onto the same node and equal off its chain, are equal, so the collapse's outcome does not depend on the children it overwrites |
| SearchTree.CollapseStart | puzzle_tools.py:65 | Emptying the solved node's children begins the collapse at the end of its chain |
| SearchTree.CollapseStep | puzzle_tools.py:68-71 | Giving the parent a children list of just the current node moves the collapse one step up the chain and touches nothing else |
| SearchTree.CollapseEnd | puzzle_tools.py:68-73 | When the walk reaches the root, the tree is collapsed onto the solved node, nodes off the chain are untouched, and the parent links are unchanged |
| SearchTree.Collapse | puzzle_tools.py:65-73 | The collapse loop returns the root (no parent). Afterwards the solved node has no children, each ancestor's only child is the next chain node, nodes off the chain are unchanged, and puzzles and parent links are kept |
| DepthFirst.Unvisited | puzzle_tools.py:77-78 | The successor list built once per call holds exactly the extensions whose key is not yet visited and which do not fail fast |
| DepthFirst.UnvisitedCounts | puzzle_tools.py:77-78 | Each kept extension occurs in the successor list as often as in the extension list, and no other configuration occurs at all |
| DepthFirst.UnvisitedAppend | puzzle_tools.py:77-78 | The comprehension keeps the extensions' order: filtering two runs of extensions one after the other gives the two filtered runs one after the other |
| DepthFirst.UnvisitedSettled | puzzle_tools.py:76-80 | Once every successor of the list is visited, every extension of the node is visited or fails fast |
| DepthFirst.CollapsedAppend | puzzle_tools.py:76-80 | A node entered after a collapse (the loop is not broken) leaves the collapsed chain intact |
| DepthFirst.TreeAppend | puzzle_tools.py:79 | Adding `PuzzleNode(next_, ..., node)` for a non-failing extension keeps the tree well formed, linked and within `reach` |
| DepthFirst.DepthFirstSearch.constructor | puzzle_tools.py:83-85 | The set-up: an empty visited set, no result, and a root node holding the puzzle's extensions |
| DepthFirst.DepthFirstSearch.AddChild | puzzle_tools.py:79 | Appends the child node with its parent link and its extensions, and changes nothing else |
| DepthFirst.DepthFirstSearch.RecordSolution | puzzle_tools.py:65-73 | Collapses the tree onto the solved node and stores the root (index 0) as the result, keeping puzzles, parents and the visited set |
| DepthFirst.DepthFirstSearch.Enter | puzzle_tools.py:63-73 | Adds the entered node's key to `visited`. The result is None exactly when no node is solved, a recorded result stays recorded, and a solved entered node leaves the tree collapsed onto it |
| DepthFirst.DepthFirstSearch.Dfs | puzzle_tools.py:61-81 | One call: `visited` ends as the keys of all nodes created, and it grows by the entered key at least. The result is None iff no node is solved. Once a result is recorded, the call creates no node and only adds its own key, so no call expands after a solution. A solved node is collapsed onto. When no result is recorded, every extension of each node the call created is visited or fails fast |
| DepthFirst.DepthFirstSearch.Expand | puzzle_tools.py:76-80 | Recursing into every successor of the once-built list, even after a result appears, keeps the tree's invariants and the result None iff no node is solved. Afterwards every extension of the node is visited or fails fast; with no result, so is every extension of each node created below it |
| DepthFirst.DepthFirstSearch.Descend | puzzle_tools.py:79-80 | One round of the loop: creates the child and recurses. The child's key ends up visited, `visited` only grows, a recorded result stays recorded, and with no result every extension of each node created is visited or fails fast |
| DepthFirst.ChainInArena | puzzle_tools.py:61-86 | When every extension of every node is visited or fails fast, and keys tell the configurations of `reach` apart, every configuration a chain of moves from the root reaches is held by a node |
| DepthFirst.ArenaUnsolvable | puzzle_tools.py:61-86 | An unsolved arena in which every extension of every node is visited or fails fast leaves no chain of moves from the root to a solved configuration |
| DepthFirst.SolveOutcome | puzzle_tools.py:64-73 | A recorded result is the root of a chain of extensions ending in a solved configuration |
| DepthFirst.DepthFirstSolve | puzzle_tools.py:83-86 | Returns None iff no configuration entered is solved, and None whenever nothing in `reach` is solved. Otherwise it returns the root of a chain from the puzzle, through extensions, to a solved configuration. A solved puzzle gives the bare root. The final `visited` holds the keys of the nodes created. With None, every extension of every node is visited or fails fast, and, when keys tell the configurations of `reach` apart, no chain of moves from the puzzle reaches a solved configuration |
| BreadthFirst.SkipStep | puzzle_tools.py:104-105 | Taking off a node whose key was seen or that fails fast changes only the queue's front |
| BreadthFirst.AppendFifo | puzzle_tools.py:127 | Appending children of the node being processed keeps the queue first in, first out |
| BreadthFirst.AppendWithin | puzzle_tools.py:122-127 | Appending nodes for extensions of the processed node keeps the arena linked and within `reach` |
| BreadthFirst.SolveStep | puzzle_tools.py:108-118 | A fresh solved node taken off the queue and collapsed onto ends the search with that node as the goal |
| BreadthFirst.Enqueued | puzzle_tools.py:122-127 | The nodes the children loop appends each have the processed node as parent, an unseen key, a child of it as puzzle, and their own extensions as children |
| BreadthFirst.EnqueuedSnoc | puzzle_tools.py:125-127 | A child's node, when its key is unseen, comes after the nodes of the children before it |
| BreadthFirst.EnqueueChildren | puzzle_tools.py:122-127 | The children loop appends exactly the `Enqueued` nodes, in order |
| BreadthFirst.EnqueuedCovers | puzzle_tools.py:125-127 | Every child whose key is unseen gets a node |
| BreadthFirst.EnqueuedCovered | puzzle_tools.py:122-127 | After the children loop, each extension of the processed node was seen or is held by a node |
| BreadthFirst.ExploredExpand | puzzle_tools.py:108-127 | The processed node joins the expanded ones once its extensions are accounted for |
| BreadthFirst.ExpandStep | puzzle_tools.py:104-127 | Taking off a fresh unsolved node, marking it seen and enqueueing its children keeps the search invariant |
| BreadthFirst.DepthSorted | puzzle_tools.py:101-127 | A node's parent chain is never shorter than that of a node created before it, so nodes leave the queue in order of depth |
| BreadthFirst.LevelOrderHolds | puzzle_tools.py:101-127 | The arena of a search is rooted at the puzzle, linked, within `reach` and in order of depth |
| BreadthFirst.FoundOutcome | puzzle_tools.py:110-118 | A search stopped on a solved node returns a chain from the root to it, and every shallower node fails fast or shares its key with an expanded, unsolved node |
| BreadthFirst.ExhaustedOutcome | puzzle_tools.py:99-129 | A search whose queue ran empty saw every node or found it failing fast, and saw every extension of each expanded node or found it failing fast |
| BreadthFirst.Step | puzzle_tools.py:101-127 | One loop round, in its three cases. A seen or failing node changes nothing. A fresh solved node is added to `seen` and collapsed onto. A fresh unsolved node is added to `seen` and its unseen children are enqueued. Unseen keys never increase, and strictly decrease unless nothing changed |
| BreadthFirst.LoneRoot | puzzle_tools.py:111-118 | Collapsing a one-node tree leaves the bare root |
| BreadthFirst.StartSearching | puzzle_tools.py:131-135 | The queue holding only the root, with nothing seen, satisfies the search invariant |
| BreadthFirst.SearchQueue | puzzle_tools.py:97-129 | Loops until the queue is empty (answer None) or a solved node is collapsed onto the root. A fresh search with a failing root ends at once, and a solved root gives the bare root |
| BreadthFirst.ChainExpanded | puzzle_tools.py:97-129 | After the queue ran empty, when the root does not fail fast and keys tell the configurations of `reach` apart, an expanded node holds every configuration a chain of moves from the root reaches |
| BreadthFirst.ExhaustedUnsolvable | puzzle_tools.py:97-129 | A search that ran out of queue leaves no chain of moves from the root to a solved configuration |
| BreadthFirst.BreadthFirstSolve | puzzle_tools.py:131-136 | Returns None only when the queue ran empty: every node was seen or fails fast, and so was every extension of an expanded node. With None, a root that does not fail fast and keys that tell the configurations of `reach` apart, no chain of moves from the puzzle reaches a solved configuration. Otherwise it returns the root of a chain to a solved goal node, and no node of the tree shallower than the goal is solved: each fails fast or shares its key with an expanded, unsolved node. The tree is in order of depth |
| Text.RStrip | grid_peg_solitaire_puzzle.py:81 | `rstrip(chars)` removes exactly the longest suffix made of the given characters |
| Text.Lines | grid_peg_solitaire_puzzle.py:76-80 | Each row followed by a newline; the result is empty or ends with a newline |
| Text.StripFinalNewline | mn_puzzle.py:67-73 | If the last row ends in a character that is kept, stripping removes exactly the final newline |
| Text.EmptyLinesStripEmpty | grid_peg_solitaire_puzzle.py:76-81 | Rows that are all empty strip down to the empty string |
| Text.LinesInjective | grid_peg_solitaire_puzzle.py:76-80 | Without newlines inside rows, the joined text determines the rows |
| PegSolitaire.Create | grid_peg_solitaire_puzzle.py:20-25 | A configuration exists iff the grid is non-empty and rectangular, every cell is in the marker set, and the marker set is within {*, ., #} |
| PegSolitaire.CreateGrid | grid_peg_solitaire_puzzle.py:147-162 | `create_grid` returns the grid with cell (x, y) replaced and nothing else changed |
| PegSolitaire.NoPegNoRowMoves | grid_peg_solitaire_puzzle.py:166 | Skipping a row without a peg loses no move |
| PegSolitaire.JumpGrid | grid_peg_solitaire_puzzle.py:173-175 | The three `create_grid` calls of a jump empty the start and middle cells and fill the landing cell |
| PegSolitaire.AppendJump | grid_peg_solitaire_puzzle.py:171-206 | Each of the four guarded checks appends the jump in its direction, if the guard allows it |
| PegSolitaire.AppendPegMoves | grid_peg_solitaire_puzzle.py:168-206 | For a peg, appends its jumps in the order left, right, up, down; for another cell, nothing |
| PegSolitaire.AppendRow | grid_peg_solitaire_puzzle.py:166-206 | Appends the moves of the row's pegs from left to right |
| PegSolitaire.Extensions | grid_peg_solitaire_puzzle.py:164-207 | The extensions are the successors in row-major peg order, each peg trying left, right, up, down |
| PegSolitaire.JumpedIsJump | grid_peg_solitaire_puzzle.py:171-205 | The three writes along a direction turn "**." into "..*" and change no other cell |
| PegSolitaire.JumpSound | grid_peg_solitaire_puzzle.py:171-206 | What a guard lets through is such a jump, with the same marker set |
| PegSolitaire.PegMovesSound | grid_peg_solitaire_puzzle.py:168-206 | Every move of a peg is a jump of that peg in some direction |
| PegSolitaire.JumpIsJumped | grid_peg_solitaire_puzzle.py:173-204 | A jump is determined by the grid, the peg and the direction |
| PegSolitaire.JumpComplete | grid_peg_solitaire_puzzle.py:171-206 | Every jump available on the grid passes the guard of its direction |
| PegSolitaire.RowMovesComplete | grid_peg_solitaire_puzzle.py:167-206 | A move of a peg in a row is among the row's moves |
| PegSolitaire.SuccessorsExactly | grid_peg_solitaire_puzzle.py:164-207 | A configuration is an extension iff it is one jump away with the same marker set |
| PegSolitaire.PutCount | grid_peg_solitaire_puzzle.py:158-161 | Writing one cell changes the peg count by what was written minus what was there |
| PegSolitaire.JumpCount | grid_peg_solitaire_puzzle.py:173-204 | A jump removes exactly one peg |
| PegSolitaire.SuccessorsTakeOnePeg | grid_peg_solitaire_puzzle.py:171-206 | Every extension has exactly one peg fewer than its parent |
| PegSolitaire.FewPegsNoSuccessors | grid_peg_solitaire_puzzle.py:171-201 | A grid with at most one peg, a solved one in particular, has no extensions |
| PegSolitaire.JumpKeepsLayout | grid_peg_solitaire_puzzle.py:173-204 | A jump keeps the grid's shape and its `#` cells, and changes cells only between `*` and `.` |
| PegSolitaire.SuccessorsKeepLayout | grid_peg_solitaire_puzzle.py:171-206 | An extension has its parent's dimensions, marker set and `#` cells |
| PegSolitaire.SuccessorsValid | grid_peg_solitaire_puzzle.py:176-177 | The extensions of a valid configuration pass the assertions of `__init__` |
| PegSolitaire.IsSolved | grid_peg_solitaire_puzzle.py:233-238 | The counting loop answers true iff the grid holds exactly one peg |
| PegSolitaire.Equal | grid_peg_solitaire_puzzle.py:52-53 | Equal iff the marker grids and the marker sets are equal |
| PegSolitaire.ToString | grid_peg_solitaire_puzzle.py:76-81 | The string is the rows, each joined and followed by a newline, with the trailing newlines stripped |
| PegSolitaire.RenderDropsFinalNewline | grid_peg_solitaire_puzzle.py:76-81 | When the last row is not empty, exactly the final newline is stripped |
| PegSolitaire.EmptyRowsRenderEmpty | grid_peg_solitaire_puzzle.py:76-81 | A grid whose rows are all empty renders as the empty string |
| PegSolitaire.RenderInjective | grid_peg_solitaire_puzzle.py:76-81 | Grids without newline markers and with a non-empty last row have different keys when they differ |
| SlidingTile.Create | mn_puzzle.py:22-26 | A configuration exists iff `from_grid` is non-empty and both grids are rectangular |
| SlidingTile.PyIndex | mn_puzzle.py:156-172 | Python list indexing: a negative index counts from the end, and an index outside the list raises |
| SlidingTile.FirstBlank | mn_puzzle.py:149-152 | The inner loop's `break` stops at the first `*` of a row |
| SlidingTile.FindBlank | mn_puzzle.py:146-152 | The nested blank search returns the first `*` of the last row holding one, or (-1, -1) when there is none |
| SlidingTile.BlankInMeaning | mn_puzzle.py:146-152 | The position is (-1, -1) iff no row has a `*`; otherwise it is the first `*` of the last row with one |
| SlidingTile.BlankPosUnique | mn_puzzle.py:146-152 | With exactly one `*`, the search finds it |
| SlidingTile.ShiftCopy | mn_puzzle.py:155-157 | Copying the grid and assigning the two cells either raises IndexError or swaps the blank with the neighbour, exactly as Python indexing does |
| SlidingTile.ShiftInside | mn_puzzle.py:155-173 | When both cells are inside the grid, the copy-and-assign is a swap |
| SlidingTile.TriedErrStays | mn_puzzle.py:154-173 | Once an assignment raises, `extensions` raises that error |
| SlidingTile.Extensions | mn_puzzle.py:143-175 | The method returns the successors, or the IndexError Python raises, trying up, left, down, right in that order |
| SlidingTile.Part | mn_puzzle.py:154-173 | Each direction contributes at most one configuration |
| SlidingTile.AddShiftInside | mn_puzzle.py:155-158 | An in-grid move appends the slid configuration |
| SlidingTile.AllowedInside | mn_puzzle.py:154-169 | For a rectangular grid, the code's guards admit a move exactly when the neighbour is inside the grid |
| SlidingTile.TriedInside | mn_puzzle.py:154-173 | For a valid configuration, no assignment raises, and the result is the in-grid slides in the order up, left, down, right |
| SlidingTile.SuccessorsOneBlank | mn_puzzle.py:143-175 | With exactly one `*`, the extensions are the slides of the blank into its in-grid neighbours, in order |
| SlidingTile.NeighboursBound | mn_puzzle.py:154-173 | At most one configuration per direction |
| SlidingTile.NeighboursAreSlides | mn_puzzle.py:155-173 | Every extension swaps the blank with an in-grid orthogonal neighbour |
| SlidingTile.SlidesAreNeighbours | mn_puzzle.py:154-173 | Every in-grid slide of the blank is among the extensions |
| SlidingTile.RowWriteSymbols | mn_puzzle.py:156 | Writing one cell of a row trades the old symbol for the new one in the row's multiset |
| SlidingTile.WriteSymbols | mn_puzzle.py:156-157 | Writing one cell trades the old symbol for the new one in the grid's multiset of symbols |
| SlidingTile.SwapCells | mn_puzzle.py:156-157 | A swap exchanges the two cells and leaves every other cell and the dimensions unchanged |
| SlidingTile.SwapMovesBlank | mn_puzzle.py:156-157 | Swapping the only `*` moves it to the neighbour, and it stays the only one |
| SlidingTile.SwapSymbols | mn_puzzle.py:156-157 | Swapping the blank with a cell keeps the multiset of symbols |
| SlidingTile.SwapBack | mn_puzzle.py:156-157 | Swapping back restores the grid |
| SlidingTile.Opposite | mn_puzzle.py:154-173 | Every direction has an opposite with negated offsets |
| SlidingTile.SlideKeeps | mn_puzzle.py:155-173 | A slide keeps validity, `to_grid`, the multiset of symbols and exactly one `*`, now at the neighbour |
| SlidingTile.SlideBack | mn_puzzle.py:155-173 | The slide in the opposite direction undoes a slide and is among the moves of the new configuration |
| SlidingTile.SlideReversible | mn_puzzle.py:155-173 | Every extension is valid and keeps the symbols, `to_grid` and a single blank, and the original is among its extensions |
| SlidingTile.SuccessorsReversible | mn_puzzle.py:143-175 | For a valid configuration with exactly one `*`, the configuration is among the extensions of each of its extensions |
| SlidingTile.SuccessorsBound | mn_puzzle.py:154-173 | With exactly one `*`, `extensions` does not raise and returns at most four configurations |
| SlidingTile.NoBlankExample | mn_puzzle.py:146-173 | Without a `*`, the code as written uses position (-1, -1) and returns two configurations from the last row and column |
| SlidingTile.EmptyRowRaises | mn_puzzle.py:164-168 | A grid whose only row is empty makes `extensions` raise IndexError |
| SlidingTile.MatchesNextRow | mn_puzzle.py:195-196 | Finishing a row of comparisons moves on to the start of the next row |
| SlidingTile.MatchesNextCell | mn_puzzle.py:196-197 | All remaining cells match iff this one does and all later ones do |
| SlidingTile.CompareTrue | mn_puzzle.py:195-199 | The row-major comparison answers true iff every remaining cell of `from_grid` equals `to_grid`'s |
| SlidingTile.CompareStops | mn_puzzle.py:195-199 | Otherwise it stops at the first cell that is missing from `to_grid` (and raises IndexError) or differs (and answers false) |
| SlidingTile.IsSolved | mn_puzzle.py:195-199 | The nested loops with early return compute the comparison, error included |
| SlidingTile.SolvedMeaning | mn_puzzle.py:195-199 | Solved iff every cell of `from_grid` equals `to_grid`'s; the answer is true, false or IndexError, and IndexError only when a cell is missing from `to_grid` |
| SlidingTile.SolvedSameShape | mn_puzzle.py:195-199 | For grids of the same shape, solved iff the grids are equal |
| SlidingTile.SolvedExamples | mn_puzzle.py:184-192 | The documented examples, a larger `to_grid` that still counts as solved, and a smaller one that raises |
| SlidingTile.Equal | mn_puzzle.py:47-50 | Equal iff both grids are equal |
| SlidingTile.Joined | mn_puzzle.py:69-71 | Each row is the concatenation of its symbols |
| SlidingTile.ConcatSnoc | mn_puzzle.py:70-71 | Adding one symbol to a row extends its text by that symbol |
| SlidingTile.LinesSnoc | mn_puzzle.py:69-72 | Each row adds its text and a newline |
| SlidingTile.ToString | mn_puzzle.py:67-73 | The string is `from_grid`'s rows, each followed by a newline, with trailing whitespace stripped. `to_grid` plays no part |
| SlidingTile.RenderExample | mn_puzzle.py:60-65 | The documented example renders as "*23\n145" |
| SlidingTile.RenderCollision | mn_puzzle.py:67-73 | Two different grids with multi-character symbols render, and so key, alike |
| SlidingTile.ConcatSingles | mn_puzzle.py:69-71 | A row of one-character symbols renders as those characters |
| SlidingTile.ConcatSinglesInjective | mn_puzzle.py:69-71 | Such rows are determined by their text |
| SlidingTile.JoinedGlyphs | mn_puzzle.py:69-72 | Rows of one-character non-whitespace symbols give rows of their length, without newlines or whitespace |
| SlidingTile.RenderInjective | mn_puzzle.py:67-73 | Grids of one-character non-whitespace symbols with a non-empty last row are determined by their key |
| WordLadder.LettersSpelled | word_ladder_puzzle.py:23 | The substitution letters are a to z, in order |
| WordLadder.Substitute | word_ladder_puzzle.py:106-107 | The slice expression writes the letter at the index and keeps every other position and the length |
| WordLadder.AtIndices | word_ladder_puzzle.py:105-111 | The inner loop yields at most one configuration per index |
| WordLadder.ForLetters | word_ladder_puzzle.py:104-111 | The outer loop yields at most one configuration per letter and index |
| WordLadder.Extensions | word_ladder_puzzle.py:103-112 | The nested loops return the successors, letters in the outer loop and indices in the inner one |
| WordLadder.AtIndicesSound | word_ladder_puzzle.py:105-111 | What the inner loop appends is a word of the set, one substitution away, with the same target and word set |
| WordLadder.ForLettersSound | word_ladder_puzzle.py:104-111 | What the outer loop gathers is one substitution by a lower-case letter away |
| WordLadder.AtIndicesComplete | word_ladder_puzzle.py:105-111 | Every substitution that lands in the word set is found by the inner loop |
| WordLadder.ForLettersComplete | word_ladder_puzzle.py:104-111 | Every letter substitution that lands in the word set is found |
| WordLadder.SuccessorsExactly | word_ladder_puzzle.py:103-112 | A configuration is an extension iff its word is in the set and one lower-case substitution away, with the same target and set |
| WordLadder.SuccessorsBound | word_ladder_puzzle.py:104-105 | At most 26 times the word length extensions |
| WordLadder.SuccessorsOneApart | word_ladder_puzzle.py:104-111 | An extension has the same length and differs from the word in at most one position |
| WordLadder.SelfExtension | word_ladder_puzzle.py:104-110 | A word of the set with a lower-case letter is among its own extensions |
| WordLadder.NoWordsNoSuccessors | word_ladder_puzzle.py:109 | An empty word set gives no extensions |
| WordLadder.CabExample | word_ladder_puzzle.py:90-97 | The documented example: 'lab' is an extension of 'cab', 'mow' is not |
| WordLadder.Equal | word_ladder_puzzle.py:43-46 | Equal iff both words and the word set are equal |
| WordLadder.Key | word_ladder_puzzle.py:64 | The key is the from-word, " -> ", then the to-word |
| WordLadder.KeySeparator | word_ladder_puzzle.py:64 | The key starts with the from-word, followed by a space |
| WordLadder.KeyDistinguishesWords | word_ladder_puzzle.py:64 | The key ignores the word set, but for words without spaces it determines both words |
| WordLadder.ReachClosed | word_ladder_puzzle.py:103-112 | The start together with a configuration for every word of its set is a finite set closed under extensions, so both searches run on word ladders |
| WordLadder.ReachKeysInjective | word_ladder_puzzle.py:64 | When no word holds a space, the key tells apart the ladders a search meets, so a None answer from either search means no ladder exists |

## Left out

- The `__main__` blocks (timing, printing, reading `words.txt`), the recursion-limit setting and the commented-out iterative search: I/O, host tuning and dead code.
- `PuzzleNode.__str__` and the `__repr__` methods: display text only.
- puzzle.py, the `Puzzle` base class, is not part of this model. `fail_fast` is a parameter of the protocol. The word ladder, which does not override it, takes it as always false.
- Only the word ladder is plugged into the generic searches (`WordLadder.LadderContract`). The sliding-tile `extensions` can raise, and the peg-solitaire one is defined for rectangular grids only, so their properties are proved on their own.
- Objects and aliasing: nodes live in an arena indexed by position, and the searches' shared `visited` set, result list and queue are fields or values. Python object identity is not modelled. The deque is the arena from index `head` on.
- Python's recursion depth and hashing are not modelled.
- DepthFirst.DepthFirstSolve: requires a finite set `reach` closed under extensions and holding the puzzle, which the Python code does not demand. On an infinite state space the code may not terminate, and that is not modelled.
- BreadthFirst.BreadthFirstSolve: requires the same finite closed `reach`, for the same reason.
- BreadthFirst.BreadthFirstSolve: the answer is proved shortest among the nodes of the search tree only. That no chain of moves in the state space is shorter than the returned one is not proved. That would need the depth of the first node for each key carried through the queue invariant.
- SearchTree.NodeEqIgnoresOrder: `x in children` uses `PuzzleNode.__eq__` recursively. The model takes the child comparison and the puzzle comparison as parameters and does not unfold the recursion.
- The `type(self) == type(other)` tests and the MNPuzzle type assertion of `__eq__`, and the `isinstance` assertion of the peg-solitaire constructor: Dafny's types rule out other arguments.
- The `n` and `m` fields of MNPuzzle: nothing in the modelled code reads them.
- PegSolitaire.Extensions: requires a rectangular grid, as the constructor asserts. The IndexError a ragged grid could raise is not modelled.
- Peg-solitaire cells are characters; the code stores one-character strings.
- SlidingTile.Extensions: requires a non-empty `from_grid`, as the constructor asserts. Without rows, `from_grid[0]` would raise.
- SlidingTile.Equal and SlidingTile.SuccessorsReversible: rows are sequences, so the model does not tell tuple rows from list rows. `extensions` builds its grids as tuples of lists (mn_puzzle.py:155-173), while a configuration built from tuple rows holds tuples. Python's `==` on `from_grid` (mn_puzzle.py:47-50) tells them apart, so there a tuple-row configuration is not equal to the one its extension's extension gives back. The searches compare string keys, which are the same for both kinds.
- SlidingTile.SuccessorsReversible: proved for configurations with exactly one `*`. With several blanks, the code's choice of the last row's first blank does not make moves reversible.
- `WordLadder.IsSolved` and the peg-solitaire and sliding-tile `Render` functions are definitions without contracts. Their meaning is stated by the members above.
