/**
 * grid_peg_solitaire_puzzle.py: peg solitaire on a rectangular grid of
 * markers, "*" a peg, "." a hole and "#" a cell not in play. A move jumps a
 * peg over an orthogonally adjacent peg into the hole behind it and removes
 * the peg jumped over; the puzzle is solved when one peg is left.
 */
module PegSolitaire {
  import opened Common
  import opened Text

  /** `marker`: rows of one-character markers, `marker[y][x]` the cell in row `y`, column `x`. */
  type Grid = seq<seq<char>>

  datatype Peg = Peg(marker: Grid, markerSet: set<char>)

  /** The length of the first row; 0 for a grid without rows. */
  function Width(g: Grid): nat
  {
    if g == [] then 0 else |g[0]|
  }

  /** All rows are as long as the first. */
  predicate Rectangular(g: Grid)
  {
    forall y | 0 <= y < |g| :: |g[y]| == Width(g)
  }

  /** The assertions of `__init__`. */
  predicate Valid(marker: Grid, markerSet: set<char>)
  {
    |marker| > 0 && Rectangular(marker) &&
    (forall y, x | 0 <= y < |marker| && 0 <= x < |marker[y]| :: marker[y][x] in markerSet) &&
    forall ch | ch in markerSet :: ch == '*' || ch == '.' || ch == '#'
  }

  /** `GridPegSolitairePuzzle(marker, marker_set)`: None where an assertion fails. */
  function Create(marker: Grid, markerSet: set<char>): (r: Option<Peg>)
    ensures r.Some? <==> Valid(marker, markerSet)
    ensures r.Some? ==> r.value.marker == marker && r.value.markerSet == markerSet
  {
    if Valid(marker, markerSet) then Some(Peg(marker, markerSet)) else None
  }

  /** `create_grid`: the grid built from slices is `g` with the one cell `(x, y)` replaced by `v`. */
  function CreateGrid(g: Grid, x: nat, y: nat, v: char): (r: Grid)
    requires y < |g| && x < |g[y]|
    ensures r == Put(g, x, y, v)
  {
    assert g[y][..x] + [v] + g[y][x + 1..] == g[y][x := v];
    g[..y] + [g[y][..x] + [v] + g[y][x + 1..]] + g[y + 1..]
  }

  /** `g` with cell `(x, y)` replaced by `v`. */
  function Put(g: Grid, x: nat, y: nat, v: char): Grid
    requires y < |g| && x < |g[y]|
  {
    g[y := g[y][x := v]]
  }

  /** Cell `(x, y)` lies on the grid. */
  predicate Inside(g: Grid, x: int, y: int)
  {
    0 <= y < |g| && 0 <= x < |g[y]|
  }

  /** One jump: the cells `(x, y)` and `(x1, y1)` emptied, `(x2, y2)` filled, in that order. */
  function Jumped(g: Grid, x: nat, y: nat, x1: nat, y1: nat, x2: nat, y2: nat): Grid
    requires Inside(g, x, y) && Inside(g, x1, y1) && Inside(g, x2, y2)
  {
    Put(Put(Put(g, x, y, '.'), x1, y1, '.'), x2, y2, '*')
  }

  /** The four directions a peg may jump in, in the order `extensions` tries them. */
  datatype Direction = Left | Right | Up | Down

  /** The jump of the peg at `(x, y)` in direction `d`, when the guard of `extensions` lets it happen. */
  function Jump(p: Peg, x: nat, y: nat, d: Direction): seq<Peg>
    requires Rectangular(p.marker) && Inside(p.marker, x, y)
  {
    var m := p.marker;
    match d
    case Left =>
      if x >= 2 && m[y][x - 1] == '*' && m[y][x - 2] == '.'
      then [Peg(Jumped(m, x, y, x - 1, y, x - 2, y), p.markerSet)] else []
    case Right =>
      if x + 2 < |m[y]| && m[y][x + 1] == '*' && m[y][x + 2] == '.'
      then [Peg(Jumped(m, x, y, x + 1, y, x + 2, y), p.markerSet)] else []
    case Up =>
      if y >= 2 && m[y - 1][x] == '*' && m[y - 2][x] == '.'
      then [Peg(Jumped(m, x, y, x, y - 1, x, y - 2), p.markerSet)] else []
    case Down =>
      if y + 2 < |m| && m[y + 1][x] == '*' && m[y + 2][x] == '.'
      then [Peg(Jumped(m, x, y, x, y + 1, x, y + 2), p.markerSet)] else []
  }

  /** The order in which `extensions` tries the jumps of one peg. */
  const Directions: seq<Direction> := [Left, Right, Up, Down]

  /** The jumps of the peg at `(x, y)` in the first `k` directions of `Directions`. */
  function DirectionMoves(p: Peg, x: nat, y: nat, k: nat): seq<Peg>
    requires Rectangular(p.marker) && Inside(p.marker, x, y) && k <= |Directions|
  {
    if k == 0 then [] else DirectionMoves(p, x, y, k - 1) + Jump(p, x, y, Directions[k - 1])
  }

  /** The moves of the peg at `(x, y)`: none for a cell without a peg. */
  function PegMoves(p: Peg, x: nat, y: nat): seq<Peg>
    requires Rectangular(p.marker) && Inside(p.marker, x, y)
  {
    if p.marker[y][x] != '*' then [] else DirectionMoves(p, x, y, |Directions|)
  }

  /** The moves of the pegs in the first `n` columns of row `y`, left to right. */
  function RowMoves(p: Peg, y: nat, n: nat): seq<Peg>
    requires Rectangular(p.marker) && y < |p.marker| && n <= |p.marker[y]|
  {
    if n == 0 then [] else RowMoves(p, y, n - 1) + PegMoves(p, n - 1, y)
  }

  /** The moves of the pegs in the first `n` rows, in row-major order. */
  function RowsMoves(p: Peg, n: nat): seq<Peg>
    requires Rectangular(p.marker) && n <= |p.marker|
  {
    if n == 0 then [] else RowsMoves(p, n - 1) + RowMoves(p, n - 1, |p.marker[n - 1]|)
  }

  /** The extensions: every peg in row-major order, each as left, right, top, bottom. */
  function Successors(p: Peg): seq<Peg>
    requires Rectangular(p.marker)
  {
    RowsMoves(p, |p.marker|)
  }

  /** A cell without a peg contributes no move. */
  lemma NotPegNoMoves(p: Peg, x: nat, y: nat)
    requires Rectangular(p.marker) && Inside(p.marker, x, y) && p.marker[y][x] != '*'
    ensures PegMoves(p, x, y) == []
  {
  }

  /** A row without a peg contributes no move. */
  lemma {:induction false} NoPegNoRowMoves(p: Peg, y: nat, n: nat)
    requires Rectangular(p.marker) && y < |p.marker| && n <= |p.marker[y]|
    requires forall x | 0 <= x < n :: p.marker[y][x] != '*'
    ensures RowMoves(p, y, n) == []
    decreases n
  {
    if n > 0 {
      NoPegNoRowMoves(p, y, n - 1);
      NotPegNoMoves(p, n - 1, y);
    }
  }

  /** The three `create_grid` calls of a jump from `(x, y)` over `(x1, y1)` into `(x2, y2)`. */
  method JumpGrid(m: Grid, x: nat, y: nat, x1: nat, y1: nat, x2: nat, y2: nat) returns (g: Grid)
    requires Inside(m, x, y) && Inside(m, x1, y1) && Inside(m, x2, y2)
    ensures g == Jumped(m, x, y, x1, y1, x2, y2)
  {
    g := CreateGrid(m, x, y, '.');
    g := CreateGrid(g, x1, y1, '.');
    g := CreateGrid(g, x2, y2, '*');
  }

  /** Appending two parts one by one appends their concatenation. */
  lemma AppendThree<T>(s: seq<T>, a: seq<T>, b: seq<T>)
    ensures s + a + b == s + (a + b)
  {
  }

  /** One of the four checks `extensions` makes for the peg at `(x, y)`, appending the jump it allows. */
  method AppendJump(p: Peg, x: nat, y: nat, d: Direction, ext0: seq<Peg>) returns (ext: seq<Peg>)
    requires Rectangular(p.marker) && Inside(p.marker, x, y)
    ensures ext == ext0 + Jump(p, x, y, d)
  {
    var m := p.marker;
    ext := ext0;
    match d
    case Left =>
      if x >= 2 && m[y][x - 1] == '*' && m[y][x - 2] == '.' {
        var g := JumpGrid(m, x, y, x - 1, y, x - 2, y);
        ext := ext + [Peg(g, p.markerSet)];
      }
    case Right =>
      if x <= |m[y]| - 3 && m[y][x + 1] == '*' && m[y][x + 2] == '.' {
        var g := JumpGrid(m, x, y, x + 1, y, x + 2, y);
        ext := ext + [Peg(g, p.markerSet)];
      }
    case Up =>
      if y >= 2 && m[y - 1][x] == '*' && m[y - 2][x] == '.' {
        var g := JumpGrid(m, x, y, x, y - 1, x, y - 2);
        ext := ext + [Peg(g, p.markerSet)];
      }
    case Down =>
      if y <= |m| - 3 && m[y + 1][x] == '*' && m[y + 2][x] == '.' {
        var g := JumpGrid(m, x, y, x, y + 1, x, y + 2);
        ext := ext + [Peg(g, p.markerSet)];
      }
  }

  /** The body of the column loop of `extensions`: on a peg, the four checks left, right, top, bottom. */
  method AppendPegMoves(p: Peg, x: nat, y: nat, ext0: seq<Peg>) returns (ext: seq<Peg>)
    requires Rectangular(p.marker) && Inside(p.marker, x, y)
    ensures ext == ext0 + PegMoves(p, x, y)
  {
    if p.marker[y][x] == '*' {
      ext := AppendJump(p, x, y, Left, ext0);
      assert ext == ext0 + DirectionMoves(p, x, y, 1);
      ext := AppendJump(p, x, y, Right, ext);
      AppendThree(ext0, DirectionMoves(p, x, y, 1), Jump(p, x, y, Right));
      ext := AppendJump(p, x, y, Up, ext);
      AppendThree(ext0, DirectionMoves(p, x, y, 2), Jump(p, x, y, Up));
      ext := AppendJump(p, x, y, Down, ext);
      AppendThree(ext0, DirectionMoves(p, x, y, 3), Jump(p, x, y, Down));
    } else {
      ext := ext0;
      NotPegNoMoves(p, x, y);
    }
  }

  /** The body of the row loop of `extensions`: skip a row without a peg, else try each peg in turn. */
  method AppendRow(p: Peg, y: nat, ext0: seq<Peg>) returns (ext: seq<Peg>)
    requires Rectangular(p.marker) && y < |p.marker|
    ensures ext == ext0 + RowMoves(p, y, |p.marker[y]|)
  {
    var m := p.marker;
    ext := ext0;
    if '*' in m[y] {
      var x: nat := 0;
      while x < |m[y]|
        invariant x <= |m[y]|
        invariant ext == ext0 + RowMoves(p, y, x)
      {
        ext := AppendPegMoves(p, x, y, ext);
        AppendThree(ext0, RowMoves(p, y, x), PegMoves(p, x, y));
        x := x + 1;
      }
    } else {
      NoPegNoRowMoves(p, y, |m[y]|);
    }
  }

  /** `extensions`: rows top to bottom, then the four jumps of each peg in the row. */
  method Extensions(p: Peg) returns (ext: seq<Peg>)
    requires Rectangular(p.marker)
    ensures ext == Successors(p)
  {
    var m := p.marker;
    ext := [];
    var y: nat := 0;
    while y < |m|
      invariant y <= |m|
      invariant ext == RowsMoves(p, y)
    {
      ext := AppendRow(p, y, ext);
      y := y + 1;
    }
  }

  /** The column offset of a step in direction `d`. */
  function Dx(d: Direction): int
  {
    match d
    case Left => -1
    case Right => 1
    case _ => 0
  }

  /** The row offset of a step in direction `d`. */
  function Dy(d: Direction): int
  {
    match d
    case Up => -1
    case Down => 1
    case _ => 0
  }

  /**
   * `h` is `g` after the peg at `(x, y)` jumps in direction `d`: the cells
   * "**." along `d` become "..*" and no other cell changes.
   */
  ghost predicate JumpAt(g: Grid, h: Grid, x: int, y: int, d: Direction)
  {
    var x1, y1 := x + Dx(d), y + Dy(d);
    var x2, y2 := x + 2 * Dx(d), y + 2 * Dy(d);
    Inside(g, x, y) && Inside(g, x1, y1) && Inside(g, x2, y2) &&
    g[y][x] == '*' && g[y1][x1] == '*' && g[y2][x2] == '.' &&
    |h| == |g| && (forall j | 0 <= j < |g| :: |h[j]| == |g[j]|) &&
    h[y][x] == '.' && h[y1][x1] == '.' && h[y2][x2] == '*' &&
    forall j, i | Inside(g, i, j) && !(i == x && j == y) && !(i == x1 && j == y1) && !(i == x2 && j == y2) ::
      h[j][i] == g[j][i]
  }

  /** `q` is `p` after one jump, with the same marker set. */
  ghost predicate IsMove(p: Peg, q: Peg)
  {
    q.markerSet == p.markerSet && exists x, y, d :: JumpAt(p.marker, q.marker, x, y, d)
  }

  /** The three updates of a jump along `d` produce that jump. */
  lemma JumpedIsJump(g: Grid, x: nat, y: nat, d: Direction)
    requires Inside(g, x, y) && Inside(g, x + Dx(d), y + Dy(d)) && Inside(g, x + 2 * Dx(d), y + 2 * Dy(d))
    requires g[y][x] == '*' && g[y + Dy(d)][x + Dx(d)] == '*' && g[y + 2 * Dy(d)][x + 2 * Dx(d)] == '.'
    ensures JumpAt(g, Jumped(g, x, y, x + Dx(d), y + Dy(d), x + 2 * Dx(d), y + 2 * Dy(d)), x, y, d)
  {
  }

  /** What a guard of `extensions` lets through is a jump. */
  lemma JumpSound(p: Peg, x: nat, y: nat, d: Direction, q: Peg)
    requires Rectangular(p.marker) && Inside(p.marker, x, y) && p.marker[y][x] == '*' && q in Jump(p, x, y, d)
    ensures q.markerSet == p.markerSet && JumpAt(p.marker, q.marker, x, y, d)
  {
    JumpedIsJump(p.marker, x, y, d);
  }

  /** A move found in the first `k` directions is the jump of one of them. */
  lemma {:induction false} DirectionMovesSound(p: Peg, x: nat, y: nat, k: nat, q: Peg) returns (d: Direction)
    requires Rectangular(p.marker) && Inside(p.marker, x, y) && k <= |Directions|
    requires q in DirectionMoves(p, x, y, k)
    ensures q in Jump(p, x, y, d)
    decreases k
  {
    if q in DirectionMoves(p, x, y, k - 1) {
      d := DirectionMovesSound(p, x, y, k - 1, q);
    } else {
      d := Directions[k - 1];
    }
  }

  /** Every move of the peg at `(x, y)` is a jump of that peg. */
  lemma PegMovesSound(p: Peg, x: nat, y: nat, q: Peg)
    requires Rectangular(p.marker) && Inside(p.marker, x, y) && q in PegMoves(p, x, y)
    ensures q.markerSet == p.markerSet && exists d :: JumpAt(p.marker, q.marker, x, y, d)
  {
    var d := DirectionMovesSound(p, x, y, |Directions|, q);
    JumpSound(p, x, y, d, q);
  }

  /** Every move gathered from a row is a move of one peg in that row. */
  lemma {:induction false} RowMovesSound(p: Peg, y: nat, n: nat, q: Peg) returns (x: nat)
    requires Rectangular(p.marker) && y < |p.marker| && n <= |p.marker[y]| && q in RowMoves(p, y, n)
    ensures x < n && q in PegMoves(p, x, y)
    decreases n
  {
    if q in RowMoves(p, y, n - 1) {
      x := RowMovesSound(p, y, n - 1, q);
    } else {
      x := n - 1;
    }
  }

  /** Every move gathered from the first `n` rows is a move of one of their pegs. */
  lemma {:induction false} RowsMovesSound(p: Peg, n: nat, q: Peg) returns (y: nat)
    requires Rectangular(p.marker) && n <= |p.marker| && q in RowsMoves(p, n)
    ensures y < n && q in RowMoves(p, y, |p.marker[y]|)
    decreases n
  {
    if q in RowsMoves(p, n - 1) {
      y := RowsMovesSound(p, n - 1, q);
    } else {
      y := n - 1;
    }
  }

  /** Two grids of the same shape that agree on every cell are equal. */
  lemma GridsAgree(a: Grid, b: Grid)
    requires |a| == |b| && forall j | 0 <= j < |a| :: |a[j]| == |b[j]|
    requires forall j, i | Inside(a, i, j) :: a[j][i] == b[j][i]
    ensures a == b
  {
    forall j | 0 <= j < |a| ensures a[j] == b[j] {
      assert forall i | 0 <= i < |a[j]| :: a[j][i] == b[j][i];
    }
  }

  /** A jump is determined by its grid, peg and direction. */
  lemma JumpIsJumped(g: Grid, h: Grid, x: nat, y: nat, d: Direction)
    requires JumpAt(g, h, x, y, d)
    ensures h == Jumped(g, x, y, x + Dx(d), y + Dy(d), x + 2 * Dx(d), y + 2 * Dy(d))
  {
    var j := Jumped(g, x, y, x + Dx(d), y + Dy(d), x + 2 * Dx(d), y + 2 * Dy(d));
    JumpedIsJump(g, x, y, d);
    GridsAgree(h, j);
  }

  /** Where `d` stands in `Directions`. */
  function DirectionIndex(d: Direction): (k: nat)
    ensures k < |Directions| && Directions[k] == d
  {
    match d
    case Left => 0
    case Right => 1
    case Up => 2
    case Down => 3
  }

  /** The jumps in the first `k` directions stay among those in the first `n >= k`. */
  lemma {:induction false} DirectionMovesGrow(p: Peg, x: nat, y: nat, k: nat, n: nat, q: Peg)
    requires Rectangular(p.marker) && Inside(p.marker, x, y) && k <= n <= |Directions|
    requires q in DirectionMoves(p, x, y, k)
    ensures q in DirectionMoves(p, x, y, n)
    decreases n
  {
    if k < n {
      DirectionMovesGrow(p, x, y, k, n - 1, q);
      InAppend(DirectionMoves(p, x, y, n - 1), Jump(p, x, y, Directions[n - 1]), q);
    }
  }

  /** A jump on the grid is found by the guard of its direction. */
  lemma JumpComplete(p: Peg, h: Grid, x: nat, y: nat, d: Direction)
    requires Rectangular(p.marker) && JumpAt(p.marker, h, x, y, d)
    ensures Peg(h, p.markerSet) in PegMoves(p, x, y)
  {
    var q := Peg(h, p.markerSet);
    JumpIsJumped(p.marker, h, x, y, d);
    assert q in Jump(p, x, y, d);
    var k := DirectionIndex(d);
    InAppend(DirectionMoves(p, x, y, k), Jump(p, x, y, d), q);
    DirectionMovesGrow(p, x, y, k + 1, |Directions|, q);
  }

  /** Membership in a concatenation. */
  lemma InAppend<T>(a: seq<T>, b: seq<T>, q: T)
    requires q in a || q in b
    ensures q in a + b
  {
  }

  /** The moves of a row's first `k` pegs stay among the moves of its first `n >= k`. */
  lemma {:induction false} RowMovesGrow(p: Peg, y: nat, k: nat, n: nat, q: Peg)
    requires Rectangular(p.marker) && y < |p.marker| && k <= n <= |p.marker[y]| && q in RowMoves(p, y, k)
    ensures q in RowMoves(p, y, n)
    decreases n
  {
    if k < n {
      RowMovesGrow(p, y, k, n - 1, q);
      InAppend(RowMoves(p, y, n - 1), PegMoves(p, n - 1, y), q);
    }
  }

  /** A move of a peg in row `y` is among that row's moves. */
  lemma RowMovesComplete(p: Peg, y: nat, x: nat, q: Peg)
    requires Rectangular(p.marker) && y < |p.marker| && x < |p.marker[y]| && q in PegMoves(p, x, y)
    ensures q in RowMoves(p, y, |p.marker[y]|)
  {
    InAppend(RowMoves(p, y, x), PegMoves(p, x, y), q);
    RowMovesGrow(p, y, x + 1, |p.marker[y]|, q);
  }

  /** A move gathered from row `y` is among the moves of the first `n` rows when `y < n`. */
  lemma {:induction false} RowsMovesComplete(p: Peg, n: nat, y: nat, q: Peg)
    requires Rectangular(p.marker) && y < n <= |p.marker| && q in RowMoves(p, y, |p.marker[y]|)
    ensures q in RowsMoves(p, n)
    decreases n
  {
    var front, last := RowsMoves(p, n - 1), RowMoves(p, n - 1, |p.marker[n - 1]|);
    assert RowsMoves(p, n) == front + last;
    if y < n - 1 {
      RowsMovesComplete(p, n - 1, y, q);
    }
    InAppend(front, last, q);
  }

  /** The extensions are exactly the single jumps, each keeping the marker set. */
  lemma SuccessorsExactly(p: Peg, q: Peg)
    requires Rectangular(p.marker)
    ensures q in Successors(p) <==> IsMove(p, q)
  {
    var m := p.marker;
    if q in Successors(p) {
      var y := RowsMovesSound(p, |m|, q);
      var x := RowMovesSound(p, y, |m[y]|, q);
      PegMovesSound(p, x, y, q);
    }
    if IsMove(p, q) {
      var x: nat, y: nat, d :| JumpAt(m, q.marker, x, y, d);
      JumpComplete(p, q.marker, x, y, d);
      RowMovesComplete(p, y, x, q);
      RowsMovesComplete(p, |m|, y, q);
    }
  }

  /** The number of pegs on the grid, row by row. */
  function PegCount(g: Grid): nat
  {
    if g == [] then 0 else PegCount(g[..|g| - 1]) + multiset(g[|g| - 1])['*']
  }

  /** Writing `v` into a row changes its peg count by what was there and what is written. */
  lemma RowPut(row: seq<char>, x: nat, v: char)
    requires x < |row|
    ensures multiset(row[x := v])['*'] + (if row[x] == '*' then 1 else 0) == multiset(row)['*'] + (if v == '*' then 1 else 0)
  {
    assert multiset(row[x := v]) == multiset(row) - multiset{row[x]} + multiset{v};
  }

  /** Writing `v` at one cell changes the peg count by what was there and what is written. */
  lemma {:induction false} PutCount(g: Grid, x: nat, y: nat, v: char)
    requires Inside(g, x, y)
    ensures PegCount(Put(g, x, y, v)) + (if g[y][x] == '*' then 1 else 0) == PegCount(g) + (if v == '*' then 1 else 0)
    decreases |g|
  {
    var h := Put(g, x, y, v);
    var n := |g| - 1;
    assert PegCount(h) == PegCount(h[..n]) + multiset(h[n])['*'];
    assert PegCount(g) == PegCount(g[..n]) + multiset(g[n])['*'];
    if y == n {
      assert h[..n] == g[..n];
      RowPut(g[n], x, v);
    } else {
      assert h[..n] == Put(g[..n], x, y, v);
      assert h[n] == g[n];
      PutCount(g[..n], x, y, v);
    }
  }

  /** A grid with a peg counts at least one. */
  lemma HasPeg(g: Grid, x: nat, y: nat)
    requires Inside(g, x, y) && g[y][x] == '*'
    ensures PegCount(g) >= 1
  {
    PutCount(g, x, y, '.');
  }

  /** A grid with pegs at two different cells counts at least two. */
  lemma HasTwoPegs(g: Grid, x: nat, y: nat, x1: nat, y1: nat)
    requires Inside(g, x, y) && Inside(g, x1, y1) && (x, y) != (x1, y1)
    requires g[y][x] == '*' && g[y1][x1] == '*'
    ensures PegCount(g) >= 2
  {
    PutCount(g, x, y, '.');
    HasPeg(Put(g, x, y, '.'), x1, y1);
  }

  /** The three writes of a jump take exactly one peg off the grid. */
  lemma JumpedCount(g: Grid, x: nat, y: nat, x1: nat, y1: nat, x2: nat, y2: nat)
    requires Inside(g, x, y) && Inside(g, x1, y1) && Inside(g, x2, y2)
    requires (x, y) != (x1, y1) && (x, y) != (x2, y2) && (x1, y1) != (x2, y2)
    requires g[y][x] == '*' && g[y1][x1] == '*' && g[y2][x2] == '.'
    ensures PegCount(Jumped(g, x, y, x1, y1, x2, y2)) + 1 == PegCount(g)
  {
    var g1 := Put(g, x, y, '.');
    var g2 := Put(g1, x1, y1, '.');
    PutCount(g, x, y, '.');
    assert g1[y1][x1] == '*' && g1[y2][x2] == '.';
    PutCount(g1, x1, y1, '.');
    assert g2[y2][x2] == '.';
    PutCount(g2, x2, y2, '*');
  }

  /** A jump takes exactly one peg off the grid. */
  lemma JumpCount(g: Grid, h: Grid, x: nat, y: nat, d: Direction)
    requires JumpAt(g, h, x, y, d)
    ensures PegCount(h) + 1 == PegCount(g)
  {
    JumpIsJumped(g, h, x, y, d);
    JumpedCount(g, x, y, x + Dx(d), y + Dy(d), x + 2 * Dx(d), y + 2 * Dy(d));
  }

  /** Every extension has one peg fewer than its parent, so no search runs longer than the pegs last. */
  lemma SuccessorsTakeOnePeg(p: Peg, q: Peg)
    requires Rectangular(p.marker) && q in Successors(p)
    ensures PegCount(q.marker) + 1 == PegCount(p.marker)
  {
    SuccessorsExactly(p, q);
    var x: nat, y: nat, d :| JumpAt(p.marker, q.marker, x, y, d);
    JumpCount(p.marker, q.marker, x, y, d);
  }

  /** With at most one peg nothing can jump: in particular a solved board has no extension. */
  lemma FewPegsNoSuccessors(p: Peg)
    requires Rectangular(p.marker) && PegCount(p.marker) <= 1
    ensures Successors(p) == []
  {
    var r := Successors(p);
    if r != [] {
      SuccessorsExactly(p, r[0]);
      var x: nat, y: nat, d :| JumpAt(p.marker, r[0].marker, x, y, d);
      HasTwoPegs(p.marker, x, y, x + Dx(d), y + Dy(d));
    }
  }

  /** A jump keeps the grid's shape and its unused cells, and writes only pegs and holes. */
  lemma JumpKeepsLayout(g: Grid, h: Grid, x: nat, y: nat, d: Direction)
    requires JumpAt(g, h, x, y, d)
    ensures |h| == |g| && forall j | 0 <= j < |g| :: |h[j]| == |g[j]|
    ensures forall j, i | Inside(g, i, j) :: (h[j][i] == '#' <==> g[j][i] == '#')
    ensures forall j, i | Inside(g, i, j) :: h[j][i] == g[j][i] || (h[j][i] in {'*', '.'} && g[j][i] in {'*', '.'})
  {
  }

  /** An extension has its parent's shape, marker set and unused cells. */
  lemma SuccessorsKeepLayout(p: Peg, q: Peg)
    requires Rectangular(p.marker) && q in Successors(p)
    ensures q.markerSet == p.markerSet && |q.marker| == |p.marker|
    ensures forall j | 0 <= j < |p.marker| :: |q.marker[j]| == |p.marker[j]|
    ensures forall j, i | Inside(p.marker, i, j) :: (q.marker[j][i] == '#' <==> p.marker[j][i] == '#')
  {
    SuccessorsExactly(p, q);
    var x: nat, y: nat, d :| JumpAt(p.marker, q.marker, x, y, d);
    JumpKeepsLayout(p.marker, q.marker, x, y, d);
  }

  /** The extensions of a valid configuration pass the assertions of `__init__` too. */
  lemma SuccessorsValid(p: Peg, q: Peg)
    requires Valid(p.marker, p.markerSet) && q in Successors(p)
    ensures Valid(q.marker, q.markerSet)
  {
    SuccessorsExactly(p, q);
    var g, h := p.marker, q.marker;
    var x: nat, y: nat, d :| JumpAt(g, h, x, y, d);
    JumpKeepsLayout(g, h, x, y, d);
    assert '*' in p.markerSet && '.' in p.markerSet by {
      assert g[y][x] == '*' && g[y + 2 * Dy(d)][x + 2 * Dx(d)] == '.';
    }
    assert Width(h) == Width(g);
  }

  /** `is_solved`: count the pegs cell by cell; solved when exactly one is left. */
  method IsSolved(p: Peg) returns (solved: bool)
    ensures solved <==> PegCount(p.marker) == 1
  {
    var m := p.marker;
    var counter: nat := 0;
    var y: nat := 0;
    while y < |m|
      invariant y <= |m|
      invariant counter == PegCount(m[..y])
    {
      var x: nat := 0;
      while x < |m[y]|
        invariant x <= |m[y]|
        invariant counter == PegCount(m[..y]) + multiset(m[y][..x])['*']
      {
        assert m[y][..x + 1] == m[y][..x] + [m[y][x]];
        if m[y][x] == '*' {
          counter := counter + 1;
        }
        x := x + 1;
      }
      assert m[y][..x] == m[y];
      assert m[..y + 1][..y] == m[..y];
      y := y + 1;
    }
    assert m[..y] == m;
    solved := counter == 1;
  }

  /** `__eq__`: the same grid and the same marker set. */
  function Equal(a: Peg, b: Peg): (r: bool)
    ensures r <==> a == b
  {
    a.marker == b.marker && a.markerSet == b.markerSet
  }

  /** `__str__`: the lines of the grid without the newlines at the end. */
  function Render(g: Grid): string
  {
    RStrip(Lines(g), {'\n'})
  }

  /** `__str__`: append every marker of a row and a newline, then strip the trailing newlines. */
  method ToString(p: Peg) returns (s: string)
    ensures s == Render(p.marker)
  {
    var m := p.marker;
    var text := "";
    var y: nat := 0;
    while y < |m|
      invariant y <= |m|
      invariant text == Lines(m[..y])
    {
      var x: nat := 0;
      while x < |m[y]|
        invariant x <= |m[y]|
        invariant text == Lines(m[..y]) + m[y][..x]
      {
        assert m[y][..x + 1] == m[y][..x] + [m[y][x]];
        text := text + [m[y][x]];
        x := x + 1;
      }
      assert m[y][..x] == m[y];
      assert m[..y + 1][..y] == m[..y];
      text := text + "\n";
      y := y + 1;
    }
    assert m[..y] == m;
    s := RStrip(text, {'\n'});
  }

  /** When the last row is not empty, exactly the final newline is stripped. */
  lemma RenderDropsFinalNewline(g: Grid)
    requires g != [] && g[|g| - 1] != [] && NoNewline(g)
    ensures Render(g) + "\n" == Lines(g)
  {
    var row := g[|g| - 1];
    assert row[|row| - 1] != '\n';
    StripFinalNewline(g, {'\n'});
  }

  /** A grid whose rows are all empty renders as the empty string, whatever its height. */
  lemma EmptyRowsRenderEmpty(g: Grid)
    requires forall j | 0 <= j < |g| :: g[j] == []
    ensures Render(g) == ""
  {
    EmptyLinesStripEmpty(g, {'\n'});
  }

  /**
   * The search key `__str__` tells apart any two grids without newline
   * markers whose last rows are not empty, as those of every valid
   * configuration of non-zero width are.
   */
  lemma RenderInjective(a: Grid, b: Grid)
    requires a != [] && a[|a| - 1] != [] && NoNewline(a)
    requires b != [] && b[|b| - 1] != [] && NoNewline(b)
    requires Render(a) == Render(b)
    ensures a == b
  {
    RenderDropsFinalNewline(a);
    RenderDropsFinalNewline(b);
    LinesInjective(a, b);
  }
}
