/**
 * mn_puzzle.py: an n-by-m sliding-tile puzzle such as the 15-puzzle. Cells
 * hold symbols (strings) and "*" is the empty space; a move slides a symbol
 * orthogonally adjacent to the empty space into it. The puzzle is solved
 * when `from_grid` matches `to_grid`.
 */
module SlidingTile {
  import opened Common
  import opened Text

  /** Rows of symbols: `g[r][c]` is the symbol in row `r`, column `c`. */
  type Grid = seq<seq<string>>

  /** The empty space. */
  const Blank: string := "*"

  /** What Python raises on an index outside a list. */
  const IndexError: string := "IndexError: list index out of range"

  datatype Mn = Mn(fromGrid: Grid, toGrid: Grid)

  /** Every row has the length of the first one (nothing to check without rows). */
  predicate Rectangular(g: Grid)
  {
    forall r | 0 <= r < |g| :: |g[r]| == |g[0]|
  }

  /** The assertions of `__init__`: `to_grid` may be empty, `from_grid` may not. */
  predicate Valid(fromGrid: Grid, toGrid: Grid)
  {
    |fromGrid| > 0 && Rectangular(fromGrid) && Rectangular(toGrid)
  }

  /** `MNPuzzle(from_grid, to_grid)`: None where an assertion fails. */
  function Create(fromGrid: Grid, toGrid: Grid): (r: Option<Mn>)
    ensures r.Some? <==> Valid(fromGrid, toGrid)
    ensures r.Some? ==> r.value.fromGrid == fromGrid && r.value.toGrid == toGrid
  {
    if Valid(fromGrid, toGrid) then Some(Mn(fromGrid, toGrid)) else None
  }

  /** Python's index `i` into a list of length `len`: a negative index counts from the end. */
  function PyIndex(len: nat, i: int): (r: Option<nat>)
    ensures r.Some? <==> 0 <= i + len && i < len
    ensures r.Some? ==> r.value < len && r.value as int == (if i < 0 then i + len else i)
  {
    if 0 <= i < len then Some(i) else if i < 0 && 0 <= i + len then Some(i + len) else None
  }

  /** `g[r][c]`, or the IndexError it raises. */
  function Lookup(g: Grid, r: int, c: int): Result<string>
  {
    match PyIndex(|g|, r)
    case None => Err(IndexError)
    case Some(i) =>
      match PyIndex(|g[i]|, c)
      case None => Err(IndexError)
      case Some(j) => Ok(g[i][j])
  }

  /** `g[r][c] = v` on a list of lists, or the IndexError it raises. */
  function Assign(g: Grid, r: int, c: int, v: string): Result<Grid>
  {
    match PyIndex(|g|, r)
    case None => Err(IndexError)
    case Some(i) =>
      match PyIndex(|g[i]|, c)
      case None => Err(IndexError)
      case Some(j) => Ok(g[i := g[i][j := v]])
  }

  /**
   * One block of `extensions`: on a copy of `g`, move the symbol at
   * `(nx, ny)` to `(x, y)` and put the blank at `(nx, ny)`.
   */
  function Shift(g: Grid, x: int, y: int, nx: int, ny: int): Result<Grid>
  {
    match Lookup(g, nx, ny)
    case Err(e) => Err(e)
    case Ok(v) =>
      match Assign(g, x, y, v)
      case Err(e) => Err(e)
      case Ok(h) => Assign(h, nx, ny, Blank)
  }

  /** The index of the first blank of a row. */
  function FirstBlank(row: seq<string>): (c: nat)
    requires Blank in row
    ensures c < |row| && row[c] == Blank && forall j | 0 <= j < c :: row[j] != Blank
  {
    if row[0] == Blank then 0 else 1 + FirstBlank(row[1..])
  }

  /**
   * The blank search of `extensions` over the first `n` rows: `(-1, -1)`
   * when they hold no blank, else the last row that holds one and the first
   * blank in it (the `break` leaves only the inner loop).
   */
  function BlankIn(g: Grid, n: nat): (int, int)
    requires n <= |g|
  {
    if n == 0 then (-1, -1)
    else if Blank in g[n - 1] then (n - 1, FirstBlank(g[n - 1]))
    else BlankIn(g, n - 1)
  }

  /** Where `extensions` takes the blank to be. */
  function BlankPos(g: Grid): (int, int)
  {
    BlankIn(g, |g|)
  }

  /** The blank search of `extensions`: nested loops, the inner one left at the first blank. */
  method FindBlank(g: Grid) returns (x: int, y: int)
    ensures (x, y) == BlankPos(g)
  {
    x, y := -1, -1;
    var r: nat := 0;
    while r < |g|
      invariant r <= |g|
      invariant (x, y) == BlankIn(g, r)
    {
      var c: nat := 0;
      while c < |g[r]|
        invariant c <= |g[r]|
        invariant (x, y) == BlankIn(g, r)
        invariant forall j | 0 <= j < c :: g[r][j] != Blank
      {
        if g[r][c] == Blank {
          x, y := r, c;
          break;
        }
        c := c + 1;
      }
      r := r + 1;
    }
  }

  /** The four blocks of `extensions`, in their order. */
  datatype Move = Up | Left | Down | Right

  /** The order in which `extensions` tries the neighbours of the blank. */
  const Moves: seq<Move> := [Up, Left, Down, Right]

  /** The row offset of the neighbour a move slides into the blank. */
  function Dx(m: Move): int
  {
    match m
    case Up => -1
    case Down => 1
    case _ => 0
  }

  /** The column offset of the neighbour a move slides into the blank. */
  function Dy(m: Move): int
  {
    match m
    case Left => -1
    case Right => 1
    case _ => 0
  }

  /** The guard of each block, as written: the last one compares against the first row's length. */
  predicate Allowed(g: Grid, x: int, y: int, m: Move)
    requires |g| > 0
  {
    match m
    case Up => x - 1 > -1
    case Left => y - 1 > -1
    case Down => x + 1 < |g|
    case Right => y + 1 < |g[0]|
  }

  /** Add one shift to the extensions so far; an exception ends `extensions`. */
  function AddShift(p: Mn, ext: Result<seq<Mn>>, x: int, y: int, nx: int, ny: int): Result<seq<Mn>>
  {
    match ext
    case Err(e) => Err(e)
    case Ok(s) =>
      match Shift(p.fromGrid, x, y, nx, ny)
      case Err(e) => Err(e)
      case Ok(h) => Ok(s + [Mn(h, p.toGrid)])
  }

  /** The first `k` blocks of `extensions` for a blank taken to be at `(x, y)`. */
  function Tried(p: Mn, x: int, y: int, k: nat): Result<seq<Mn>>
    requires |p.fromGrid| > 0 && k <= |Moves|
  {
    if k == 0 then Ok([])
    else
      var m := Moves[k - 1];
      var e := Tried(p, x, y, k - 1);
      if Allowed(p.fromGrid, x, y, m) then AddShift(p, e, x, y, x + Dx(m), y + Dy(m)) else e
  }

  /** The extensions, as written: up, left, down, right of wherever the blank search stopped. */
  function Successors(p: Mn): Result<seq<Mn>>
    requires |p.fromGrid| > 0
  {
    Tried(p, BlankPos(p.fromGrid).0, BlankPos(p.fromGrid).1, |Moves|)
  }

  /** Once a block raises, `extensions` raises the same exception. */
  lemma {:induction false} TriedErrStays(p: Mn, x: int, y: int, k: nat, n: nat)
    requires |p.fromGrid| > 0 && k <= n <= |Moves| && Tried(p, x, y, k).Err?
    ensures Tried(p, x, y, n) == Tried(p, x, y, k)
    decreases n
  {
    if k < n {
      TriedErrStays(p, x, y, k, n - 1);
    }
  }

  /**
   * One block of `extensions`: copy the rows to lists, write the neighbour's
   * symbol over the blank, then the blank over the neighbour.
   */
  method ShiftCopy(g: Grid, x: int, y: int, nx: int, ny: int) returns (r: Result<Grid>)
    ensures r == Shift(g, x, y, nx, ny)
  {
    var i := PyIndex(|g|, nx);
    if i.None? {
      return Err(IndexError);
    }
    var j := PyIndex(|g[i.value]|, ny);
    if j.None? {
      return Err(IndexError);
    }
    var v := g[i.value][j.value];
    var copy := g;
    var k := PyIndex(|copy|, x);
    if k.None? {
      return Err(IndexError);
    }
    var l := PyIndex(|copy[k.value]|, y);
    if l.None? {
      return Err(IndexError);
    }
    copy := copy[k.value := copy[k.value][l.value := v]];
    assert Assign(g, x, y, v) == Ok(copy);
    var k2 := PyIndex(|copy|, nx);
    if k2.None? {
      return Err(IndexError);
    }
    var l2 := PyIndex(|copy[k2.value]|, ny);
    if l2.None? {
      return Err(IndexError);
    }
    copy := copy[k2.value := copy[k2.value][l2.value := Blank]];
    r := Ok(copy);
  }

  /** `extensions`: find the blank, then try up, left, down and right in turn. */
  method Extensions(p: Mn) returns (r: Result<seq<Mn>>)
    requires |p.fromGrid| > 0
    ensures r == Successors(p)
  {
    var g := p.fromGrid;
    var x, y := FindBlank(g);
    var ext: seq<Mn> := [];
    if x - 1 > -1 {
      var s := ShiftCopy(g, x, y, x - 1, y);
      if s.Err? {
        TriedErrStays(p, x, y, 1, |Moves|);
        return Err(s.error);
      }
      ext := ext + [Mn(s.value, p.toGrid)];
    }
    assert Tried(p, x, y, 1) == Ok(ext);
    if y - 1 > -1 {
      var s := ShiftCopy(g, x, y, x, y - 1);
      if s.Err? {
        TriedErrStays(p, x, y, 2, |Moves|);
        return Err(s.error);
      }
      ext := ext + [Mn(s.value, p.toGrid)];
    }
    assert Tried(p, x, y, 2) == Ok(ext);
    if x + 1 < |g| {
      var s := ShiftCopy(g, x, y, x + 1, y);
      if s.Err? {
        TriedErrStays(p, x, y, 3, |Moves|);
        return Err(s.error);
      }
      ext := ext + [Mn(s.value, p.toGrid)];
    }
    assert Tried(p, x, y, 3) == Ok(ext);
    if y + 1 < |g[0]| {
      var s := ShiftCopy(g, x, y, x, y + 1);
      if s.Err? {
        return Err(s.error);
      }
      ext := ext + [Mn(s.value, p.toGrid)];
    }
    r := Ok(ext);
  }

  /** What the blank search finds: no blank, or the last row with one and its first blank. */
  lemma {:induction false} BlankInMeaning(g: Grid, n: nat)
    requires n <= |g|
    ensures BlankIn(g, n).0 == -1 <==> forall r | 0 <= r < n :: Blank !in g[r]
    ensures BlankIn(g, n).0 == -1 ==> BlankIn(g, n).1 == -1
    ensures BlankIn(g, n).0 != -1 ==>
      var x := BlankIn(g, n).0;
      0 <= x < n && Blank in g[x] && BlankIn(g, n).1 == FirstBlank(g[x]) &&
      forall r | x < r < n :: Blank !in g[r]
    decreases n
  {
    if n > 0 && Blank !in g[n - 1] {
      BlankInMeaning(g, n - 1);
    }
  }

  /** The only blank of `g` is at row `x`, column `y`. */
  predicate OnlyBlankAt(g: Grid, x: int, y: int)
  {
    0 <= x < |g| && 0 <= y < |g[x]| && g[x][y] == Blank &&
    forall r, c | 0 <= r < |g| && 0 <= c < |g[r]| && g[r][c] == Blank :: r == x && c == y
  }

  /** With a single blank the search finds it. */
  lemma BlankPosUnique(g: Grid, x: int, y: int)
    requires OnlyBlankAt(g, x, y)
    ensures BlankPos(g) == (x, y)
  {
    BlankInMeaning(g, |g|);
    assert Blank in g[x];
    var bx := BlankPos(g).0;
    assert g[bx][FirstBlank(g[bx])] == Blank;
  }

  /** The grid with the symbol at `(nx, ny)` moved into the blank at `(x, y)`. */
  function Swap(g: Grid, x: nat, y: nat, nx: nat, ny: nat): Grid
    requires x < |g| && y < |g[x]| && nx < |g| && ny < |g[nx]|
  {
    var h := g[x := g[x][y := g[nx][ny]]];
    h[nx := h[nx][ny := Blank]]
  }

  /** Inside the grid a block of `extensions` is a plain swap. */
  lemma ShiftInside(g: Grid, x: nat, y: nat, nx: nat, ny: nat)
    requires x < |g| && y < |g[x]| && nx < |g| && ny < |g[nx]|
    ensures Shift(g, x, y, nx, ny) == Ok(Swap(g, x, y, nx, ny))
  {
    var h := g[x := g[x][y := g[nx][ny]]];
    assert Lookup(g, nx, ny) == Ok(g[nx][ny]);
    assert Assign(g, x, y, g[nx][ny]) == Ok(h);
  }

  /** The configuration after sliding the symbol at `(nx, ny)` into the blank at `(x, y)`. */
  function Slide(p: Mn, x: nat, y: nat, nx: nat, ny: nat): Mn
    requires x < |p.fromGrid| && y < |p.fromGrid[x]| && nx < |p.fromGrid| && ny < |p.fromGrid[nx]|
  {
    Mn(Swap(p.fromGrid, x, y, nx, ny), p.toGrid)
  }

  /** The neighbour of `(x, y)` that move `m` slides is inside the grid. */
  predicate Inside(g: Grid, x: nat, y: nat, m: Move)
  {
    0 <= x + Dx(m) < |g| && 0 <= y + Dy(m) < |g[x + Dx(m)]|
  }

  /** The slide move `m` makes with the blank at `(x, y)`, when its neighbour is inside the grid. */
  function Part(p: Mn, x: nat, y: nat, m: Move): (r: seq<Mn>)
    requires x < |p.fromGrid| && y < |p.fromGrid[x]|
    ensures |r| <= 1
  {
    if Inside(p.fromGrid, x, y, m) then [Slide(p, x, y, x + Dx(m), y + Dy(m))] else []
  }

  /** The slides of the first `k` moves of `Moves` with the blank at `(x, y)`. */
  function NeighboursUpTo(p: Mn, x: nat, y: nat, k: nat): seq<Mn>
    requires x < |p.fromGrid| && y < |p.fromGrid[x]| && k <= |Moves|
  {
    if k == 0 then [] else NeighboursUpTo(p, x, y, k - 1) + Part(p, x, y, Moves[k - 1])
  }

  /**
   * The moves of a blank at `(x, y)`: the neighbour above, to the left,
   * below and to the right, each one that is inside the grid.
   */
  function Neighbours(p: Mn, x: nat, y: nat): seq<Mn>
    requires x < |p.fromGrid| && y < |p.fromGrid[x]|
  {
    NeighboursUpTo(p, x, y, |Moves|)
  }

  /** Inside the grid a block of `extensions` appends the slide. */
  lemma AddShiftInside(p: Mn, s: seq<Mn>, x: nat, y: nat, nx: nat, ny: nat)
    requires x < |p.fromGrid| && y < |p.fromGrid[x]| && nx < |p.fromGrid| && ny < |p.fromGrid[nx]|
    ensures AddShift(p, Ok(s), x, y, nx, ny) == Ok(s + [Slide(p, x, y, nx, ny)])
  {
    ShiftInside(p.fromGrid, x, y, nx, ny);
  }

  /** At a blank inside a rectangular grid, the guard of a block holds exactly when its neighbour is inside. */
  lemma AllowedInside(g: Grid, x: nat, y: nat, m: Move)
    requires |g| > 0 && Rectangular(g) && x < |g| && y < |g[x]|
    ensures Allowed(g, x, y, m) <==> Inside(g, x, y, m)
  {
    assert |g[x]| == |g[0]|;
    if 0 <= x + Dx(m) < |g| {
      assert |g[x + Dx(m)]| == |g[0]|;
    }
  }

  /** The first `k` blocks of `extensions` at a blank inside the grid slide its neighbours. */
  lemma {:induction false} TriedInside(p: Mn, x: nat, y: nat, k: nat)
    requires Valid(p.fromGrid, p.toGrid) && x < |p.fromGrid| && y < |p.fromGrid[x]| && k <= |Moves|
    ensures Tried(p, x, y, k) == Ok(NeighboursUpTo(p, x, y, k))
    decreases k
  {
    if k > 0 {
      var m := Moves[k - 1];
      var s := NeighboursUpTo(p, x, y, k - 1);
      TriedInside(p, x, y, k - 1);
      AllowedInside(p.fromGrid, x, y, m);
      if Inside(p.fromGrid, x, y, m) {
        AddShiftInside(p, s, x, y, x + Dx(m), y + Dy(m));
      } else {
        assert s + Part(p, x, y, m) == s;
      }
    }
  }

  /**
   * With exactly one blank, `extensions` raises nothing and slides each
   * neighbour of the blank into it: up, left, down, right.
   */
  lemma SuccessorsOneBlank(p: Mn, x: nat, y: nat)
    requires Valid(p.fromGrid, p.toGrid) && OnlyBlankAt(p.fromGrid, x, y)
    ensures Successors(p) == Ok(Neighbours(p, x, y))
  {
    BlankPosUnique(p.fromGrid, x, y);
    TriedInside(p, x, y, |Moves|);
  }

  /** At most one slide per move. */
  lemma {:induction false} NeighboursBound(p: Mn, x: nat, y: nat, k: nat)
    requires x < |p.fromGrid| && y < |p.fromGrid[x]| && k <= |Moves|
    ensures |NeighboursUpTo(p, x, y, k)| <= k
    decreases k
  {
    if k > 0 {
      NeighboursBound(p, x, y, k - 1);
    }
  }

  /** Every move slides one orthogonal neighbour of the blank into it. */
  lemma {:induction false} NeighboursAreSlides(p: Mn, x: nat, y: nat, k: nat, q: Mn) returns (m: Move)
    requires x < |p.fromGrid| && y < |p.fromGrid[x]| && k <= |Moves| && q in NeighboursUpTo(p, x, y, k)
    ensures Inside(p.fromGrid, x, y, m) && q == Slide(p, x, y, x + Dx(m), y + Dy(m))
    decreases k
  {
    var last := Moves[k - 1];
    assert NeighboursUpTo(p, x, y, k) == NeighboursUpTo(p, x, y, k - 1) + Part(p, x, y, last);
    if q in Part(p, x, y, last) {
      m := last;
    } else {
      m := NeighboursAreSlides(p, x, y, k - 1, q);
    }
  }

  /** Where `m` stands in `Moves`. */
  function MoveIndex(m: Move): (k: nat)
    ensures k < |Moves| && Moves[k] == m
  {
    match m
    case Up => 0
    case Left => 1
    case Down => 2
    case Right => 3
  }

  /** The slides of the first `k` moves stay among those of the first `n >= k`. */
  lemma {:induction false} NeighboursGrow(p: Mn, x: nat, y: nat, k: nat, n: nat, q: Mn)
    requires x < |p.fromGrid| && y < |p.fromGrid[x]| && k <= n <= |Moves| && q in NeighboursUpTo(p, x, y, k)
    ensures q in NeighboursUpTo(p, x, y, n)
    decreases n
  {
    if k < n {
      NeighboursGrow(p, x, y, k, n - 1, q);
      assert NeighboursUpTo(p, x, y, n) == NeighboursUpTo(p, x, y, n - 1) + Part(p, x, y, Moves[n - 1]);
    }
  }

  /** Every orthogonal neighbour of the blank inside the grid gives a move. */
  lemma SlidesAreNeighbours(p: Mn, x: nat, y: nat, m: Move)
    requires x < |p.fromGrid| && y < |p.fromGrid[x]| && Inside(p.fromGrid, x, y, m)
    ensures Slide(p, x, y, x + Dx(m), y + Dy(m)) in Neighbours(p, x, y)
  {
    var k := MoveIndex(m);
    assert Slide(p, x, y, x + Dx(m), y + Dy(m)) in NeighboursUpTo(p, x, y, k + 1);
    NeighboursGrow(p, x, y, k + 1, |Moves|, Slide(p, x, y, x + Dx(m), y + Dy(m)));
  }

  /** The symbols of a grid, counted with multiplicity. */
  function Symbols(g: Grid): multiset<string>
  {
    if g == [] then multiset{} else Symbols(g[..|g| - 1]) + multiset(g[|g| - 1])
  }

  /** Writing `v` into a row trades the symbol there for `v`. */
  lemma RowWriteSymbols(row: seq<string>, y: nat, v: string)
    requires y < |row|
    ensures multiset(row[y := v]) + multiset{row[y]} == multiset(row) + multiset{v}
  {
    assert multiset(row[y := v]) == multiset(row) - multiset{row[y]} + multiset{v};
  }

  /** Writing `v` at one cell trades the symbol there for `v`. */
  lemma {:induction false} WriteSymbols(g: Grid, x: nat, y: nat, v: string)
    requires x < |g| && y < |g[x]|
    ensures Symbols(g[x := g[x][y := v]]) + multiset{g[x][y]} == Symbols(g) + multiset{v}
    decreases |g|
  {
    var h := g[x := g[x][y := v]];
    var n := |g| - 1;
    assert Symbols(h) == Symbols(h[..n]) + multiset(h[n]);
    assert Symbols(g) == Symbols(g[..n]) + multiset(g[n]);
    if x == n {
      assert h[..n] == g[..n];
      RowWriteSymbols(g[n], y, v);
      Trade(Symbols(g[..n]), multiset(h[n]), multiset(g[n]), g[x][y], v);
    } else {
      assert h[..n] == g[..n][x := g[x][y := v]];
      assert h[n] == g[n];
      WriteSymbols(g[..n], x, y, v);
      Trade(multiset(g[n]), Symbols(h[..n]), Symbols(g[..n]), g[x][y], v);
    }
  }

  /** A trade of `u` for `v` stays one when more symbols are added. */
  lemma Trade(s: multiset<string>, a: multiset<string>, b: multiset<string>, u: string, v: string)
    requires a + multiset{u} == b + multiset{v}
    ensures s + a + multiset{u} == s + b + multiset{v} && a + s + multiset{u} == b + s + multiset{v}
  {
    assert s + a + multiset{u} == s + (a + multiset{u});
    assert a + s + multiset{u} == s + (a + multiset{u});
  }

  /** A swap writes the neighbour's symbol over the blank and the blank over the neighbour, nothing else. */
  lemma SwapCells(g: Grid, x: nat, y: nat, nx: nat, ny: nat)
    requires x < |g| && y < |g[x]| && nx < |g| && ny < |g[nx]| && (x, y) != (nx, ny)
    ensures var h := Swap(g, x, y, nx, ny);
      |h| == |g| && (forall r | 0 <= r < |g| :: |h[r]| == |g[r]|) &&
      h[x][y] == g[nx][ny] && h[nx][ny] == Blank &&
      forall r, c | 0 <= r < |g| && 0 <= c < |g[r]| && (r != x || c != y) && (r != nx || c != ny) :: h[r][c] == g[r][c]
  {
  }

  /** Sliding a neighbour into the only blank leaves the only blank where the neighbour was. */
  lemma SwapMovesBlank(g: Grid, x: nat, y: nat, nx: nat, ny: nat)
    requires OnlyBlankAt(g, x, y) && nx < |g| && ny < |g[nx]| && (x, y) != (nx, ny)
    ensures OnlyBlankAt(Swap(g, x, y, nx, ny), nx, ny)
  {
    SwapCells(g, x, y, nx, ny);
  }

  /** A swap keeps the symbols of the grid. */
  lemma SwapSymbols(g: Grid, x: nat, y: nat, nx: nat, ny: nat)
    requires x < |g| && y < |g[x]| && nx < |g| && ny < |g[nx]| && (x, y) != (nx, ny) && g[x][y] == Blank
    ensures Symbols(Swap(g, x, y, nx, ny)) == Symbols(g)
  {
    var v := g[nx][ny];
    var h1 := g[x := g[x][y := v]];
    var h := h1[nx := h1[nx][ny := Blank]];
    assert h == Swap(g, x, y, nx, ny);
    assert h1[nx][ny] == v;
    WriteSymbols(g, x, y, v);
    WriteSymbols(h1, nx, ny, Blank);
    Cancel(Symbols(h), Symbols(h1), Symbols(g), Blank, v);
  }

  /** Trading `v` for `u` and back leaves a multiset as it was. */
  lemma Cancel(a: multiset<string>, b: multiset<string>, c: multiset<string>, u: string, v: string)
    requires a + multiset{v} == b + multiset{u} && b + multiset{u} == c + multiset{v}
    ensures a == c
  {
    assert a == (a + multiset{v}) - multiset{v};
  }

  /** Sliding the symbol back restores the grid. */
  lemma SwapBack(g: Grid, x: nat, y: nat, nx: nat, ny: nat)
    requires x < |g| && y < |g[x]| && nx < |g| && ny < |g[nx]| && (x, y) != (nx, ny) && g[x][y] == Blank
    ensures Swap(Swap(g, x, y, nx, ny), nx, ny, x, y) == g
  {
    var h := Swap(g, x, y, nx, ny);
    SwapCells(g, x, y, nx, ny);
    var back := Swap(h, nx, ny, x, y);
    assert back[x] == g[x];
    assert back[nx] == g[nx];
  }

  /** The move that slides the symbol back. */
  function Opposite(m: Move): (o: Move)
    ensures Dx(o) == -Dx(m) && Dy(o) == -Dy(m)
  {
    match m
    case Up => Down
    case Down => Up
    case Left => Right
    case Right => Left
  }

  /** A slide keeps the grid's shape, its symbols and `to_grid`, and moves the only blank to the neighbour's cell. */
  lemma SlideKeeps(p: Mn, x: nat, y: nat, m: Move, q: Mn)
    requires Valid(p.fromGrid, p.toGrid) && OnlyBlankAt(p.fromGrid, x, y) && Inside(p.fromGrid, x, y, m)
    requires q == Slide(p, x, y, x + Dx(m), y + Dy(m))
    ensures Valid(q.fromGrid, q.toGrid) && q.toGrid == p.toGrid
    ensures OnlyBlankAt(q.fromGrid, x + Dx(m), y + Dy(m)) && Symbols(q.fromGrid) == Symbols(p.fromGrid)
  {
    var g := p.fromGrid;
    var nx: nat, ny: nat := x + Dx(m), y + Dy(m);
    assert (x, y) != (nx, ny) by {
      assert Dx(m) != 0 || Dy(m) != 0;
    }
    var h := Swap(g, x, y, nx, ny);
    assert q.fromGrid == h;
    SwapCells(g, x, y, nx, ny);
    assert Rectangular(h) by {
      assert |h[0]| == |g[0]|;
    }
    SwapMovesBlank(g, x, y, nx, ny);
    SwapSymbols(g, x, y, nx, ny);
  }

  /** Sliding the symbol back is a move of the configuration a slide reaches. */
  lemma SlideBack(p: Mn, x: nat, y: nat, m: Move, q: Mn)
    requires OnlyBlankAt(p.fromGrid, x, y) && Inside(p.fromGrid, x, y, m)
    requires q == Slide(p, x, y, x + Dx(m), y + Dy(m))
    ensures x + Dx(m) < |q.fromGrid| && y + Dy(m) < |q.fromGrid[x + Dx(m)]|
    ensures p in Neighbours(q, x + Dx(m), y + Dy(m))
  {
    var g := p.fromGrid;
    var nx: nat, ny: nat := x + Dx(m), y + Dy(m);
    assert (x, y) != (nx, ny) by {
      assert Dx(m) != 0 || Dy(m) != 0;
    }
    var h := Swap(g, x, y, nx, ny);
    assert |h| == |g| && |h[nx]| == |g[nx]| && |h[x]| == |g[x]|;
    SwapBack(g, x, y, nx, ny);
    var o := Opposite(m);
    assert nx + Dx(o) == x && ny + Dy(o) == y;
    SlidesAreNeighbours(q, nx, ny, o);
  }

  /**
   * Every move can be undone: the configuration reached is valid, its only
   * blank is where the neighbour was, the symbols and `to_grid` are kept,
   * and sliding back is one of its own moves.
   */
  lemma SlideReversible(p: Mn, x: nat, y: nat, q: Mn) returns (nx: nat, ny: nat)
    requires Valid(p.fromGrid, p.toGrid) && OnlyBlankAt(p.fromGrid, x, y) && q in Neighbours(p, x, y)
    ensures Valid(q.fromGrid, q.toGrid) && q.toGrid == p.toGrid
    ensures OnlyBlankAt(q.fromGrid, nx, ny) && Symbols(q.fromGrid) == Symbols(p.fromGrid)
    ensures p in Neighbours(q, nx, ny)
  {
    var m := NeighboursAreSlides(p, x, y, |Moves|, q);
    nx, ny := x + Dx(m), y + Dy(m);
    SlideKeeps(p, x, y, m, q);
    SlideBack(p, x, y, m, q);
  }

  /**
   * With one blank, every extension has an extension that is the original
   * configuration again: the puzzle's move graph is undirected.
   */
  lemma SuccessorsReversible(p: Mn, q: Mn)
    requires Valid(p.fromGrid, p.toGrid) && exists x, y :: OnlyBlankAt(p.fromGrid, x, y)
    requires Successors(p).Ok? && q in Successors(p).value
    ensures |q.fromGrid| > 0 && Successors(q).Ok? && p in Successors(q).value
  {
    var x, y :| OnlyBlankAt(p.fromGrid, x, y);
    SuccessorsOneBlank(p, x, y);
    var nx, ny := SlideReversible(p, x, y, q);
    SuccessorsOneBlank(q, nx, ny);
  }

  /** With one blank there are at most four extensions. */
  lemma SuccessorsBound(p: Mn, x: nat, y: nat)
    requires Valid(p.fromGrid, p.toGrid) && OnlyBlankAt(p.fromGrid, x, y)
    ensures Successors(p).Ok? && |Successors(p).value| <= 4
  {
    SuccessorsOneBlank(p, x, y);
    NeighboursBound(p, x, y, |Moves|);
  }

  /**
   * Without a blank the search leaves `(-1, -1)` and the blocks below and to
   * the right read Python's negative indices: the last cell takes the
   * symbol above it, a blank appears in the first row, and so on.
   */
  lemma NoBlankExample(t: Grid)
    ensures Successors(Mn([["1", "2"], ["3", "4"]], t)) ==
      Ok([Mn([["1", "*"], ["3", "2"]], t), Mn([["1", "2"], ["*", "3"]], t)])
  {
    var g: Grid := [["1", "2"], ["3", "4"]];
    var p := Mn(g, t);
    assert Blank !in g[0] && Blank !in g[1] by {
      assert g[0][0][0] != '*' && g[0][1][0] != '*' && g[1][0][0] != '*' && g[1][1][0] != '*';
    }
    assert BlankIn(g, 1) == (-1, -1);
    assert BlankPos(g) == (-1, -1);
    assert Tried(p, -1, -1, 1) == Ok([]);
    assert Tried(p, -1, -1, 2) == Ok([]);
    assert PyIndex(2, -1) == Some(1);
    var d: Grid := [["1", "*"], ["3", "2"]];
    var d1: Grid := [["1", "2"], ["3", "2"]];
    assert Lookup(g, 0, -1) == Ok("2");
    assert g[1][1 := "2"] == ["3", "2"];
    assert g[1 := ["3", "2"]] == d1;
    assert Assign(g, -1, -1, "2") == Ok(d1);
    assert d1[0][1 := Blank] == ["1", "*"];
    assert d1[0 := ["1", "*"]] == d;
    assert Assign(d1, 0, -1, Blank) == Ok(d);
    assert Shift(g, -1, -1, 0, -1) == Ok(d);
    assert AddShift(p, Ok([]), -1, -1, 0, -1) == Ok([] + [Mn(d, t)]);
    assert [] + [Mn(d, t)] == [Mn(d, t)];
    assert Tried(p, -1, -1, 3) == Ok([Mn(d, t)]);
    var r: Grid := [["1", "2"], ["*", "3"]];
    var r1: Grid := [["1", "2"], ["3", "3"]];
    assert Lookup(g, -1, 0) == Ok("3");
    assert g[1][1 := "3"] == ["3", "3"];
    assert g[1 := ["3", "3"]] == r1;
    assert Assign(g, -1, -1, "3") == Ok(r1);
    assert r1[1][0 := Blank] == ["*", "3"];
    assert r1[1 := ["*", "3"]] == r;
    assert Assign(r1, -1, 0, Blank) == Ok(r);
    assert Shift(g, -1, -1, -1, 0) == Ok(r);
    assert Tried(p, -1, -1, 4) == AddShift(p, Ok([Mn(d, t)]), -1, -1, -1, 0);
    assert [Mn(d, t)] + [Mn(r, t)] == [Mn(d, t), Mn(r, t)];
    assert Tried(p, -1, -1, 4) == Ok([Mn(d, t), Mn(r, t)]);
    assert Successors(p) == Tried(p, -1, -1, 4);
  }

  /** A one-row grid of width zero makes `extensions` raise IndexError. */
  lemma EmptyRowRaises(t: Grid)
    ensures Successors(Mn([[]], t)) == Err(IndexError)
  {
    var g: Grid := [[]];
    var p := Mn(g, t);
    assert Blank !in g[0];
    assert BlankIn(g, 1) == (-1, -1);
    assert Tried(p, -1, -1, 1) == Ok([]);
    assert Tried(p, -1, -1, 2) == Ok([]);
    assert Lookup(g, 0, -1) == Err(IndexError);
    assert Tried(p, -1, -1, 3) == Err(IndexError);
    TriedErrStays(p, -1, -1, 3, 4);
  }

  /**
   * `is_solved` from row `a`, column `b` on, in row-major order: it walks
   * the cells of `from_grid`, answers False at the first one that differs
   * from `to_grid`, and raises IndexError where `to_grid` has no such cell.
   */
  function Compare(f: Grid, t: Grid, a: nat, b: nat): Result<bool>
    requires a <= |f| && (a < |f| ==> b <= |f[a]|)
    decreases |f| - a, if a < |f| then |f[a]| - b else 0
  {
    if a == |f| then Ok(true)
    else if b == |f[a]| then Compare(f, t, a + 1, 0)
    else if a >= |t| || b >= |t[a]| then Err(IndexError)
    else if f[a][b] != t[a][b] then Ok(false)
    else Compare(f, t, a, b + 1)
  }

  /** Cell `(r, c)` comes at or after `(a, b)` in row-major order. */
  predicate FromOn(a: nat, b: nat, r: nat, c: nat)
  {
    a < r || (a == r && b <= c)
  }

  /** Cell `(r, c)` of `f` is in `t` and holds the same symbol there. */
  predicate CellMatches(f: Grid, t: Grid, r: nat, c: nat)
    requires r < |f| && c < |f[r]|
  {
    r < |t| && c < |t[r]| && t[r][c] == f[r][c]
  }

  /** Every cell of `f` at or after `(a, b)` in row-major order matches. */
  ghost predicate MatchesFrom(f: Grid, t: Grid, a: nat, b: nat)
  {
    forall r: nat, c: nat | r < |f| && c < |f[r]| && (a < r || (a == r && b <= c)) :: CellMatches(f, t, r, c)
  }

  /** Past the end of row `a` the remaining cells are those from row `a + 1` on. */
  lemma MatchesNextRow(f: Grid, t: Grid, a: nat)
    requires a < |f|
    ensures MatchesFrom(f, t, a, |f[a]|) <==> MatchesFrom(f, t, a + 1, 0)
  {
    if MatchesFrom(f, t, a, |f[a]|) {
      forall r: nat, c: nat | r < |f| && c < |f[r]| && (a + 1 < r || (a + 1 == r && 0 <= c))
        ensures CellMatches(f, t, r, c)
      {
        assert a < r;
      }
    }
    if MatchesFrom(f, t, a + 1, 0) {
      forall r: nat, c: nat | r < |f| && c < |f[r]| && (a < r || (a == r && |f[a]| <= c))
        ensures CellMatches(f, t, r, c)
      {
        assert a + 1 <= r;
      }
    }
  }

  /** The remaining cells from `(a, b)` are that cell and those from `(a, b + 1)`. */
  lemma MatchesNextCell(f: Grid, t: Grid, a: nat, b: nat)
    requires a < |f| && b < |f[a]|
    ensures MatchesFrom(f, t, a, b) <==> CellMatches(f, t, a, b) && MatchesFrom(f, t, a, b + 1)
  {
    if CellMatches(f, t, a, b) && MatchesFrom(f, t, a, b + 1) {
      forall r: nat, c: nat | r < |f| && c < |f[r]| && (a < r || (a == r && b <= c))
        ensures CellMatches(f, t, r, c)
      {
        if r != a || c != b {
          assert a < r || (a == r && b + 1 <= c);
        }
      }
    }
  }

  /** The walk answers True exactly when every remaining cell matches. */
  lemma {:induction false} CompareTrue(f: Grid, t: Grid, a: nat, b: nat)
    requires a <= |f| && (a < |f| ==> b <= |f[a]|)
    ensures Compare(f, t, a, b) == Ok(true) <==> MatchesFrom(f, t, a, b)
    decreases |f| - a, if a < |f| then |f[a]| - b else 0
  {
    if a == |f| {
    } else if b == |f[a]| {
      CompareTrue(f, t, a + 1, 0);
      MatchesNextRow(f, t, a);
    } else {
      MatchesNextCell(f, t, a, b);
      if CellMatches(f, t, a, b) {
        CompareTrue(f, t, a, b + 1);
      }
    }
  }

  /**
   * When the walk does not answer True it names the cell where it stopped:
   * one missing from `to_grid` for the IndexError, one that differs for False.
   */
  lemma {:induction false} CompareStops(f: Grid, t: Grid, a: nat, b: nat) returns (r: nat, c: nat)
    requires a <= |f| && (a < |f| ==> b <= |f[a]|) && Compare(f, t, a, b) != Ok(true)
    ensures r < |f| && c < |f[r]| && FromOn(a, b, r, c)
    ensures Compare(f, t, a, b).Err? <==> r >= |t| || c >= |t[r]|
    ensures Compare(f, t, a, b) == Ok(false) ==> t[r][c] != f[r][c]
    ensures Compare(f, t, a, b) == Err(IndexError) || Compare(f, t, a, b) == Ok(false)
    decreases |f| - a, if a < |f| then |f[a]| - b else 0
  {
    if b == |f[a]| {
      r, c := CompareStops(f, t, a + 1, 0);
    } else if a >= |t| || b >= |t[a]| || f[a][b] != t[a][b] {
      r, c := a, b;
    } else {
      r, c := CompareStops(f, t, a, b + 1);
    }
  }

  /** `to_grid` has no cell at row `r`, column `c`. */
  predicate Missing(t: Grid, r: nat, c: nat)
  {
    r >= |t| || c >= |t[r]|
  }

  /** What `is_solved` answers for a configuration. */
  function Solved(p: Mn): Result<bool>
  {
    Compare(p.fromGrid, p.toGrid, 0, 0)
  }

  /** `is_solved`: two nested loops over `from_grid` with an early False. */
  method IsSolved(p: Mn) returns (r: Result<bool>)
    ensures r == Solved(p)
  {
    var f, t := p.fromGrid, p.toGrid;
    for a := 0 to |f|
      invariant Compare(f, t, a, 0) == Solved(p)
    {
      for b := 0 to |f[a]|
        invariant Compare(f, t, a, b) == Solved(p)
      {
        if a >= |t| || b >= |t[a]| {
          return Err(IndexError);
        }
        if f[a][b] != t[a][b] {
          return Ok(false);
        }
      }
    }
    r := Ok(true);
  }

  /**
   * `is_solved` answers True exactly when every cell of `from_grid` is in
   * `to_grid` with the same symbol; otherwise False, or IndexError when a
   * cell is missing from `to_grid`.
   */
  lemma SolvedMeaning(p: Mn)
    ensures Solved(p) == Ok(true) <==> MatchesFrom(p.fromGrid, p.toGrid, 0, 0)
    ensures Solved(p) == Ok(true) || Solved(p) == Ok(false) || Solved(p) == Err(IndexError)
    ensures Solved(p).Err? ==> exists r, c | 0 <= r < |p.fromGrid| && 0 <= c < |p.fromGrid[r]| :: Missing(p.toGrid, r, c)
  {
    CompareTrue(p.fromGrid, p.toGrid, 0, 0);
    if Solved(p) != Ok(true) {
      var r, c := CompareStops(p.fromGrid, p.toGrid, 0, 0);
      assert Solved(p).Err? ==> Missing(p.toGrid, r, c);
    }
  }

  /** Grids of the same shape: `is_solved` is exactly equality of the grids. */
  lemma SolvedSameShape(p: Mn)
    requires |p.fromGrid| == |p.toGrid| && forall r | 0 <= r < |p.fromGrid| :: |p.fromGrid[r]| == |p.toGrid[r]|
    ensures Solved(p) == Ok(p.fromGrid == p.toGrid)
  {
    var f, t := p.fromGrid, p.toGrid;
    CompareTrue(f, t, 0, 0);
    if Solved(p) != Ok(true) {
      var r, c := CompareStops(f, t, 0, 0);
      assert f[r][c] != t[r][c];
    } else {
      assert forall r | 0 <= r < |f| :: f[r] == t[r] by {
        forall r | 0 <= r < |f|
          ensures f[r] == t[r]
        {
          forall c | 0 <= c < |f[r]|
            ensures f[r][c] == t[r][c]
          {
            assert CellMatches(f, t, r, c);
          }
        }
      }
    }
  }

  /** The examples of `is_solved`, and a larger `to_grid` that still counts as solved. */
  lemma SolvedExamples()
    ensures var target := [["1", "2", "3"], ["4", "5", "*"]];
      Solved(Mn([["*", "2", "3"], ["1", "4", "5"]], target)) == Ok(false) &&
      Solved(Mn(target, target)) == Ok(true) &&
      Solved(Mn([["1"]], [["1", "2"], ["3", "*"]])) == Ok(true) &&
      Solved(Mn([["1", "2"]], [["1"]])) == Err(IndexError)
  {
    var target := [["1", "2", "3"], ["4", "5", "*"]];
    SolvedSameShape(Mn([["*", "2", "3"], ["1", "4", "5"]], target));
    SolvedSameShape(Mn(target, target));
  }

  /** `__eq__`: the same `to_grid` and the same `from_grid`. */
  function Equal(a: Mn, b: Mn): (r: bool)
    ensures r <==> a == b
  {
    a.toGrid == b.toGrid && a.fromGrid == b.fromGrid
  }

  /** The symbols of a row written one after another. */
  function Concat(row: seq<string>): string
  {
    if row == [] then "" else Concat(row[..|row| - 1]) + row[|row| - 1]
  }

  /** Each row's symbols joined up. */
  function Joined(g: Grid): (rows: seq<string>)
    ensures |rows| == |g| && forall r | 0 <= r < |g| :: rows[r] == Concat(g[r])
  {
    if g == [] then [] else Joined(g[..|g| - 1]) + [Concat(g[|g| - 1])]
  }

  /** The characters Python's argument-less `rstrip` removes. */
  const Whitespace: set<char> :=
    {'\t', '\n', '\U{000B}', '\U{000C}', '\r', '\U{001C}', '\U{001D}', '\U{001E}',
     '\U{001F}', ' ', '\U{0085}', '\U{00A0}', '\U{1680}', '\U{2000}', '\U{2001}', '\U{2002}',
     '\U{2003}', '\U{2004}', '\U{2005}', '\U{2006}', '\U{2007}', '\U{2008}', '\U{2009}', '\U{200A}',
     '\U{2028}', '\U{2029}', '\U{202F}', '\U{205F}', '\U{3000}'}

  /** `__str__`, the search key: each row's symbols run together, one row per line, trailing whitespace stripped. */
  function Render(g: Grid): string
  {
    RStrip(Lines(Joined(g)), Whitespace)
  }

  /** One more symbol joined onto a row. */
  lemma ConcatSnoc(row: seq<string>, y: nat)
    requires y < |row|
    ensures Concat(row[..y + 1]) == Concat(row[..y]) + row[y]
  {
    assert row[..y + 1][..y] == row[..y];
  }

  /** One more row of lines. */
  lemma LinesSnoc(g: Grid, x: nat)
    requires x < |g|
    ensures Lines(Joined(g[..x + 1])) == Lines(Joined(g[..x])) + Concat(g[x]) + "\n"
  {
    assert g[..x + 1][..x] == g[..x];
    assert Joined(g[..x + 1]) == Joined(g[..x]) + [Concat(g[x])];
  }

  /** `__str__`: append every symbol and a newline per row, then strip the end. */
  method ToString(p: Mn) returns (s: string)
    ensures s == Render(p.fromGrid)
  {
    var g := p.fromGrid;
    var ret := "";
    for x := 0 to |g|
      invariant ret == Lines(Joined(g[..x]))
    {
      for y := 0 to |g[x]|
        invariant ret == Lines(Joined(g[..x])) + Concat(g[x][..y])
      {
        ConcatSnoc(g[x], y);
        ret := ret + g[x][y];
      }
      assert g[x][..|g[x]|] == g[x];
      LinesSnoc(g, x);
      ret := ret + "\n";
    }
    assert g[..|g|] == g;
    s := RStrip(ret, Whitespace);
  }

  /** A row of three symbols joins to them in order. */
  lemma ConcatThree(a: string, b: string, c: string)
    ensures Concat([a, b, c]) == a + b + c
  {
    assert [a, b, c][..2] == [a, b];
    assert [a, b][..1] == [a];
    assert [a][..0] == [];
    assert Concat([a]) == "" + a == a;
    assert Concat([a, b]) == a + b;
  }

  /** Two rows join row by row. */
  lemma JoinedTwo(a: seq<string>, b: seq<string>)
    ensures Joined([a, b]) == [Concat(a), Concat(b)]
  {
    assert [a, b][..1] == [a];
    assert [a][..0] == [];
  }

  /** The example of `__str__`. */
  lemma RenderExample()
    ensures Render([["*", "2", "3"], ["1", "4", "5"]]) == "*23\n145"
  {
    ConcatThree("*", "2", "3");
    ConcatThree("1", "4", "5");
    JoinedTwo(["*", "2", "3"], ["1", "4", "5"]);
    assert "*" + "2" + "3" == "*23" && "1" + "4" + "5" == "145";
    assert Joined([["*", "2", "3"], ["1", "4", "5"]]) == ["*23", "145"];
    StripFinalNewline(["*23", "145"], Whitespace);
    assert Lines(["*23", "145"]) == "*23\n145\n";
  }

  /**
   * The key runs symbols together, so symbols of several characters make
   * different grids share a key: a search that has met one of these skips
   * the other.
   */
  lemma RenderCollision()
    ensures Render([["1", "11"]]) == Render([["11", "1"]]) && [["1", "11"]] != [["11", "1"]]
  {
    var a: Grid := [["1", "11"]];
    var b: Grid := [["11", "1"]];
    assert a[0][..1] == ["1"] && b[0][..1] == ["11"];
    assert Concat(a[0]) == Concat(["1"]) + "11" == "111";
    assert Concat(b[0]) == Concat(["11"]) + "1" == "111";
    assert a[..0] == b[..0] == [];
    assert Joined(a) == ["111"] == Joined(b);
    assert a[0][0] != b[0][0];
  }

  /** Every cell holds a single character that `rstrip` keeps. */
  predicate Glyphs(g: Grid)
  {
    forall r, c | 0 <= r < |g| && 0 <= c < |g[r]| :: |g[r][c]| == 1 && g[r][c][0] !in Whitespace
  }

  /** A row of single characters joins to those characters in order. */
  lemma {:induction false} ConcatSingles(row: seq<string>)
    requires forall c | 0 <= c < |row| :: |row[c]| == 1
    ensures |Concat(row)| == |row| && forall c | 0 <= c < |row| :: Concat(row)[c] == row[c][0]
    decreases |row|
  {
    if row != [] {
      ConcatSingles(row[..|row| - 1]);
    }
  }

  /** Rows of single characters with the same join are the same row. */
  lemma ConcatSinglesInjective(a: seq<string>, b: seq<string>)
    requires forall c | 0 <= c < |a| :: |a[c]| == 1
    requires forall c | 0 <= c < |b| :: |b[c]| == 1
    requires Concat(a) == Concat(b)
    ensures a == b
  {
    ConcatSingles(a);
    ConcatSingles(b);
    forall c | 0 <= c < |a|
      ensures a[c] == b[c]
    {
      assert a[c] == [a[c][0]] && b[c] == [b[c][0]];
    }
  }

  /** The joined rows of such a grid hold one kept character per cell and no newline. */
  lemma JoinedGlyphs(g: Grid)
    requires Glyphs(g)
    ensures |Joined(g)| == |g| && NoNewline(Joined(g))
    ensures forall r | 0 <= r < |g| :: |Joined(g)[r]| == |g[r]|
    ensures forall r, c | 0 <= r < |g| && 0 <= c < |g[r]| :: Joined(g)[r][c] !in Whitespace
  {
    forall r | 0 <= r < |g|
      ensures |Concat(g[r])| == |g[r]| && forall c | 0 <= c < |g[r]| :: Concat(g[r])[c] == g[r][c][0]
    {
      ConcatSingles(g[r]);
    }
  }

  /**
   * With one non-whitespace character per cell and a last row that is not
   * empty, the key tells grids apart.
   */
  lemma RenderInjective(a: Grid, b: Grid)
    requires Glyphs(a) && Glyphs(b) && a != [] && b != [] && a[|a| - 1] != [] && b[|b| - 1] != []
    requires Render(a) == Render(b)
    ensures a == b
  {
    var ja, jb := Joined(a), Joined(b);
    JoinedGlyphs(a);
    JoinedGlyphs(b);
    assert ja[|ja| - 1][|ja[|ja| - 1]| - 1] !in Whitespace;
    assert jb[|jb| - 1][|jb[|jb| - 1]| - 1] !in Whitespace;
    StripFinalNewline(ja, Whitespace);
    StripFinalNewline(jb, Whitespace);
    LinesInjective(ja, jb);
    forall r | 0 <= r < |a|
      ensures a[r] == b[r]
    {
      ConcatSinglesInjective(a[r], b[r]);
    }
  }
}
