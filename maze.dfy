/**
  The maze generator (Maze.py): a randomised depth-first carver over a
  height x width proto-maze, and the rasterisation of the proto-maze into a
  (2*height+1) x (2*width+1) numeric grid of walls (-1) and hallways (0).

  The random module is replaced by oracles. Every call of the carver visits a
  fresh cell, so each draw is made at most once per cell and the oracles are
  keyed by the cell (and direction) that asks:
    shuffle(w, h)       the order random.shuffle gives the four directions,
    straight(w, h)      the outcome of "random.random() <= s",
    cycle(w, h, d)      the outcome of "random.random() <= c" when the
                        neighbour in direction d is already visited.
  Every contract below holds for every oracle.
 */
module Maze {
  import opened Types

  // ------------------------------------------------------------------
  // Directions
  // ------------------------------------------------------------------

  datatype Direction = N | S | E | W

  /** The cell one step away from p in direction d (north is row - 1). */
  function Step(p: Coord, d: Direction): Coord {
    match d
    case N => (p.0, p.1 - 1)
    case S => (p.0, p.1 + 1)
    case W => (p.0 - 1, p.1)
    case E => (p.0 + 1, p.1)
  }

  /** The direction that leads back: the flag the neighbour gets when a wall is knocked down. */
  function Opposite(d: Direction): (r: Direction)
    ensures {d, r} == {N, S} || {d, r} == {E, W}
  {
    match d
    case N => S
    case S => N
    case E => W
    case W => E
  }

  predicate IsOrder(s: seq<Direction>) {
    |s| == 4 && N in s && S in s && E in s && W in s
  }

  /** A permutation of the four directions, as random.shuffle leaves ["N", "S", "E", "W"]. */
  type Order = s: seq<Direction> | IsOrder(s) witness [N, S, E, W]

  /** list.remove: drop the first occurrence of d, if any. */
  function Remove(s: seq<Direction>, d: Direction): (r: seq<Direction>)
    ensures d in s ==> |r| == |s| - 1
    ensures d !in s ==> r == s
    ensures forall x :: x in r ==> x in s
    ensures forall x :: x in s && x != d ==> x in r
  {
    if s == [] then []
    else if s[0] == d then s[1..]
    else [s[0]] + Remove(s[1..], d)
  }

  /** The position of d in s: a witness for the proofs about an order. */
  function IndexOf(s: seq<Direction>, d: Direction): (k: nat)
    requires d in s
    ensures k < |s| && s[k] == d
  {
    if s[0] == d then 0 else 1 + IndexOf(s[1..], d)
  }

  /** The straightness bias: prevDir is taken out of the shuffled order and put in front.
      The result is again a permutation, and the other three keep their shuffled order. */
  function Straighten(shuffled: Order, prevDir: Direction): (r: Order)
    ensures r[0] == prevDir
    ensures Remove(r, prevDir) == Remove(shuffled, prevDir)
  {
    [prevDir] + Remove(shuffled, prevDir)
  }

  // ------------------------------------------------------------------
  // Cells and grids
  // ------------------------------------------------------------------

  function Flag(c: Cell, d: Direction): bool {
    match d
    case N => c.north
    case S => c.south
    case E => c.east
    case W => c.west
  }

  function WithFlag(c: Cell, d: Direction): (r: Cell)
    ensures Flag(r, d) && r.visited == c.visited
    ensures forall e :: e != d ==> Flag(r, e) == Flag(c, e)
  {
    match d
    case N => c.(north := true)
    case S => c.(south := true)
    case E => c.(east := true)
    case W => c.(west := true)
  }

  predicate NoFlags(c: Cell) {
    !c.north && !c.east && !c.south && !c.west
  }

  /** The proto-maze as a value: rows indexed by h_pos, columns by w_pos. */
  type Grid = seq<seq<Cell>>

  predicate InGrid(width: int, height: int, p: Coord) {
    0 <= p.0 < width && 0 <= p.1 < height
  }

  ghost predicate Shaped(g: Grid, width: int, height: int) {
    |g| == height && forall h :: 0 <= h < |g| ==> |g[h]| == width
  }

  function At(g: Grid, p: Coord): Cell
    requires 0 <= p.1 < |g| && 0 <= p.0 < |g[p.1]|
  {
    g[p.1][p.0]
  }

  function SetCell(g: Grid, p: Coord, c: Cell): (r: Grid)
    requires 0 <= p.1 < |g| && 0 <= p.0 < |g[p.1]|
    ensures |r| == |g| && forall h :: 0 <= h < |g| ==> |r[h]| == |g[h]|
    ensures At(r, p) == c
    ensures forall q: Coord :: 0 <= q.1 < |g| && 0 <= q.0 < |g[q.1]| && q != p ==> At(r, q) == At(g, q)
  {
    g[p.1 := g[p.1][p.0 := c]]
  }

  /** Knocking down the wall between p and its neighbour in direction d sets
      d on p and the opposite direction on the neighbour (Maze.py:71-82). */
  function KnockDown(g: Grid, width: int, height: int, p: Coord, d: Direction): (r: Grid)
    requires Shaped(g, width, height) && InGrid(width, height, p) && InGrid(width, height, Step(p, d))
    ensures Shaped(r, width, height)
  {
    var q := Step(p, d);
    var g1 := SetCell(g, p, WithFlag(At(g, p), d));
    SetCell(g1, q, WithFlag(At(g1, q), Opposite(d)))
  }

  // ------------------------------------------------------------------
  // Structural properties of a proto-maze
  // ------------------------------------------------------------------

  /** No flag leads off the grid. */
  ghost predicate FlagsInBounds(g: Grid, width: int, height: int)
    requires Shaped(g, width, height)
  {
    forall p: Coord, d: Direction :: InGrid(width, height, p) && Flag(At(g, p), d) ==> InGrid(width, height, Step(p, d))
  }

  /** Wall removal is symmetric: every set flag has its mirror flag on the neighbour. */
  ghost predicate Mirrored(g: Grid, width: int, height: int)
    requires Shaped(g, width, height)
  {
    forall p: Coord, d: Direction {:trigger Flag(At(g, p), d), InGrid(width, height, Step(p, d))} ::
      InGrid(width, height, p) && Flag(At(g, p), d) && InGrid(width, height, Step(p, d)) ==>
      Flag(At(g, Step(p, d)), Opposite(d))
  }

  /** Unvisited cells outside `except` have no flag set. */
  ghost predicate Untouched(g: Grid, width: int, height: int, except: set<Coord>)
    requires Shaped(g, width, height)
  {
    forall p: Coord :: InGrid(width, height, p) && !At(g, p).visited && p !in except ==> NoFlags(At(g, p))
  }

  /** Every in-bounds neighbour of p is visited. */
  ghost predicate Closed(g: Grid, width: int, height: int, p: Coord)
    requires Shaped(g, width, height)
  {
    forall d :: InGrid(width, height, Step(p, d)) ==> At(g, Step(p, d)).visited
  }

  /** Every visited cell is either closed or one of the cells whose carving is still under way. */
  ghost predicate ClosedOrOpen(g: Grid, width: int, height: int, open: set<Coord>)
    requires Shaped(g, width, height)
  {
    forall p: Coord {:trigger Closed(g, width, height, p)} ::
      InGrid(width, height, p) && At(g, p).visited ==> p in open || Closed(g, width, height, p)
  }

  /** b can be entered from a through a knocked-down wall. */
  ghost predicate Linked(g: Grid, width: int, height: int, a: Coord, b: Coord)
    requires Shaped(g, width, height)
  {
    InGrid(width, height, a) && exists d :: Flag(At(g, a), d) && Step(a, d) == b
  }

  /** A walk from the carving origin (0,0) through knocked-down walls. */
  ghost predicate FlagPath(g: Grid, width: int, height: int, path: seq<Coord>)
    requires Shaped(g, width, height)
  {
    |path| >= 1 && path[0] == (0, 0) &&
    forall i :: 0 <= i < |path| - 1 ==> Linked(g, width, height, path[i], path[i + 1])
  }

  ghost predicate Reachable(g: Grid, width: int, height: int, c: Coord)
    requires Shaped(g, width, height)
  {
    exists path :: FlagPath(g, width, height, path) && path[|path| - 1] == c
  }

  ghost predicate AllReachable(g: Grid, width: int, height: int)
    requires Shaped(g, width, height)
  {
    forall p: Coord {:trigger Reachable(g, width, height, p)} ::
      InGrid(width, height, p) && At(g, p).visited ==> Reachable(g, width, height, p)
  }

  /** The invariants carving keeps at every step: no flag leads off the grid, every
      flag is mirrored, only visited cells and the `pending` ones have flags, every
      visited cell is closed or in `open` (still being carved), and every visited
      cell is connected to (0,0). */
  ghost predicate Carved(g: Grid, width: int, height: int, open: set<Coord>, pending: set<Coord>)
    requires Shaped(g, width, height)
  {
    FlagsInBounds(g, width, height) && Mirrored(g, width, height) && Untouched(g, width, height, pending) &&
    ClosedOrOpen(g, width, height, open) && AllReachable(g, width, height)
  }

  predicate CellGrows(a: Cell, b: Cell) {
    (a.visited ==> b.visited) && (a.north ==> b.north) && (a.east ==> b.east) &&
    (a.south ==> b.south) && (a.west ==> b.west)
  }

  /** Carving only ever sets flags: nothing visited becomes unvisited, no wall comes back. */
  ghost predicate Grows(g: Grid, g': Grid, width: int, height: int)
    requires Shaped(g, width, height) && Shaped(g', width, height)
  {
    forall p: Coord :: InGrid(width, height, p) ==> CellGrows(At(g, p), At(g', p))
  }

  ghost function Unvisited(g: Grid, width: int, height: int): set<Coord>
    requires Shaped(g, width, height)
  {
    set w, h | 0 <= w < width && 0 <= h < height && !g[h][w].visited :: (w, h)
  }

  /** No cycle draw ever succeeds. */
  ghost predicate NoCycles(cycle: (int, int, Direction) -> bool) {
    forall w, h, d :: !cycle(w, h, d)
  }

  // ------------------------------------------------------------------
  // Counting visited cells and removed walls
  // ------------------------------------------------------------------

  function RowSum(r: seq<Cell>, f: Cell -> int): int {
    if r == [] then 0 else RowSum(r[..|r| - 1], f) + f(r[|r| - 1])
  }

  function GridSum(g: Grid, f: Cell -> int): int {
    if g == [] then 0 else GridSum(g[..|g| - 1], f) + RowSum(g[|g| - 1], f)
  }

  /** Each removed wall is counted once, by the E flag of its west cell or the S flag of its north cell. */
  function EdgeWeight(c: Cell): int {
    (if c.east then 1 else 0) + (if c.south then 1 else 0)
  }

  function VisitWeight(c: Cell): int {
    if c.visited then 1 else 0
  }

  function EdgeCount(g: Grid): int {
    GridSum(g, EdgeWeight)
  }

  function VisitedCount(g: Grid): int {
    GridSum(g, VisitWeight)
  }

  lemma {:induction false} RowSumUpdate(r: seq<Cell>, f: Cell -> int, i: int, c: Cell)
    requires 0 <= i < |r|
    ensures RowSum(r[i := c], f) == RowSum(r, f) - f(r[i]) + f(c)
  {
    var r' := r[i := c];
    if i == |r| - 1 {
      assert r'[..|r'| - 1] == r[..|r| - 1];
    } else {
      assert r'[..|r'| - 1] == r[..|r| - 1][i := c];
      RowSumUpdate(r[..|r| - 1], f, i, c);
    }
  }

  lemma {:induction false} GridSumUpdate(g: Grid, f: Cell -> int, p: Coord, c: Cell)
    requires 0 <= p.1 < |g| && 0 <= p.0 < |g[p.1]|
    ensures GridSum(SetCell(g, p, c), f) == GridSum(g, f) - f(At(g, p)) + f(c)
  {
    var g' := SetCell(g, p, c);
    if p.1 == |g| - 1 {
      assert g'[..|g'| - 1] == g[..|g| - 1];
      RowSumUpdate(g[p.1], f, p.0, c);
    } else {
      assert g'[..|g'| - 1] == SetCell(g[..|g| - 1], p, c);
      GridSumUpdate(g[..|g| - 1], f, p, c);
    }
  }

  lemma {:induction false} RowSumConst(r: seq<Cell>, f: Cell -> int, k: int)
    requires forall i :: 0 <= i < |r| ==> f(r[i]) == k
    ensures RowSum(r, f) == |r| * k
  {
    if r != [] {
      RowSumConst(r[..|r| - 1], f, k);
    }
  }

  lemma {:induction false} GridSumConst(g: Grid, width: int, f: Cell -> int, k: int)
    requires Shaped(g, width, |g|)
    requires forall p: Coord :: InGrid(width, |g|, p) ==> f(At(g, p)) == k
    ensures GridSum(g, f) == |g| * (width * k)
  {
    if g != [] {
      var h := |g| - 1;
      forall i | 0 <= i < |g[h]| ensures f(g[h][i]) == k {
        assert InGrid(width, |g|, (i, h));
      }
      RowSumConst(g[h], f, k);
      forall p | InGrid(width, |g[..h]|, p) ensures f(At(g[..h], p)) == k {
        assert InGrid(width, |g|, p);
      }
      GridSumConst(g[..h], width, f, k);
    }
  }

  // ------------------------------------------------------------------
  // Lemmas about reachability and the carving steps
  // ------------------------------------------------------------------

  lemma ReachExtend(g: Grid, width: int, height: int, p: Coord, d: Direction)
    requires Shaped(g, width, height) && InGrid(width, height, p)
    requires Flag(At(g, p), d) && Reachable(g, width, height, p)
    ensures Reachable(g, width, height, Step(p, d))
  {
    var path :| FlagPath(g, width, height, path) && path[|path| - 1] == p;
    var path' := path + [Step(p, d)];
    forall i | 0 <= i < |path'| - 1 ensures Linked(g, width, height, path'[i], path'[i + 1]) {
      if i < |path| - 1 {
        assert path'[i] == path[i] && path'[i + 1] == path[i + 1];
      }
    }
    assert FlagPath(g, width, height, path') && path'[|path'| - 1] == Step(p, d);
  }

  lemma ReachableGrows(g: Grid, g': Grid, width: int, height: int, c: Coord)
    requires Shaped(g, width, height) && Shaped(g', width, height)
    requires Grows(g, g', width, height) && Reachable(g, width, height, c)
    ensures Reachable(g', width, height, c)
  {
    var path :| FlagPath(g, width, height, path) && path[|path| - 1] == c;
    forall i | 0 <= i < |path| - 1 ensures Linked(g', width, height, path[i], path[i + 1]) {
      assert Linked(g, width, height, path[i], path[i + 1]);
      var d :| Flag(At(g, path[i]), d) && Step(path[i], d) == path[i + 1];
      assert CellGrows(At(g, path[i]), At(g', path[i]));
      assert Flag(At(g', path[i]), d);
    }
    assert FlagPath(g', width, height, path);
  }

  lemma GrowsTransitive(g1: Grid, g2: Grid, g3: Grid, width: int, height: int)
    requires Shaped(g1, width, height) && Shaped(g2, width, height) && Shaped(g3, width, height)
    requires Grows(g1, g2, width, height) && Grows(g2, g3, width, height)
    ensures Grows(g1, g3, width, height)
  {
    forall p | InGrid(width, height, p) ensures CellGrows(At(g1, p), At(g3, p)) {
      assert CellGrows(At(g1, p), At(g2, p)) && CellGrows(At(g2, p), At(g3, p));
    }
  }

  lemma UnvisitedShrinks(g: Grid, g': Grid, width: int, height: int)
    requires Shaped(g, width, height) && Shaped(g', width, height) && Grows(g, g', width, height)
    ensures Unvisited(g', width, height) <= Unvisited(g, width, height)
  {
    forall x | x in Unvisited(g', width, height) ensures x in Unvisited(g, width, height) {
      assert CellGrows(At(g, x), At(g', x));
    }
  }

  /** g' is g with cell p marked visited and every other cell as before. */
  ghost predicate Marked(g: Grid, g': Grid, width: int, height: int, p: Coord)
    requires Shaped(g, width, height) && Shaped(g', width, height) && InGrid(width, height, p)
  {
    At(g', p) == At(g, p).(visited := true) &&
    forall r: Coord :: InGrid(width, height, r) && r != p ==> At(g', r) == At(g, r)
  }

  lemma MarkCells(g: Grid, width: int, height: int, p: Coord)
    requires Shaped(g, width, height) && InGrid(width, height, p)
    ensures var g' := SetCell(g, p, At(g, p).(visited := true));
      Shaped(g', width, height) && Marked(g, g', width, height, p)
  {
  }

  /** Marking a cell changes no flag, so the flags stay in bounds and mirrored. */
  lemma MarkFlags(g: Grid, g': Grid, width: int, height: int, p: Coord)
    requires Shaped(g, width, height) && Shaped(g', width, height) && InGrid(width, height, p)
    requires Marked(g, g', width, height, p)
    requires FlagsInBounds(g, width, height) && Mirrored(g, width, height)
    ensures Grows(g, g', width, height)
    ensures FlagsInBounds(g', width, height) && Mirrored(g', width, height)
  {
    assert forall r: Coord, e :: InGrid(width, height, r) ==> Flag(At(g', r), e) == Flag(At(g, r), e);
    forall r: Coord, e | InGrid(width, height, r) && Flag(At(g', r), e) && InGrid(width, height, Step(r, e))
      ensures Flag(At(g', Step(r, e)), Opposite(e))
    {
      assert Flag(At(g, r), e);
      assert Flag(At(g, Step(r, e)), Opposite(e));
    }
  }

  /** After marking p, every visited cell is closed, open, or p itself. */
  lemma MarkClosed(g: Grid, g': Grid, width: int, height: int, p: Coord, open: set<Coord>)
    requires Shaped(g, width, height) && Shaped(g', width, height) && InGrid(width, height, p)
    requires Marked(g, g', width, height, p) && Grows(g, g', width, height)
    requires ClosedOrOpen(g, width, height, open)
    ensures ClosedOrOpen(g', width, height, open + {p})
  {
    forall q | InGrid(width, height, q) && At(g', q).visited ensures q in open + {p} || Closed(g', width, height, q) {
      if q != p {
        assert At(g, q).visited;
        if q !in open {
          assert Closed(g, width, height, q);
        }
      }
    }
  }

  /** After marking a reachable p, every visited cell is still reachable. */
  lemma MarkReach(g: Grid, g': Grid, width: int, height: int, p: Coord)
    requires Shaped(g, width, height) && Shaped(g', width, height) && InGrid(width, height, p)
    requires Marked(g, g', width, height, p) && Grows(g, g', width, height)
    requires AllReachable(g, width, height) && Reachable(g, width, height, p)
    ensures AllReachable(g', width, height)
  {
    forall q | InGrid(width, height, q) && At(g', q).visited ensures Reachable(g', width, height, q) {
      ReachableGrows(g, g', width, height, q);
    }
  }

  /** What marking the current cell visited (Maze.py:47) does to the carving invariants. */
  lemma MarkFacts(g: Grid, g': Grid, width: int, height: int, p: Coord, open: set<Coord>)
    requires Shaped(g, width, height) && InGrid(width, height, p) && !At(g, p).visited
    requires g' == SetCell(g, p, At(g, p).(visited := true))
    requires Carved(g, width, height, open, {p}) && Reachable(g, width, height, p)
    ensures Shaped(g', width, height) && Grows(g, g', width, height) && At(g', p).visited
    ensures Carved(g', width, height, open + {p}, {})
    ensures EdgeCount(g') == EdgeCount(g) && VisitedCount(g') == VisitedCount(g) + 1
    ensures Unvisited(g', width, height) < Unvisited(g, width, height)
  {
    MarkCells(g, width, height, p);
    MarkFlags(g, g', width, height, p);
    MarkClosed(g, g', width, height, p, open);
    MarkReach(g, g', width, height, p);
    GridSumUpdate(g, EdgeWeight, p, At(g, p).(visited := true));
    GridSumUpdate(g, VisitWeight, p, At(g, p).(visited := true));
    UnvisitedShrinks(g, g', width, height);
    assert p in Unvisited(g, width, height);
  }

  /** g' is g with the wall between p and its neighbour in direction d knocked down:
      p gains flag d, the neighbour gains the opposite flag, every other cell is as before. */
  ghost predicate Knocked(g: Grid, g': Grid, width: int, height: int, p: Coord, d: Direction)
    requires Shaped(g, width, height) && Shaped(g', width, height)
    requires InGrid(width, height, p) && InGrid(width, height, Step(p, d))
  {
    At(g', p) == WithFlag(At(g, p), d) &&
    At(g', Step(p, d)) == WithFlag(At(g, Step(p, d)), Opposite(d)) &&
    forall r: Coord :: InGrid(width, height, r) && r != p && r != Step(p, d) ==> At(g', r) == At(g, r)
  }

  lemma KnockCells(g: Grid, width: int, height: int, p: Coord, d: Direction)
    requires Shaped(g, width, height) && InGrid(width, height, p) && InGrid(width, height, Step(p, d))
    ensures Knocked(g, KnockDown(g, width, height, p, d), width, height, p, d)
  {
    var q := Step(p, d);
    var g1 := SetCell(g, p, WithFlag(At(g, p), d));
    assert At(g1, q) == At(g, q);
  }

  lemma KnockGrows(g: Grid, g': Grid, width: int, height: int, p: Coord, d: Direction)
    requires Shaped(g, width, height) && Shaped(g', width, height)
    requires InGrid(width, height, p) && InGrid(width, height, Step(p, d))
    requires Knocked(g, g', width, height, p, d)
    ensures Grows(g, g', width, height)
    ensures forall r: Coord :: InGrid(width, height, r) ==> At(g', r).visited == At(g, r).visited
    ensures Unvisited(g', width, height) == Unvisited(g, width, height)
  {
    forall r | InGrid(width, height, r) ensures CellGrows(At(g, r), At(g', r)) {
    }
    forall x | x in Unvisited(g', width, height) ensures x in Unvisited(g, width, height) {
      assert At(g', x).visited == At(g, x).visited;
    }
    forall x | x in Unvisited(g, width, height) ensures x in Unvisited(g', width, height) {
      assert At(g', x).visited == At(g, x).visited;
    }
  }

  lemma KnockFlagsInBounds(g: Grid, g': Grid, width: int, height: int, p: Coord, d: Direction)
    requires Shaped(g, width, height) && Shaped(g', width, height)
    requires InGrid(width, height, p) && InGrid(width, height, Step(p, d))
    requires Knocked(g, g', width, height, p, d)
    requires FlagsInBounds(g, width, height)
    ensures FlagsInBounds(g', width, height)
  {
    var q := Step(p, d);
    forall r: Coord, e | InGrid(width, height, r) && Flag(At(g', r), e) ensures InGrid(width, height, Step(r, e)) {
      if r == p {
        if e != d { assert Flag(At(g, r), e); }
      } else if r == q {
        if e == Opposite(d) { assert Step(q, e) == p; } else { assert Flag(At(g, r), e); }
      } else {
        assert Flag(At(g, r), e);
      }
    }
  }

  lemma KnockMirrored(g: Grid, g': Grid, width: int, height: int, p: Coord, d: Direction)
    requires Shaped(g, width, height) && Shaped(g', width, height)
    requires InGrid(width, height, p) && InGrid(width, height, Step(p, d))
    requires Knocked(g, g', width, height, p, d)
    requires Mirrored(g, width, height)
    ensures Mirrored(g', width, height)
  {
    var q := Step(p, d);
    forall r: Coord, e | InGrid(width, height, r) && Flag(At(g', r), e) && InGrid(width, height, Step(r, e))
      ensures Flag(At(g', Step(r, e)), Opposite(e))
    {
      var s := Step(r, e);
      if r == p && e == d {
      } else if r == q && e == Opposite(d) {
        assert s == p && Opposite(e) == d;
      } else {
        assert Flag(At(g, r), e);
        assert Flag(At(g, s), Opposite(e));
        if s == p {
          assert Opposite(e) != d;
        } else if s == q {
          assert Opposite(e) != Opposite(d);
        }
      }
    }
  }

  lemma KnockUntouched(g: Grid, g': Grid, width: int, height: int, p: Coord, d: Direction)
    requires Shaped(g, width, height) && Shaped(g', width, height)
    requires InGrid(width, height, p) && InGrid(width, height, Step(p, d))
    requires Knocked(g, g', width, height, p, d) && At(g, p).visited
    requires Untouched(g, width, height, {})
    ensures Untouched(g', width, height, {Step(p, d)})
    ensures At(g, Step(p, d)).visited ==> Untouched(g', width, height, {})
  {
  }

  lemma KnockReach(g: Grid, g': Grid, width: int, height: int, p: Coord, d: Direction)
    requires Shaped(g, width, height) && Shaped(g', width, height)
    requires InGrid(width, height, p) && InGrid(width, height, Step(p, d))
    requires Knocked(g, g', width, height, p, d) && At(g, p).visited
    requires Grows(g, g', width, height) && AllReachable(g, width, height)
    ensures AllReachable(g', width, height) && Reachable(g', width, height, Step(p, d))
  {
    forall r | InGrid(width, height, r) && At(g', r).visited ensures Reachable(g', width, height, r) {
      assert At(g, r).visited;
      ReachableGrows(g, g', width, height, r);
    }
    ReachExtend(g', width, height, p, d);
  }

  lemma KnockEdges(g: Grid, width: int, height: int, p: Coord, d: Direction)
    requires Shaped(g, width, height) && InGrid(width, height, p) && InGrid(width, height, Step(p, d))
    requires Mirrored(g, width, height) && NoFlags(At(g, Step(p, d)))
    ensures EdgeCount(KnockDown(g, width, height, p, d)) == EdgeCount(g) + 1
  {
    var q := Step(p, d);
    var g1 := SetCell(g, p, WithFlag(At(g, p), d));
    assert !Flag(At(g, p), d);
    assert At(g1, q) == At(g, q);
    GridSumUpdate(g, EdgeWeight, p, WithFlag(At(g, p), d));
    GridSumUpdate(g1, EdgeWeight, q, WithFlag(At(g1, q), Opposite(d)));
  }

  lemma KnockVisits(g: Grid, width: int, height: int, p: Coord, d: Direction)
    requires Shaped(g, width, height) && InGrid(width, height, p) && InGrid(width, height, Step(p, d))
    ensures VisitedCount(KnockDown(g, width, height, p, d)) == VisitedCount(g)
  {
    var q := Step(p, d);
    var g1 := SetCell(g, p, WithFlag(At(g, p), d));
    assert At(g1, q) == At(g, q);
    GridSumUpdate(g, VisitWeight, p, WithFlag(At(g, p), d));
    GridSumUpdate(g1, VisitWeight, q, WithFlag(At(g1, q), Opposite(d)));
  }

  /** What knocking down the wall from the visited cell p towards d (Maze.py:71-82) does to the carving invariants. */
  lemma KnockFacts(g: Grid, g': Grid, width: int, height: int, p: Coord, d: Direction, open: set<Coord>)
    requires Shaped(g, width, height) && InGrid(width, height, p) && InGrid(width, height, Step(p, d))
    requires g' == KnockDown(g, width, height, p, d) && At(g, p).visited
    requires Carved(g, width, height, open, {})
    ensures Shaped(g', width, height) && Grows(g, g', width, height)
    ensures forall r: Coord :: InGrid(width, height, r) ==> At(g', r).visited == At(g, r).visited
    ensures !At(g, Step(p, d)).visited ==> Carved(g', width, height, open, {Step(p, d)})
    ensures At(g, Step(p, d)).visited ==> Carved(g', width, height, open, {})
    ensures Reachable(g', width, height, Step(p, d))
    ensures Unvisited(g', width, height) == Unvisited(g, width, height)
    ensures VisitedCount(g') == VisitedCount(g)
    ensures !At(g, Step(p, d)).visited ==> EdgeCount(g') == EdgeCount(g) + 1
  {
    KnockCells(g, width, height, p, d);
    KnockGrows(g, g', width, height, p, d);
    KnockFlagsInBounds(g, g', width, height, p, d);
    KnockMirrored(g, g', width, height, p, d);
    KnockUntouched(g, g', width, height, p, d);
    KnockReach(g, g', width, height, p, d);
    KnockClosed(g, g', width, height, open);
    KnockVisits(g, width, height, p, d);
    if !At(g, Step(p, d)).visited {
      KnockEdges(g, width, height, p, d);
      assert Carved(g', width, height, open, {Step(p, d)});
    } else {
      assert Carved(g', width, height, open, {});
    }
  }

  /** A change that keeps every visited mark keeps every visited cell closed or open. */
  lemma KnockClosed(g: Grid, g': Grid, width: int, height: int, open: set<Coord>)
    requires Shaped(g, width, height) && Shaped(g', width, height)
    requires forall r: Coord :: InGrid(width, height, r) ==> At(g', r).visited == At(g, r).visited
    requires ClosedOrOpen(g, width, height, open)
    ensures ClosedOrOpen(g', width, height, open)
  {
    forall r | InGrid(width, height, r) && At(g', r).visited && r !in open ensures Closed(g', width, height, r) {
      assert Closed(g, width, height, r);
    }
  }

  /** The in-bounds neighbours of p in the first i directions of dirs are visited. */
  ghost predicate VisitedUpTo(g: Grid, width: int, height: int, p: Coord, dirs: seq<Direction>, i: int)
    requires Shaped(g, width, height) && 0 <= i <= |dirs|
  {
    forall k :: 0 <= k < i && InGrid(width, height, Step(p, dirs[k])) ==> At(g, Step(p, dirs[k])).visited
  }

  lemma NeighboursVisitedStep(g: Grid, g': Grid, width: int, height: int, p: Coord, dirs: seq<Direction>, i: int)
    requires Shaped(g, width, height) && Shaped(g', width, height) && Grows(g, g', width, height)
    requires 0 <= i < |dirs| && VisitedUpTo(g, width, height, p, dirs, i)
    requires InGrid(width, height, Step(p, dirs[i])) ==> At(g', Step(p, dirs[i])).visited
    ensures VisitedUpTo(g', width, height, p, dirs, i + 1)
  {
    forall k | 0 <= k < i && InGrid(width, height, Step(p, dirs[k])) ensures At(g', Step(p, dirs[k])).visited {
      assert CellGrows(At(g, Step(p, dirs[k])), At(g', Step(p, dirs[k])));
    }
  }

  lemma NeighboursVisitedClosed(g: Grid, width: int, height: int, p: Coord, dirs: Order)
    requires Shaped(g, width, height) && VisitedUpTo(g, width, height, p, dirs, |dirs|)
    ensures Closed(g, width, height, p)
  {
    forall d | InGrid(width, height, Step(p, d)) ensures At(g, Step(p, d)).visited {
      var k := IndexOf(dirs, d);
    }
  }

  /** A blank proto-maze satisfies every carving invariant before the first call. */
  lemma BlankFacts(g: Grid, width: int, height: int)
    requires width >= 1 && height >= 1 && Shaped(g, width, height)
    requires forall p: Coord :: InGrid(width, height, p) ==> At(g, p) == Cell(false, false, false, false, false)
    ensures Carved(g, width, height, {}, {(0, 0)}) && Reachable(g, width, height, (0, 0))
    ensures EdgeCount(g) == 0 && VisitedCount(g) == 0
  {
    assert FlagPath(g, width, height, [(0, 0)]);
    GridSumConst(g, width, EdgeWeight, 0);
    GridSumConst(g, width, VisitWeight, 0);
  }

  /** Once the origin is visited and no carving is under way, every cell is visited. */
  lemma {:induction false} VisitedEverywhere(g: Grid, width: int, height: int, p: Coord)
    requires Shaped(g, width, height) && InGrid(width, height, p)
    requires InGrid(width, height, (0, 0)) && At(g, (0, 0)).visited && ClosedOrOpen(g, width, height, {})
    ensures At(g, p).visited
    decreases p.0 + p.1
  {
    if p.0 > 0 {
      var left := (p.0 - 1, p.1);
      VisitedEverywhere(g, width, height, left);
      assert Closed(g, width, height, left) && Step(left, E) == p;
    } else if p.1 > 0 {
      var up := (p.0, p.1 - 1);
      VisitedEverywhere(g, width, height, up);
      assert Closed(g, width, height, up) && Step(up, S) == p;
    }
  }

  // ------------------------------------------------------------------
  // The proto-maze and the carver
  // ------------------------------------------------------------------

  /** The nested list of cell dictionaries that generate_maze builds and maze_carver fills in. */
  class ProtoMaze {
    var cells: Grid

    /** The comprehension of Maze.py:24-27: height rows of width unvisited, fully walled cells. */
    constructor (width: nat, height: nat)
      ensures Shaped(cells, width, height)
      ensures forall p: Coord :: InGrid(width, height, p) ==> At(cells, p) == Cell(false, false, false, false, false)
    {
      cells := seq(height, _ => seq(width, _ => Cell(false, false, false, false, false)));
    }
  }

  /** maze_carver (Maze.py:33-86). `open` is the set of cells whose calls are still on the stack. */
  method MazeCarver(wPos: int, hPos: int, straight: (int, int) -> bool, prevDir: Direction,
                    cycle: (int, int, Direction) -> bool, shuffle: (int, int) -> Order,
                    maze: ProtoMaze, width: int, height: int, ghost open: set<Coord>)
    requires Shaped(maze.cells, width, height) && InGrid(width, height, (wPos, hPos))
    requires !At(maze.cells, (wPos, hPos)).visited
    requires Carved(maze.cells, width, height, open, {(wPos, hPos)})
    requires Reachable(maze.cells, width, height, (wPos, hPos))
    requires NoCycles(cycle) ==> EdgeCount(maze.cells) == VisitedCount(maze.cells)
    modifies maze
    decreases Unvisited(maze.cells, width, height), 0
    ensures Shaped(maze.cells, width, height) && Grows(old(maze.cells), maze.cells, width, height)
    ensures At(maze.cells, (wPos, hPos)).visited
    ensures Carved(maze.cells, width, height, open, {})
    ensures NoCycles(cycle) ==> EdgeCount(maze.cells) + 1 == VisitedCount(maze.cells)
  {
    ghost var entry := maze.cells;
    var here := (wPos, hPos);
    maze.cells := SetCell(maze.cells, here, At(maze.cells, here).(visited := true));
    MarkFacts(entry, maze.cells, width, height, here, open);
    ghost var marked := maze.cells;

    var directions: Order := shuffle(wPos, hPos);
    if straight(wPos, hPos) {
      directions := Straighten(directions, prevDir);
    }

    var i := 0;
    while i < |directions|
      invariant 0 <= i <= |directions|
      invariant Shaped(maze.cells, width, height) && Grows(marked, maze.cells, width, height)
      invariant Unvisited(maze.cells, width, height) <= Unvisited(marked, width, height)
      invariant Carved(maze.cells, width, height, open + {here}, {})
      invariant NoCycles(cycle) ==> EdgeCount(maze.cells) + 1 == VisitedCount(maze.cells)
      invariant VisitedUpTo(maze.cells, width, height, here, directions, i)
    {
      ghost var start := maze.cells;
      CarveToward(wPos, hPos, directions[i], straight, cycle, shuffle, maze, width, height, open + {here});
      GrowsTransitive(marked, start, maze.cells, width, height);
      UnvisitedShrinks(start, maze.cells, width, height);
      NeighboursVisitedStep(start, maze.cells, width, height, here, directions, i);
      i := i + 1;
    }

    NeighboursVisitedClosed(maze.cells, width, height, here, directions);
    GrowsTransitive(entry, marked, maze.cells, width, height);
  }

  /** One round of maze_carver's loop (Maze.py:58-82), from the visited cell (wPos, hPos)
      towards d: step, check bounds, knock the wall down when the neighbour is unvisited or
      the cycle draw succeeds, and carve on from the neighbour when it is unvisited. */
  method CarveToward(wPos: int, hPos: int, d: Direction, straight: (int, int) -> bool,
                     cycle: (int, int, Direction) -> bool, shuffle: (int, int) -> Order,
                     maze: ProtoMaze, width: int, height: int, ghost open: set<Coord>)
    requires Shaped(maze.cells, width, height) && InGrid(width, height, (wPos, hPos))
    requires At(maze.cells, (wPos, hPos)).visited && (wPos, hPos) in open
    requires Carved(maze.cells, width, height, open, {})
    requires NoCycles(cycle) ==> EdgeCount(maze.cells) + 1 == VisitedCount(maze.cells)
    modifies maze
    decreases Unvisited(maze.cells, width, height), 1
    ensures Shaped(maze.cells, width, height) && Grows(old(maze.cells), maze.cells, width, height)
    ensures Carved(maze.cells, width, height, open, {})
    ensures NoCycles(cycle) ==> EdgeCount(maze.cells) + 1 == VisitedCount(maze.cells)
    ensures InGrid(width, height, Step((wPos, hPos), d)) ==> At(maze.cells, Step((wPos, hPos), d)).visited
  {
    var here := (wPos, hPos);
    var nw, nh := wPos, hPos;
    if d == N { nh := nh - 1; }
    if d == S { nh := nh + 1; }
    if d == W { nw := nw - 1; }
    if d == E { nw := nw + 1; }
    assert (nw, nh) == Step(here, d);

    if 0 <= nw < width && 0 <= nh < height {
      ghost var start := maze.cells;
      KnockToward(wPos, hPos, d, nw, nh, cycle, maze, width, height, open);
      if !maze.cells[nh][nw].visited {
        ghost var knocked := maze.cells;
        MazeCarver(nw, nh, straight, d, cycle, shuffle, maze, width, height, open);
        GrowsTransitive(start, knocked, maze.cells, width, height);
      }
    }
  }

  /** The knock-down step of maze_carver's loop (Maze.py:69-82): when the in-bounds
      neighbour (nw, nh) in direction d is unvisited, or the cycle draw succeeds, knock
      down the wall between it and the visited cell (wPos, hPos). */
  method KnockToward(wPos: int, hPos: int, d: Direction, nw: int, nh: int,
                     cycle: (int, int, Direction) -> bool,
                     maze: ProtoMaze, width: int, height: int, ghost open: set<Coord>)
    requires Shaped(maze.cells, width, height) && InGrid(width, height, (wPos, hPos))
    requires (nw, nh) == Step((wPos, hPos), d) && InGrid(width, height, (nw, nh))
    requires At(maze.cells, (wPos, hPos)).visited && Carved(maze.cells, width, height, open, {})
    requires NoCycles(cycle) ==> EdgeCount(maze.cells) + 1 == VisitedCount(maze.cells)
    modifies maze
    ensures Shaped(maze.cells, width, height) && Grows(old(maze.cells), maze.cells, width, height)
    ensures At(maze.cells, (nw, nh)).visited == At(old(maze.cells), (nw, nh)).visited
    ensures Unvisited(maze.cells, width, height) == Unvisited(old(maze.cells), width, height)
    ensures maze.cells == if !At(old(maze.cells), (nw, nh)).visited || cycle(wPos, hPos, d)
                          then KnockDown(old(maze.cells), width, height, (wPos, hPos), d) else old(maze.cells)
    ensures !At(maze.cells, (nw, nh)).visited ==>
              Carved(maze.cells, width, height, open, {(nw, nh)}) && Reachable(maze.cells, width, height, (nw, nh)) &&
              (NoCycles(cycle) ==> EdgeCount(maze.cells) == VisitedCount(maze.cells))
    ensures At(maze.cells, (nw, nh)).visited ==>
              Carved(maze.cells, width, height, open, {}) &&
              (NoCycles(cycle) ==> EdgeCount(maze.cells) + 1 == VisitedCount(maze.cells))
  {
    ghost var start := maze.cells;
    if !maze.cells[nh][nw].visited || cycle(wPos, hPos, d) {
      maze.cells := KnockDown(maze.cells, width, height, (wPos, hPos), d);
      KnockFacts(start, maze.cells, width, height, (wPos, hPos), d, open);
    }
  }


  /** generate_maze (Maze.py:6-31): carve from (0,0), arriving from the north.
      The result is walled off from the outside, symmetric, fully visited and
      connected to (0,0); without successful cycle draws it has exactly
      width*height - 1 removed walls, so its links form a spanning tree. */
  method GenerateMaze(width: int, height: int, straight: (int, int) -> bool,
                      cycle: (int, int, Direction) -> bool, shuffle: (int, int) -> Order)
    returns (maze: ProtoMaze)
    requires width >= 1 && height >= 1
    ensures fresh(maze) && Shaped(maze.cells, width, height)
    ensures FlagsInBounds(maze.cells, width, height) && Mirrored(maze.cells, width, height)
    ensures forall p: Coord :: InGrid(width, height, p) ==> At(maze.cells, p).visited
    ensures forall p: Coord :: InGrid(width, height, p) ==> Reachable(maze.cells, width, height, p)
    ensures NoCycles(cycle) ==> EdgeCount(maze.cells) == width * height - 1
  {
    maze := new ProtoMaze(width, height);
    BlankFacts(maze.cells, width, height);
    var wPos, hPos := 0, 0;
    MazeCarver(wPos, hPos, straight, N, cycle, shuffle, maze, width, height, {});
    forall p | InGrid(width, height, p) ensures At(maze.cells, p).visited {
      VisitedEverywhere(maze.cells, width, height, p);
    }
    GridSumConst(maze.cells, width, VisitWeight, 1);
  }

  // ------------------------------------------------------------------
  // Rasterisation
  // ------------------------------------------------------------------

  /** The value maze_to_array leaves at row i, column j of the numeric grid: every cell
      centre (2h+1, 2w+1) is a hallway, the entry east of a centre is a hallway when the
      cell has its E flag, the entry south of a centre when it has its S flag, and
      everything else is a wall. */
  function RasterAt(g: Grid, i: int, j: int): (r: real)
    ensures r == 0.0 || r == -1.0
  {
    var h, w := (i - 1) / 2, (j - 1) / 2;
    if !(0 <= h < |g| && 0 <= w < |g[h]|) then -1.0
    else if i % 2 == 1 && j % 2 == 1 then 0.0
    else if i % 2 == 1 && g[h][w].east then 0.0
    else if j % 2 == 1 && g[h][w].south then 0.0
    else -1.0
  }

  /** The cell whose iteration of maze_to_array's loop writes entry (i, j) comes before
      cell (wi, hi) in row-major order. Entries with no such cell get a row or column of -1. */
  predicate WrittenBefore(i: int, j: int, hi: int, wi: int) {
    (i - 1) / 2 < hi || ((i - 1) / 2 == hi && (j - 1) / 2 < wi)
  }

  /** maze_to_array (Maze.py:88-116): a (2*height+1) x (2*width+1) grid, each entry as RasterAt says. */
  method MazeToArray(maze: ProtoMaze) returns (a: array2<real>)
    requires |maze.cells| >= 1 && Shaped(maze.cells, |maze.cells[0]|, |maze.cells|)
    ensures fresh(a)
    ensures a.Length0 == 2 * |maze.cells| + 1 && a.Length1 == 2 * |maze.cells[0]| + 1
    ensures forall i, j :: 0 <= i < a.Length0 && 0 <= j < a.Length1 ==> a[i, j] == RasterAt(maze.cells, i, j)
  {
    var height := |maze.cells|;
    var width := |maze.cells[0]|;
    var arrWidth := 2 * width + 1;
    var arrHeight := 2 * height + 1;
    a := new real[arrHeight, arrWidth]((_, _) => -1.0);

    for hi := 0 to height
      invariant forall i, j :: 0 <= i < arrHeight && 0 <= j < arrWidth ==>
                  a[i, j] == if WrittenBefore(i, j, hi, 0) then RasterAt(maze.cells, i, j) else -1.0
    {
      for wi := 0 to width
        invariant forall i, j :: 0 <= i < arrHeight && 0 <= j < arrWidth ==>
                    a[i, j] == if WrittenBefore(i, j, hi, wi) then RasterAt(maze.cells, i, j) else -1.0
      {
        var twi := 2 * wi + 1;
        var thi := 2 * hi + 1;
        a[thi, twi] := 0.0;
        if 0 <= twi < arrWidth && 0 <= thi < arrHeight {
          if maze.cells[hi][wi].east {
            a[thi, twi + 1] := 0.0;
          }
          if maze.cells[hi][wi].south {
            a[thi + 1, twi] := 0.0;
          }
        }
      }
    }
  }

  /** The centre of cell (w, h) is a hallway, and the entries east and south of it are
      hallways exactly when the cell has its E and S flags. */
  lemma RasterCell(g: Grid, h: int, w: int)
    requires 0 <= h < |g| && 0 <= w < |g[h]|
    ensures RasterAt(g, 2 * h + 1, 2 * w + 1) == 0.0
    ensures RasterAt(g, 2 * h + 1, 2 * w + 2) == 0.0 <==> g[h][w].east
    ensures RasterAt(g, 2 * h + 2, 2 * w + 1) == 0.0 <==> g[h][w].south
  {
    assert (2 * h + 1 - 1) / 2 == h && (2 * h + 2 - 1) / 2 == h;
    assert (2 * w + 1 - 1) / 2 == w && (2 * w + 2 - 1) / 2 == w;
    assert (2 * h + 1) % 2 == 1 && (2 * w + 1) % 2 == 1;
    assert (2 * h + 2) % 2 == 0 && (2 * w + 2) % 2 == 0;
  }

  /** Entries with an even row and an even column are never written: they stay walls. */
  lemma RasterCorners(g: Grid, i: int, j: int)
    requires i % 2 == 0 && j % 2 == 0
    ensures RasterAt(g, i, j) == -1.0
  {
  }

  /** The first row and the first column of the numeric grid are walls for any proto-maze:
      no cell's centre, east or south connector lies there. */
  lemma RasterOrigin(g: Grid)
    ensures forall j :: RasterAt(g, 0, j) == -1.0
    ensures forall i :: RasterAt(g, i, 0) == -1.0
  {
  }

  /** When no flag leads off the proto-maze, the last row and the last column of the
      numeric grid are walls too, so it is walled on all four sides. */
  lemma RasterBorder(g: Grid, width: int, height: int)
    requires Shaped(g, width, height) && FlagsInBounds(g, width, height)
    ensures forall j :: RasterAt(g, 2 * height, j) == -1.0
    ensures forall i :: RasterAt(g, i, 2 * width) == -1.0
  {
    forall j ensures RasterAt(g, 2 * height, j) == -1.0 {
      var h, w := (2 * height - 1) / 2, (j - 1) / 2;
      if 0 <= h < |g| && 0 <= w < |g[h]| && j % 2 == 1 {
        assert h == height - 1;
        assert InGrid(width, height, (w, h)) && !InGrid(width, height, Step((w, h), S));
        assert !Flag(At(g, (w, h)), S);
      }
    }
    forall i ensures RasterAt(g, i, 2 * width) == -1.0 {
      var h, w := (i - 1) / 2, (2 * width - 1) / 2;
      if 0 <= h < |g| && 0 <= w < |g[h]| && i % 2 == 1 {
        assert w == width - 1;
        assert InGrid(width, height, (w, h)) && !InGrid(width, height, Step((w, h), E));
        assert !Flag(At(g, (w, h)), E);
      }
    }
  }

  // ------------------------------------------------------------------
  // Connectivity of the numeric grid
  // ------------------------------------------------------------------

  /** The numeric-grid position (x, y) = (column, row) of the centre of cell c. */
  function Centre(c: Coord): Coord {
    (2 * c.0 + 1, 2 * c.1 + 1)
  }

  /** The numeric-grid position between the centres of two neighbouring cells. */
  function Between(a: Coord, b: Coord): Coord {
    (a.0 + b.0 + 1, a.1 + b.1 + 1)
  }

  predicate Hallway(g: Grid, p: Coord) {
    RasterAt(g, p.1, p.0) == 0.0
  }

  /** A walk through hallways of the numeric grid, one orthogonal step at a time. */
  ghost predicate HallwayWalk(g: Grid, walk: seq<Coord>) {
    |walk| >= 1 &&
    (forall k :: 0 <= k < |walk| ==> Hallway(g, walk[k])) &&
    (forall k :: 0 <= k < |walk| - 1 ==> Adjacent(walk[k], walk[k + 1]))
  }

  /** The walk through the numeric grid that follows a walk through the proto-maze:
      centre, connector, centre, connector, ... */
  function Widen(path: seq<Coord>): (walk: seq<Coord>)
    requires |path| >= 1
    ensures |walk| == 2 * |path| - 1
    ensures walk[0] == Centre(path[0]) && walk[|walk| - 1] == Centre(path[|path| - 1])
  {
    if |path| == 1 then [Centre(path[0])]
    else Widen(path[..|path| - 1]) + [Between(path[|path| - 2], path[|path| - 1]), Centre(path[|path| - 1])]
  }

  lemma BetweenAdjacent(a: Coord, d: Direction)
    ensures Adjacent(Centre(a), Between(a, Step(a, d))) && Adjacent(Between(a, Step(a, d)), Centre(Step(a, d)))
  {
  }

  /** The centre of a cell is a hallway; the connector east of it is one exactly when the
      cell has its E flag, and the connector south of it when it has its S flag. */
  lemma HallwayCell(g: Grid, c: Coord)
    requires 0 <= c.1 < |g| && 0 <= c.0 < |g[c.1]|
    ensures Hallway(g, Centre(c))
    ensures Hallway(g, Between(c, Step(c, E))) <==> g[c.1][c.0].east
    ensures Hallway(g, Between(c, Step(c, S))) <==> g[c.1][c.0].south
  {
    RasterCell(g, c.1, c.0);
    assert Centre(c) == (2 * c.0 + 1, 2 * c.1 + 1);
    assert Between(c, Step(c, E)) == (2 * c.0 + 2, 2 * c.1 + 1);
    assert Between(c, Step(c, S)) == (2 * c.0 + 1, 2 * c.1 + 2);
  }

  /** A knocked-down wall becomes a hallway entry between the two centres. */
  lemma LinkHallway(g: Grid, width: int, height: int, a: Coord, d: Direction)
    requires Shaped(g, width, height) && InGrid(width, height, a) && InGrid(width, height, Step(a, d))
    requires Flag(At(g, a), d) && Flag(At(g, Step(a, d)), Opposite(d))
    ensures Hallway(g, Centre(a)) && Hallway(g, Between(a, Step(a, d))) && Hallway(g, Centre(Step(a, d)))
    ensures Adjacent(Centre(a), Between(a, Step(a, d))) && Adjacent(Between(a, Step(a, d)), Centre(Step(a, d)))
  {
    var b := Step(a, d);
    BetweenAdjacent(a, d);
    StepBack(a, d);
    HallwayCell(g, a);
    HallwayCell(g, b);
  }

  /** Stepping back from a neighbour returns to the cell, the opposite of the opposite is
      the direction itself, and the connector between two cells does not depend on their order. */
  lemma StepBack(a: Coord, d: Direction)
    ensures Step(Step(a, d), Opposite(d)) == a && Opposite(Opposite(d)) == d
    ensures Between(a, Step(a, d)) == Between(Step(a, d), a)
  {
  }

  /** Two linked cells have their centres joined through the connector between them. */
  lemma LinkedHallway(g: Grid, width: int, height: int, a: Coord, b: Coord)
    requires Shaped(g, width, height) && FlagsInBounds(g, width, height) && Mirrored(g, width, height)
    requires Linked(g, width, height, a, b)
    ensures Hallway(g, Between(a, b)) && Hallway(g, Centre(b))
    ensures Adjacent(Centre(a), Between(a, b)) && Adjacent(Between(a, b), Centre(b))
  {
    var d :| Flag(At(g, a), d) && Step(a, d) == b;
    assert InGrid(width, height, b);
    assert Flag(At(g, b), Opposite(d));
    LinkHallway(g, width, height, a, d);
  }

  lemma FlagPathPrefix(g: Grid, width: int, height: int, path: seq<Coord>, n: int)
    requires Shaped(g, width, height) && FlagPath(g, width, height, path) && 1 <= n <= |path|
    ensures FlagPath(g, width, height, path[..n])
  {
    var init := path[..n];
    forall i | 0 <= i < |init| - 1 ensures Linked(g, width, height, init[i], init[i + 1]) {
      assert init[i] == path[i] && init[i + 1] == path[i + 1];
    }
  }

  lemma {:induction false} WidenWalk(g: Grid, width: int, height: int, path: seq<Coord>)
    requires Shaped(g, width, height) && FlagsInBounds(g, width, height) && Mirrored(g, width, height)
    requires FlagPath(g, width, height, path) && InGrid(width, height, (0, 0))
    ensures HallwayWalk(g, Widen(path))
  {
    if |path| == 1 {
      RasterCell(g, 0, 0);
      assert Hallway(g, Centre((0, 0)));
    } else {
      var n := |path|;
      var a, b := path[n - 2], path[n - 1];
      FlagPathPrefix(g, width, height, path, n - 1);
      WidenWalk(g, width, height, path[..n - 1]);
      assert Linked(g, width, height, a, b);
      LinkedHallway(g, width, height, a, b);
      WidenStep(path);
      WalkExtend(g, Widen(path[..n - 1]), Between(a, b), Centre(b));
    }
  }

  /** Widen of a longer walk is Widen of the walk without its last cell, extended by a
      connector and the last centre. */
  lemma WidenStep(path: seq<Coord>)
    requires |path| >= 2
    ensures var init := Widen(path[..|path| - 1]);
      Widen(path) == init + [Between(path[|path| - 2], path[|path| - 1]), Centre(path[|path| - 1])] &&
      init[|init| - 1] == Centre(path[|path| - 2])
  {
    assert path[..|path| - 1][|path| - 2] == path[|path| - 2];
  }

  lemma WalkExtend(g: Grid, walk: seq<Coord>, x: Coord, y: Coord)
    requires HallwayWalk(g, walk) && Hallway(g, x) && Hallway(g, y)
    requires Adjacent(walk[|walk| - 1], x) && Adjacent(x, y)
    ensures HallwayWalk(g, walk + [x, y])
  {
    var w := walk + [x, y];
    forall k | 0 <= k < |w| ensures Hallway(g, w[k]) {
      if k < |walk| { assert w[k] == walk[k]; }
    }
    forall k | 0 <= k < |w| - 1 ensures Adjacent(w[k], w[k + 1]) {
      if k < |walk| - 1 { assert w[k] == walk[k] && w[k + 1] == walk[k + 1]; }
    }
  }

  /** Every cell of a proto-maze whose cells are all reachable from (0,0) has its centre
      joined to the centre (1,1) of the starting cell by hallways of the numeric grid. */
  lemma RasterConnected(g: Grid, width: int, height: int, c: Coord)
    requires width >= 1 && height >= 1
    requires Shaped(g, width, height) && FlagsInBounds(g, width, height) && Mirrored(g, width, height)
    requires Reachable(g, width, height, c)
    ensures exists walk :: HallwayWalk(g, walk) && walk[0] == Centre((0, 0)) && walk[|walk| - 1] == Centre(c)
  {
    var path :| FlagPath(g, width, height, path) && path[|path| - 1] == c;
    var walk := Widen(path);
    assert HallwayWalk(g, walk) by {
      WidenWalk(g, width, height, path);
    }
    assert walk[0] == Centre(path[0]) && walk[|walk| - 1] == Centre(c);
    assert path[0] == (0, 0);
  }
}
