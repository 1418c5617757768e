/**
  The ant colony engine (ACO.py): a numeric maze grid whose walls are -1 and
  whose hallways carry a pheromone level, ants that walk from `start` to
  `goal` by a depth-first search with backtracking, and the evaporate-then-
  deposit pheromone update.

  Coordinates are (x, y); the grid is indexed maze[y, x], with y the row.

  The random module is replaced by an oracle: for ant `a` and step `n`,
  draws(a, n) gives the index random.choices picks from the neighbour list,
  whether random.uniform(0, 1) falls below alpha, and the index
  random.choice then picks. Indices are taken modulo the length of the
  neighbour list, so every draw is a valid one.
 */
module Aco {
  import opened Types

  /** The moves __find_next_step tries, in its order (ACO.py:94). */
  const Moves: seq<Coord> := [(0, -1), (0, 1), (1, 0), (-1, 0)]

  /** The random choices of one step of one ant. */
  datatype StepDraw = StepDraw(weighted: nat, explore: bool, uniform: nat)

  /** How the walk of one ant ends: at the goal with its path, by popping the
      empty path (the IndexError of ACO.py:72-74), or when the fuel that makes
      the unbounded loop total runs out. */
  datatype Walk = Arrived(path: Path) | PopFromEmpty | OutOfFuel

  /** The result of __find_paths: every ant's path, or the first ant's failure. */
  datatype Batch = Found(paths: seq<Path>) | Failed(reason: Walk)

  /** The state of one ant between two steps of its walk (ACO.py:59-62). */
  datatype Ant = Ant(lastPos: Coord, pos: Coord, path: Path, junctions: seq<Coord>)

  /** The wall/hallway encoding the walk relies on: a wall is -1, a hallway a non-negative level. */
  predicate Encoded(v: real) {
    v == -1.0 || v >= 0.0
  }

  function Last(p: Path): Coord
    requires |p| >= 1
  {
    p[|p| - 1]
  }

  /** The cell that move k leads to from pos. */
  function Neighbour(pos: Coord, k: int): Coord
    requires 0 <= k < |Moves|
  {
    (pos.0 + Moves[k].0, pos.1 + Moves[k].1)
  }

  /** The neighbour chosen from a non-empty list: the weighted pick, replaced by the
      uniform pick when the alpha draw succeeds (ACO.py:125-127). */
  function Pick(cs: seq<Coord>, draw: StepDraw): (c: Coord)
    requires |cs| >= 1
    ensures c in cs
  {
    cs[(if draw.explore then draw.uniform else draw.weighted) % |cs|]
  }

  /** How often c occurs in p. */
  function Count(p: Path, c: Coord): nat {
    if p == [] then 0 else Count(p[..|p| - 1], c) + (if Last(p) == c then 1 else 0)
  }

  /** The sum of f over the first n cells of row y. */
  function SumRow(f: Coord -> real, n: int, y: int): real
    decreases n
  {
    if n <= 0 then 0.0 else SumRow(f, n - 1, y) + f((n - 1, y))
  }

  /** The sum of f over a height x width grid. */
  function SumGrid(f: Coord -> real, width: int, height: int): real
    decreases height
  {
    if height <= 0 then 0.0 else SumGrid(f, width, height - 1) + SumRow(f, width, height - 1)
  }

  class ACO {
    const ants: int
    const pheromones: real
    const evaporation: real
    const initialisation: real
    const alpha: real
    const start: Coord
    const goal: Coord
    const height: int
    const width: int
    /** The grid is the array the caller passed in, updated in place from then on. */
    const maze: array2<real>

    /** height and width are the shape of the grid (ACO.py:28). */
    predicate Valid() {
      height == maze.Length0 && width == maze.Length1
    }

    predicate InBounds(c: Coord) {
      0 <= c.0 < width && 0 <= c.1 < height
    }

    /** The value initialise_maze leaves in a cell that held v. */
    function Seeded(v: real): real {
      if v == 0.0 then initialisation else v
    }

    /** ACO.__init__ (ACO.py:6-31): keep the parameters and the grid, then seed the grid. */
    constructor (m: array2<real>, start: Coord, goal: Coord, ants: int, pheromones: real,
                 evaporation: real, initialisation: real, alpha: real)
      modifies m
      ensures Valid() && maze == m
      ensures this.start == start && this.goal == goal && this.ants == ants
      ensures this.pheromones == pheromones && this.evaporation == evaporation
      ensures this.initialisation == initialisation && this.alpha == alpha
      ensures forall i, j :: 0 <= i < m.Length0 && 0 <= j < m.Length1 ==> m[i, j] == Seeded(old(m[i, j]))
    {
      this.ants := ants;
      this.pheromones := pheromones;
      this.evaporation := evaporation;
      this.initialisation := initialisation;
      this.alpha := alpha;
      this.start := start;
      this.goal := goal;
      height, width := m.Length0, m.Length1;
      maze := m;
      new;
      var seeded := InitialiseMaze(m);
    }

    /** initialise_maze (ACO.py:33-38): every 0 becomes the initial pheromone level;
        every other value, the walls included, stays, in place. With a non-negative
        initial level the wall/hallway encoding and the set of walls survive. */
    method InitialiseMaze(m: array2<real>) returns (r: array2<real>)
      modifies m
      ensures r == m
      ensures forall i, j :: 0 <= i < m.Length0 && 0 <= j < m.Length1 ==> m[i, j] == Seeded(old(m[i, j]))
      ensures initialisation >= 0.0 ==> forall i, j :: 0 <= i < m.Length0 && 0 <= j < m.Length1 ==>
                (Encoded(old(m[i, j])) ==> Encoded(m[i, j])) && (m[i, j] == -1.0 <==> old(m[i, j]) == -1.0)
    {
      for i := 0 to m.Length0
        invariant forall i', j :: 0 <= i' < m.Length0 && 0 <= j < m.Length1 ==>
                    m[i', j] == if i' < i then Seeded(old(m[i', j])) else old(m[i', j])
      {
        for j := 0 to m.Length1
          invariant forall i', j' :: 0 <= i' < m.Length0 && 0 <= j' < m.Length1 ==>
                      m[i', j'] == if i' < i || (i' == i && j' < j) then Seeded(old(m[i', j'])) else old(m[i', j'])
        {
          if m[i, j] == 0.0 {
            m[i, j] := initialisation;
          }
        }
      }
      r := m;
    }

    // ----------------------------------------------------------------
    // Choosing the next step
    // ----------------------------------------------------------------

    /** c may be stepped on from pos after last: a 4-neighbour of pos inside the grid
        that is not a wall and not the cell the ant just came from (ACO.py:97-106). */
    ghost predicate Qualifies(lastPos: Coord, pos: Coord, c: Coord)
      requires Valid()
      reads maze
    {
      Adjacent(pos, c) && InBounds(c) && maze[c.1, c.0] != -1.0 && c != lastPos
    }

    /** The qualifying neighbours reached by the first k moves, in the order of Moves. */
    ghost function CandidatesBefore(lastPos: Coord, pos: Coord, k: nat): seq<Coord>
      requires Valid() && k <= |Moves|
      reads maze
    {
      if k == 0 then []
      else
        var n := Neighbour(pos, k - 1);
        CandidatesBefore(lastPos, pos, k - 1) + (if Qualifies(lastPos, pos, n) then [n] else [])
    }

    /** The neighbour list __find_next_step builds when the goal short-circuit does not fire:
        exactly the qualifying cells. */
    ghost function Candidates(lastPos: Coord, pos: Coord): (cs: seq<Coord>)
      requires Valid()
      reads maze
      ensures forall c :: c in cs <==> Qualifies(lastPos, pos, c)
      ensures |cs| <= |Moves|
    {
      CandidatesMembers(lastPos, pos, |Moves|);
      CandidatesBefore(lastPos, pos, |Moves|)
    }

    lemma {:induction false} CandidatesMembers(lastPos: Coord, pos: Coord, k: nat)
      requires Valid() && k <= |Moves|
      ensures |CandidatesBefore(lastPos, pos, k)| <= k
      ensures forall c :: c in CandidatesBefore(lastPos, pos, k) <==>
                (Qualifies(lastPos, pos, c) && exists k' :: 0 <= k' < k && c == Neighbour(pos, k'))
      ensures k == |Moves| ==> forall c :: c in CandidatesBefore(lastPos, pos, k) <==> Qualifies(lastPos, pos, c)
    {
      if k > 0 {
        CandidatesMembers(lastPos, pos, k - 1);
      }
      if k == |Moves| {
        forall c | Qualifies(lastPos, pos, c) ensures exists k' :: 0 <= k' < |Moves| && c == Neighbour(pos, k') {
          AdjacentIsMove(pos, c);
        }
      }
    }

    /** Every 4-neighbour is reached by one of the four moves. */
    lemma AdjacentIsMove(pos: Coord, c: Coord)
      requires Adjacent(pos, c)
      ensures exists k :: 0 <= k < |Moves| && c == Neighbour(pos, k)
    {
      if c.0 == pos.0 {
        if c.1 == pos.1 - 1 { assert c == Neighbour(pos, 0); } else { assert c == Neighbour(pos, 1); }
      } else {
        if c.0 == pos.0 + 1 { assert c == Neighbour(pos, 2); } else { assert c == Neighbour(pos, 3); }
      }
    }

    /** The goal as the swapped pair (y, x): the cell the short-circuit at ACO.py:109 looks for. */
    function SwappedGoal(): Coord {
      (goal.1, goal.0)
    }

    /** What __find_next_step returns: the swapped goal when it qualifies, pos itself
        when nothing qualifies, otherwise the drawn candidate, flagged as a junction
        exactly when more than one cell qualified. */
    ghost function StepChoice(lastPos: Coord, pos: Coord, draw: StepDraw): (r: (Coord, bool))
      requires Valid()
      reads maze
      ensures r.0 == pos || Qualifies(lastPos, pos, r.0)
      ensures r.0 == pos <==> Candidates(lastPos, pos) == []
      ensures r.1 <==> SwappedGoal() !in Candidates(lastPos, pos) && |Candidates(lastPos, pos)| > 1
    {
      var cs := Candidates(lastPos, pos);
      if SwappedGoal() in cs then (SwappedGoal(), false)
      else if cs == [] then (pos, false)
      else (Pick(cs, draw), |cs| > 1)
    }

    /** __find_next_step (ACO.py:87-128). The weights list only feeds random.choices,
        which the draw replaces. */
    method FindNextStep(lastPos: Coord, pos: Coord, draw: StepDraw) returns (next: Coord, wasJunction: bool)
      requires Valid()
      ensures (next, wasJunction) == StepChoice(lastPos, pos, draw)
    {
      var x, y := pos.0, pos.1;
      var neighbours: seq<Coord> := [];
      var k := 0;
      while k < |Moves|
        invariant 0 <= k <= |Moves|
        invariant neighbours == CandidatesBefore(lastPos, pos, k)
        invariant SwappedGoal() !in neighbours
      {
        var (dx, dy) := Moves[k];
        var nx, ny := x + dx, y + dy;
        assert (nx, ny) == Neighbour(pos, k) && Adjacent(pos, (nx, ny));
        if 0 <= nx < width && 0 <= ny < height && maze[ny, nx] != -1.0 && (nx, ny) != lastPos {
          assert Qualifies(lastPos, pos, (nx, ny));
          if (ny, nx) == goal {
            assert (nx, ny) in Candidates(lastPos, pos);
            return (nx, ny), false;
          }
          neighbours := neighbours + [(nx, ny)];
        } else {
          assert !Qualifies(lastPos, pos, (nx, ny));
        }
        k := k + 1;
      }
      assert neighbours == Candidates(lastPos, pos);

      if |neighbours| == 0 {
        return pos, false;
      }
      wasJunction := |neighbours| > 1;
      next := neighbours[draw.weighted % |neighbours|];
      if draw.explore {
        next := neighbours[draw.uniform % |neighbours|];
      }
      assert next == Pick(neighbours, draw);
    }
  
    // ----------------------------------------------------------------
    // The walk of one ant
    // ----------------------------------------------------------------

    /** c is inside the grid and not a wall. */
    ghost predicate Open(c: Coord)
      requires Valid()
      reads maze
    {
      InBounds(c) && maze[c.1, c.0] != -1.0
    }

    /** A walk from start: consecutive cells are 4-neighbours, and every cell after
        the first is an open cell of the grid. */
    ghost predicate IsWalk(p: Path)
      requires Valid()
      reads maze
    {
      |p| >= 1 && p[0] == start &&
      (forall k :: 0 <= k < |p| - 1 ==> Adjacent(p[k], p[k + 1])) &&
      (forall k :: 1 <= k < |p| ==> Open(p[k]))
    }

    /** The invariant of the loop of ACO.py:65-80: the path is a walk from start that
        ends where the ant stands. */
    ghost predicate AntInv(a: Ant)
      requires Valid()
      reads maze
    {
      IsWalk(a.path) && Last(a.path) == a.pos
    }

    lemma WalkPrefix(p: Path, n: int)
      requires Valid() && IsWalk(p) && 1 <= n <= |p|
      ensures IsWalk(p[..n])
    {
      var q := p[..n];
      forall k | 0 <= k < |q| - 1 ensures Adjacent(q[k], q[k + 1]) {
        assert q[k] == p[k] && q[k + 1] == p[k + 1];
      }
      forall k | 1 <= k < |q| ensures Open(q[k]) {
        assert q[k] == p[k];
      }
    }

    /** Backtracking keeps a walk a walk, and backtracking to the last cell keeps the path. */
    lemma BacktrackFacts(p: Path, t: Coord, q: Path)
      requires Valid() && Backtracked(p, t, q)
      ensures IsWalk(p) ==> IsWalk(q)
      ensures t == Last(p) ==> q == p
    {
      if IsWalk(p) {
        WalkPrefix(p, |q|);
      }
      assert |q| < |p| ==> p[|p| - 1] in p[|q|..];
    }

    lemma WalkExtend(p: Path, c: Coord)
      requires Valid() && IsWalk(p) && Adjacent(Last(p), c) && Open(c)
      ensures IsWalk(p + [c])
    {
      var q := p + [c];
      forall k | 0 <= k < |q| - 1 ensures Adjacent(q[k], q[k + 1]) {
        if k < |p| - 1 { assert q[k] == p[k] && q[k + 1] == p[k + 1]; }
      }
      forall k | 1 <= k < |q| ensures Open(q[k]) {
        if k < |p| { assert q[k] == p[k]; }
      }
    }

    /** What one pass of the loop of ACO.py:65-80 does to the ant: choose the next step;
        on a dead end or a junction already recorded, backtrack to it; append it to the
        path; record pos as a junction when it was one; move on. None is the IndexError
        of popping the whole path, which happens exactly when the backtrack target is
        not on the path. */
    ghost function AdvanceF(a: Ant, draw: StepDraw): (r: Option<Ant>)
      requires Valid()
      reads maze
      ensures var (next, wasJunction) := StepChoice(a.lastPos, a.pos, draw);
        var back := next == a.pos || next in a.junctions;
        (r.None? <==> back && next !in a.path) &&
        (r.Some? ==>
          r.value.lastPos == a.pos && r.value.pos == next &&
          r.value.junctions == a.junctions + (if wasJunction then [a.pos] else []) &&
          (back ==> Backtracked(a.path, next, r.value.path)) &&
          (!back ==> r.value.path == a.path + [next]))
    {
      var (next, wasJunction) := StepChoice(a.lastPos, a.pos, draw);
      var back := next == a.pos || next in a.junctions;
      if back && next !in a.path then None
      else
        var path := if back then PopTo(a.path, next) else a.path + [next];
        Some(Ant(a.pos, next, path, a.junctions + (if wasJunction then [a.pos] else [])))
    }

    /** A pass keeps the path a walk that ends where the ant stands, and a dead end
        (nothing qualifies) leaves the path as it was. */
    lemma AdvanceKeeps(a: Ant, draw: StepDraw)
      requires Valid()
      ensures AntInv(a) && AdvanceF(a, draw).Some? ==> AntInv(AdvanceF(a, draw).value)
      ensures AntInv(a) && StepChoice(a.lastPos, a.pos, draw).0 == a.pos ==>
                AdvanceF(a, draw).Some? && AdvanceF(a, draw).value.path == a.path
    {
      var (next, wasJunction) := StepChoice(a.lastPos, a.pos, draw);
      var back := next == a.pos || next in a.junctions;
      if AntInv(a) && AdvanceF(a, draw).Some? {
        var q := AdvanceF(a, draw).value.path;
        if back {
          BacktrackFacts(a.path, next, q);
        } else {
          WalkExtend(a.path, next);
        }
      }
      if AntInv(a) && next == a.pos {
        assert a.path[|a.path| - 1] in a.path;
        BacktrackFacts(a.path, next, AdvanceF(a, draw).value.path);
      }
    }

    /** One pass of the loop of ACO.py:65-80, as AdvanceF says. */
    method Advance(a: Ant, draw: StepDraw) returns (r: Option<Ant>)
      requires Valid()
      ensures r == AdvanceF(a, draw)
      ensures AntInv(a) && r.Some? ==> AntInv(r.value)
      ensures AntInv(a) && StepChoice(a.lastPos, a.pos, draw).0 == a.pos ==> r.Some? && r.value.path == a.path
    {
      var nextPos, wasJunction := FindNextStep(a.lastPos, a.pos, draw);
      var path := a.path;
      if nextPos == a.pos || nextPos in a.junctions {
        var goBackUntil := nextPos;
        var found, rest := PopUntil(path, goBackUntil);
        if !found {
          return None;
        }
        path := rest;
      }
      path := path + [nextPos];
      r := Some(Ant(a.pos, nextPos, path, a.junctions + (if wasJunction then [a.pos] else [])));
      AdvanceKeeps(a, draw);
    }

    /** The walk of ant number `ant` from the ant state a after `step` passes: it arrives
        when the ant stands on the goal, and runs out of fuel after `fuel` passes. */
    ghost function Run(a: Ant, ant: int, step: nat, fuel: nat, draws: (int, nat) -> StepDraw): Walk
      requires Valid()
      reads maze
      decreases fuel - step, 1
    {
      if a.pos == goal then Arrived(a.path)
      else if step >= fuel then OutOfFuel
      else Pass(a, ant, step, fuel, draws)
    }

    /** The rest of the walk from one more pass: it fails when the pass pops the whole path. */
    ghost function Pass(a: Ant, ant: int, step: nat, fuel: nat, draws: (int, nat) -> StepDraw): Walk
      requires Valid() && step < fuel
      reads maze
      decreases fuel - step, 0
    {
      match AdvanceF(a, draws(ant, step))
      case None => PopFromEmpty
      case Some(a') => Run(a', ant, step + 1, fuel, draws)
    }

    /** The ant state every walk starts from (ACO.py:59-62). */
    function Fresh(): Ant {
      Ant(start, start, [start], [start])
    }

    /** The walk of ant number `ant`. */
    ghost function WalkOf(ant: int, fuel: nat, draws: (int, nat) -> StepDraw): Walk
      requires Valid()
      reads maze
    {
      Run(Fresh(), ant, 0, fuel, draws)
    }

    /** A path a walk arrives with is a walk from start that ends at the goal. */
    lemma {:induction false} RunArrives(a: Ant, ant: int, step: nat, fuel: nat, draws: (int, nat) -> StepDraw)
      requires Valid() && AntInv(a)
      ensures Run(a, ant, step, fuel, draws).Arrived? ==>
                IsWalk(Run(a, ant, step, fuel, draws).path) && Last(Run(a, ant, step, fuel, draws).path) == goal
      decreases fuel - step
    {
      if a.pos != goal && step < fuel {
        AdvanceKeeps(a, draws(ant, step));
        var r := AdvanceF(a, draws(ant, step));
        assert Run(a, ant, step, fuel, draws) == Pass(a, ant, step, fuel, draws);
        if r.Some? {
          RunArrives(r.value, ant, step + 1, fuel, draws);
        }
      }
    }

    /** The fuel only bounds the loop: a walk that ends without running out of fuel ends
        the same way with any larger fuel. */
    lemma {:induction false} RunMoreFuel(a: Ant, ant: int, step: nat, fuel: nat, fuel': nat, draws: (int, nat) -> StepDraw)
      requires Valid() && fuel <= fuel'
      requires Run(a, ant, step, fuel, draws) != OutOfFuel
      ensures Run(a, ant, step, fuel', draws) == Run(a, ant, step, fuel, draws)
      decreases fuel - step
    {
      if a.pos != goal && step < fuel {
        var r := AdvanceF(a, draws(ant, step));
        assert Run(a, ant, step, fuel, draws) == Pass(a, ant, step, fuel, draws);
        assert Run(a, ant, step, fuel', draws) == Pass(a, ant, step, fuel', draws);
        if r.Some? {
          RunMoreFuel(r.value, ant, step + 1, fuel, fuel', draws);
        }
      }
    }

    /** The walk of one ant (ACO.py:59-82), numbered `ant` for the draws, taking at most
        `fuel` passes. A path it arrives with is a walk from start whose last cell is the goal. */
    method WalkAnt(ant: int, fuel: nat, draws: (int, nat) -> StepDraw) returns (w: Walk)
      requires Valid()
      ensures w == WalkOf(ant, fuel, draws)
      ensures w.Arrived? ==> IsWalk(w.path) && Last(w.path) == goal
    {
      var a := Fresh();
      var step: nat := 0;
      RunArrives(a, ant, 0, fuel, draws);
      while a.pos != goal
        invariant step <= fuel
        invariant Run(a, ant, step, fuel, draws) == WalkOf(ant, fuel, draws)
        decreases fuel - step
      {
        if step == fuel {
          return OutOfFuel;
        }
        var r := Advance(a, draws(ant, step));
        assert Run(a, ant, step, fuel, draws) == Pass(a, ant, step, fuel, draws);
        if r.None? {
          return PopFromEmpty;
        }
        a := r.value;
        step := step + 1;
      }
      w := Arrived(a.path);
    }

    /** The walks of the first n ants, in order. */
    ghost function Walks(n: int, fuel: nat, draws: (int, nat) -> StepDraw): (ws: seq<Walk>)
      requires Valid()
      reads maze
      ensures |ws| == (if n > 0 then n else 0)
      decreases n
    {
      if n <= 0 then [] else Walks(n - 1, fuel, draws) + [WalkOf(n - 1, fuel, draws)]
    }

    /** Entry k of the walks is the walk of ant k. */
    lemma {:induction false} WalksAt(n: int, k: int, fuel: nat, draws: (int, nat) -> StepDraw)
      requires Valid() && 0 <= k < n
      ensures Walks(n, fuel, draws)[k] == WalkOf(k, fuel, draws)
      decreases n
    {
      if k < n - 1 {
        WalksAt(n - 1, k, fuel, draws);
      }
    }

    /** Every path of a batch of walks that is found is a walk from start to the goal. */
    lemma WalksArrive(n: int, fuel: nat, draws: (int, nat) -> StepDraw)
      requires Valid()
      ensures var b := Collect(Walks(n, fuel, draws));
        b.Found? ==> |b.paths| == (if n > 0 then n else 0) && forall p | p in b.paths :: IsWalk(p) && Last(p) == goal
    {
      var ws := Walks(n, fuel, draws);
      CollectArrived(ws);
      var b := Collect(ws);
      if b.Found? {
        forall p | p in b.paths ensures IsWalk(p) && Last(p) == goal {
          var k :| 0 <= k < |b.paths| && b.paths[k] == p;
          WalksAt(n, k, fuel, draws);
          RunArrives(Fresh(), k, 0, fuel, draws);
        }
      }
    }

    /** __find_paths (ACO.py:52-85): one walk per ant, in order; the first failure aborts. */
    method FindPaths(fuel: nat, draws: (int, nat) -> StepDraw) returns (b: Batch)
      requires Valid()
      ensures b == Collect(Walks(ants, fuel, draws))
      ensures b.Found? ==> |b.paths| == (if ants > 0 then ants else 0)
      ensures b.Found? ==> forall p | p in b.paths :: IsWalk(p) && Last(p) == goal
      ensures b.Failed? ==> !b.reason.Arrived?
    {
      ghost var ws := Walks(ants, fuel, draws);
      var paths: seq<Path> := [];
      var ant := 0;
      while ant < ants
        invariant 0 <= ant <= |ws|
        invariant Collect(ws[..ant]) == Found(paths)
      {
        var w := WalkAnt(ant, fuel, draws);
        WalksAt(ants, ant, fuel, draws);
        CollectSnoc(ws[..ant], w);
        assert ws[..ant] + [w] == ws[..ant + 1];
        if !w.Arrived? {
          CollectAbort(ws, ant + 1);
          return Failed(w);
        }
        paths := paths + [w.path];
        ant := ant + 1;
      }
      assert ws[..ant] == ws;
      b := Found(paths);
      WalksArrive(ants, fuel, draws);
    }

    // ----------------------------------------------------------------
    // The pheromone update
    // ----------------------------------------------------------------

    /** The level evaporation leaves in a cell that held v: walls stay -1, every
        other value is scaled by 1 - evaporation (ACO.py:132-133). */
    function Evaporated(v: real): (r: real)
      ensures v == -1.0 ==> r == -1.0
      ensures 0.0 <= evaporation <= 1.0 && v >= 0.0 ==> 0.0 <= r <= v
    {
      if v != -1.0 then (1.0 - evaporation) * v else v
    }

    /** pheromone_per_cell of one path (ACO.py:137). Every walk holds at least
        `start`, so the empty case, which would divide by zero, never arises. */
    function Share(p: Path): real {
      if p == [] then 0.0 else pheromones / (|p| as real)
    }

    /** What deposition adds at c: each path leaves its share once per occurrence of c (ACO.py:136-139). */
    function Deposit(paths: seq<Path>, c: Coord): real {
      if paths == [] then 0.0
      else
        var p := paths[|paths| - 1];
        Deposit(paths[..|paths| - 1], c) + (Count(p, c) as real) * Share(p)
    }

    /** The next path adds its share once per occurrence at every cell. */
    lemma DepositSnoc(paths: seq<Path>, k: nat)
      requires k < |paths|
      ensures forall c :: Deposit(paths[..k + 1], c) == Deposit(paths[..k], c) + (Count(paths[k], c) as real) * Share(paths[k])
    {
      assert paths[..k + 1][..k] == paths[..k];
    }

    /** Deposit over the whole grid, as one function of the cell. */
    function DepositGrid(paths: seq<Path>): Coord -> real {
      c => Deposit(paths, c)
    }

    /** Each path deposits exactly `pheromones` in total over the grid. */
    lemma {:induction false} DepositTotal(paths: seq<Path>)
      requires Valid()
      requires forall p | p in paths :: |p| >= 1 && forall c | c in p :: InBounds(c)
      ensures SumGrid(DepositGrid(paths), width, height) == (|paths| as real) * pheromones
    {
      if paths != [] {
        assert forall p | p in paths[..|paths| - 1] :: |p| >= 1 && forall c | c in p :: InBounds(c) by {
          assert forall q | q in paths[..|paths| - 1] :: q in paths;
        }
        DepositTotal(paths[..|paths| - 1]);
        assert paths[|paths| - 1] in paths;
        DepositTotalStep(paths);
      } else {
        SumGridZero(DepositGrid([]), width, height);
      }
    }

    /** One more path adds exactly `pheromones` to the grid total. */
    lemma DepositTotalStep(paths: seq<Path>)
      requires Valid() && |paths| >= 1
      requires var p := paths[|paths| - 1]; |p| >= 1 && forall c | c in p :: InBounds(c)
      requires SumGrid(DepositGrid(paths[..|paths| - 1]), width, height) == ((|paths| - 1) as real) * pheromones
      ensures SumGrid(DepositGrid(paths), width, height) == (|paths| as real) * pheromones
    {
      var p := paths[|paths| - 1];
      var after := DepositGrid(paths);
      var before := DepositGrid(paths[..|paths| - 1]);
      var counts := CountGrid(p);
      CountTotal(p, width, height);
      SumGridAffine(before, counts, after, Share(p), width, height);
      TotalStep(SumGrid(after, width, height), SumGrid(before, width, height),
                SumGrid(counts, width, height), |p|, |paths| - 1, pheromones);
    }

    /** Deposition never lowers a level when pheromones is non-negative. */
    lemma {:induction false} DepositNonNegative(paths: seq<Path>, c: Coord)
      requires pheromones >= 0.0
      ensures Deposit(paths, c) >= 0.0
    {
      if paths != [] {
        DepositNonNegative(paths[..|paths| - 1], c);
        var p := paths[|paths| - 1];
        assert Share(p) >= 0.0;
      }
    }

    /** Only cells on some path receive pheromone. */
    lemma {:induction false} DepositOffPaths(paths: seq<Path>, c: Coord)
      requires forall p | p in paths :: c !in p
      ensures Deposit(paths, c) == 0.0
    {
      if paths != [] {
        var init := paths[..|paths| - 1];
        assert forall q | q in init :: q in paths;
        DepositOffPaths(init, c);
        CountAbsent(paths[|paths| - 1], c);
      }
    }

    /** __update_pheromones (ACO.py:130-139): evaporate every cell that is not a wall,
        then add each path's share once per occurrence of every cell it visits. */
    method UpdatePheromones(paths: seq<Path>)
      requires Valid()
      requires forall p | p in paths :: |p| >= 1 && forall c | c in p :: InBounds(c)
      modifies maze
      ensures forall i, j :: 0 <= i < height && 0 <= j < width ==>
                maze[i, j] == Evaporated(old(maze[i, j])) + Deposit(paths, (j, i))
    {
      Evaporate();
      assert paths[..0] == [];
      for k := 0 to |paths|
        invariant forall i, j :: 0 <= i < height && 0 <= j < width ==>
                    maze[i, j] == Evaporated(old(maze[i, j])) + Deposit(paths[..k], (j, i))
      {
        assert paths[k] in paths;
        label before:
        DepositPath(paths[k]);
        DepositSnoc(paths, k);
        forall i, j | 0 <= i < height && 0 <= j < width
          ensures maze[i, j] == Evaporated(old(maze[i, j])) + Deposit(paths[..k + 1], (j, i))
        {
          assert old@before(maze[i, j]) == Evaporated(old(maze[i, j])) + Deposit(paths[..k], (j, i));
        }
      }
      assert paths[..|paths|] == paths;
    }

    /** The masked evaporation of ACO.py:132-133, cell by cell. */
    method Evaporate()
      requires Valid()
      modifies maze
      ensures forall i, j :: 0 <= i < height && 0 <= j < width ==> maze[i, j] == Evaporated(old(maze[i, j]))
    {
      for i := 0 to height
        invariant forall i', j :: 0 <= i' < height && 0 <= j < width ==>
                    maze[i', j] == if i' < i then Evaporated(old(maze[i', j])) else old(maze[i', j])
      {
        for j := 0 to width
          invariant forall i', j' :: 0 <= i' < height && 0 <= j' < width ==>
                      maze[i', j'] == if i' < i || (i' == i && j' < j) then Evaporated(old(maze[i', j'])) else old(maze[i', j'])
        {
          if maze[i, j] != -1.0 {
            maze[i, j] := (1.0 - evaporation) * maze[i, j];
          }
        }
      }
    }

    /** The deposition of one path (ACO.py:137-139): its share, once per occurrence. */
    method DepositPath(path: Path)
      requires Valid() && |path| >= 1 && forall c | c in path :: InBounds(c)
      modifies maze
      ensures forall i, j :: 0 <= i < height && 0 <= j < width ==>
                maze[i, j] == old(maze[i, j]) + (Count(path, (j, i)) as real) * Share(path)
    {
      var pheromonePerCell := pheromones / (|path| as real);
      assert pheromonePerCell == Share(path);
      for m := 0 to |path|
        invariant forall i, j :: 0 <= i < height && 0 <= j < width ==>
                    maze[i, j] == old(maze[i, j]) + Deposited(path[..m], (j, i), pheromonePerCell)
      {
        var (x, y) := path[m];
        assert path[m] in path;
        DepositedSnoc(path, m, pheromonePerCell);
        maze[y, x] := maze[y, x] + pheromonePerCell;
      }
      assert path[..|path|] == path;
      DepositedCount(path, pheromonePerCell);
    }

    /** next_iteration (ACO.py:40-46): find the paths, then update the pheromones. When
        finding the paths fails the exception escapes before the update, and the grid is
        unchanged. An encoded grid with an open start, 0 <= evaporation <= 1 and
        non-negative pheromones stays encoded, with the same walls. */
    method NextIteration(fuel: nat, draws: (int, nat) -> StepDraw) returns (b: Batch)
      requires Valid() && InBounds(start)
      modifies maze
      ensures b == old(Collect(Walks(ants, fuel, draws)))
      ensures b.Found? ==> (forall p | p in b.paths :: |p| >= 1) && forall i, j :: 0 <= i < height && 0 <= j < width ==>
                maze[i, j] == Evaporated(old(maze[i, j])) + Deposit(b.paths, (j, i))
      ensures b.Failed? ==> forall i, j :: 0 <= i < height && 0 <= j < width ==> maze[i, j] == old(maze[i, j])
      ensures 0.0 <= evaporation <= 1.0 && pheromones >= 0.0 && old(maze[start.1, start.0]) != -1.0 &&
              (forall i, j :: 0 <= i < height && 0 <= j < width ==> Encoded(old(maze[i, j]))) ==>
              forall i, j :: 0 <= i < height && 0 <= j < width ==>
                Encoded(maze[i, j]) && (maze[i, j] == -1.0 <==> old(maze[i, j]) == -1.0)
    {
      b := FindPaths(fuel, draws);
      if b.Found? {
        forall p | p in b.paths ensures |p| >= 1 && forall c | c in p :: InBounds(c) && (old(maze[start.1, start.0]) != -1.0 ==> old(maze[c.1, c.0]) != -1.0) {
          WalkOpen(p);
        }
        UpdatePheromones(b.paths);
        if 0.0 <= evaporation <= 1.0 && pheromones >= 0.0 && old(maze[start.1, start.0]) != -1.0 {
          forall i, j | 0 <= i < height && 0 <= j < width && old(maze[i, j]) == -1.0
            ensures maze[i, j] == -1.0
          {
            DepositOffPaths(b.paths, (j, i));
          }
          forall i, j | 0 <= i < height && 0 <= j < width
            ensures old(maze[i, j]) >= 0.0 ==> maze[i, j] >= 0.0
          {
            DepositNonNegative(b.paths, (j, i));
          }
        }
      }
    }

    /** With start open, every cell of a walk is inside the grid and not a wall. */
    lemma WalkOpen(p: Path)
      requires Valid() && IsWalk(p) && InBounds(start)
      ensures forall c | c in p :: InBounds(c)
      ensures maze[start.1, start.0] != -1.0 ==> forall c | c in p :: maze[c.1, c.0] != -1.0
    {
      forall k | 0 <= k < |p| ensures InBounds(p[k]) && (maze[start.1, start.0] != -1.0 ==> maze[p[k].1, p[k].0] != -1.0) {
        if k > 0 {
          assert Open(p[k]);
        }
      }
    }
  }

  /** after is what backtracking to t leaves of before: the prefix of before that ends
      at the last occurrence of t. */
  ghost predicate Backtracked(before: Path, t: Coord, after: Path) {
    1 <= |after| <= |before| && after == before[..|after|] && Last(after) == t && t !in before[|after|..]
  }

  /** The batch __find_paths returns for the given walks, taken in order: the paths of
      all of them, or the first one that did not arrive. */
  function Collect(ws: seq<Walk>): Batch {
    if ws == [] then Found([])
    else
      match Collect(ws[..|ws| - 1])
      case Failed(w) => Failed(w)
      case Found(ps) => if ws[|ws| - 1].Arrived? then Found(ps + [ws[|ws| - 1].path]) else Failed(ws[|ws| - 1])
  }

  /** The batch holds every walk's path exactly when every walk arrives; otherwise it
      reports the first walk that did not. */
  lemma CollectFacts(ws: seq<Walk>)
    ensures Collect(ws).Found? <==> forall k :: 0 <= k < |ws| ==> ws[k].Arrived?
    ensures Collect(ws).Found? ==>
              |Collect(ws).paths| == |ws| && forall k :: 0 <= k < |ws| ==> Collect(ws).paths[k] == ws[k].path
    ensures Collect(ws).Failed? ==>
              exists k :: 0 <= k < |ws| && Collect(ws).reason == ws[k] && !ws[k].Arrived? &&
                forall j :: 0 <= j < k ==> ws[j].Arrived?
  {
    CollectArrived(ws);
    CollectFailure(ws);
  }

  /** A batch that is found holds, in order, the path of every walk, each of which arrived. */
  lemma {:induction false} CollectArrived(ws: seq<Walk>)
    ensures var b := Collect(ws);
      b.Found? ==> |b.paths| == |ws| && forall k :: 0 <= k < |ws| ==> ws[k].Arrived? && b.paths[k] == ws[k].path
  {
    if ws != [] {
      var init := ws[..|ws| - 1];
      CollectArrived(init);
      var b := Collect(init);
      if b.Found? && ws[|ws| - 1].Arrived? {
        var ps := b.paths + [ws[|ws| - 1].path];
        forall k | 0 <= k < |ws| ensures ws[k].Arrived? && ps[k] == ws[k].path {
          if k < |init| {
            assert ps[k] == b.paths[k] && ws[k] == init[k];
          }
        }
      }
    }
  }

  /** A batch that fails reports the first walk that did not arrive. */
  lemma {:induction false} CollectFailure(ws: seq<Walk>)
    ensures var b := Collect(ws);
      b.Failed? ==> exists k :: 0 <= k < |ws| && b.reason == ws[k] && !ws[k].Arrived? && forall j :: 0 <= j < k ==> ws[j].Arrived?
  {
    if ws != [] {
      var init := ws[..|ws| - 1];
      CollectFailure(init);
      if Collect(init).Found? {
        CollectArrived(init);
        assert forall j :: 0 <= j < |init| ==> ws[j] == init[j];
      } else {
        var k :| 0 <= k < |init| && Collect(init).reason == init[k] && !init[k].Arrived? &&
                 forall j :: 0 <= j < k ==> init[j].Arrived?;
        assert forall j :: 0 <= j <= k ==> ws[j] == init[j];
      }
    }
  }

  /** One more walk: a failed batch stays failed, and a found one takes the walk's
      path when it arrived and fails with it otherwise. */
  lemma CollectSnoc(ws: seq<Walk>, w: Walk)
    ensures Collect(ws).Failed? ==> Collect(ws + [w]) == Collect(ws)
    ensures Collect(ws).Found? && w.Arrived? ==> Collect(ws + [w]) == Found(Collect(ws).paths + [w.path])
    ensures Collect(ws).Found? && !w.Arrived? ==> Collect(ws + [w]) == Failed(w)
  {
    assert (ws + [w])[..|ws|] == ws;
  }

  /** Once a walk fails, the batch of any longer run of walks fails the same way. */
  lemma {:induction false} CollectAbort(ws: seq<Walk>, m: nat)
    requires m <= |ws| && Collect(ws[..m]).Failed?
    ensures Collect(ws) == Collect(ws[..m])
    decreases |ws| - m
  {
    if m < |ws| {
      CollectSnoc(ws[..m], ws[m]);
      assert ws[..m] + [ws[m]] == ws[..m + 1];
      CollectAbort(ws, m + 1);
    } else {
      assert ws[..m] == ws;
    }
  }

  /** The path backtracking to t leaves: the prefix that ends at the last occurrence
      of t, or the empty path when t does not occur. */
  function PopTo(p: Path, t: Coord): (r: Path)
    ensures t in p ==> Backtracked(p, t, r)
    ensures t !in p ==> r == []
    decreases |p|
  {
    if p == [] then []
    else if Last(p) == t then p
    else
      var init := p[..|p| - 1];
      assert p[..|p| - 1] == init && p == init + [Last(p)];
      PopTo(init, t)
  }

  /** Backtracking has one outcome: the prefix PopTo gives. */
  lemma {:induction false} BacktrackedUnique(p: Path, t: Coord, q: Path)
    requires Backtracked(p, t, q)
    ensures q == PopTo(p, t)
    decreases |p|
  {
    if Last(p) != t {
      var init := p[..|p| - 1];
      assert |q| < |p|;
      assert init[..|q|] == q && init[|q|..] == p[|q|..|p| - 1];
      BacktrackedUnique(init, t, q);
    }
  }

  /** The backtrack of ACO.py:71-74: pop the path until target has been popped.
      Target is found exactly when it occurs in the path, and what is left is the
      path before its last occurrence; otherwise the path runs empty and the next
      pop is the IndexError. */
  method PopUntil(path: Path, target: Coord) returns (found: bool, rest: Path)
    ensures found <==> target in path
    ensures found ==> |rest| < |path| && rest == path[..|rest|] && path[|rest|] == target
    ensures found ==> target !in path[|rest| + 1..]
    ensures found ==> rest + [target] == PopTo(path, target)
    ensures !found ==> rest == []
  {
    rest := path;
    if |rest| == 0 {
      return false, [];
    }
    var popped := Last(rest);
    rest := rest[..|rest| - 1];
    while popped != target
      invariant |rest| < |path| && rest == path[..|rest|] && path[|rest|] == popped
      invariant target !in path[|rest| + 1..]
      decreases |rest|
    {
      if |rest| == 0 {
        assert path == [popped] + path[1..];
        return false, [];
      }
      popped := Last(rest);
      rest := rest[..|rest| - 1];
    }
    found := true;
    assert rest + [target] == path[..|rest| + 1];
    BacktrackedUnique(path, target, rest + [target]);
  }

  /** The arithmetic of one more path: its n equal shares add up to the whole amount. */
  lemma TotalStep(sum: real, before: real, counts: real, n: nat, k: nat, amount: real)
    requires n >= 1 && counts == n as real && before == (k as real) * amount
    requires sum == before + (amount / (n as real)) * counts
    ensures sum == ((k + 1) as real) * amount
  {
  }

  /** The amount left at c when every visit in p leaves `amount` on its cell. */
  function Deposited(p: Path, c: Coord, amount: real): real {
    if p == [] then 0.0 else Deposited(p[..|p| - 1], c, amount) + (if Last(p) == c then amount else 0.0)
  }

  /** One more visit adds `amount` to its own cell and nothing elsewhere. */
  lemma DepositedSnoc(p: Path, m: int, amount: real)
    requires 0 <= m < |p|
    ensures forall c :: Deposited(p[..m + 1], c, amount) == Deposited(p[..m], c, amount) + (if p[m] == c then amount else 0.0)
  {
    assert p[..m + 1][..m] == p[..m];
  }

  /** Visit by visit, a cell receives `amount` once per occurrence. */
  lemma {:induction false} DepositedCount(p: Path, amount: real)
    ensures forall c :: Deposited(p, c, amount) == (Count(p, c) as real) * amount
  {
    if p != [] {
      DepositedCount(p[..|p| - 1], amount);
      forall c ensures Deposited(p, c, amount) == (Count(p, c) as real) * amount {
        var n := Count(p[..|p| - 1], c) as real;
        assert (n + 1.0) * amount == n * amount + amount;
      }
    }
  }

  lemma {:induction false} CountAbsent(p: Path, c: Coord)
    requires c !in p
    ensures Count(p, c) == 0
  {
    if p != [] {
      assert c !in p[..|p| - 1];
      CountAbsent(p[..|p| - 1], c);
    }
  }

  lemma Distribute(a: real, x: real, y: real)
    ensures a * (x + y) == a * x + a * y
  {
  }

  /** Summing commutes with a pointwise combination h = f + a * g. */
  lemma {:induction false} SumRowAffine(f: Coord -> real, g: Coord -> real, h: Coord -> real, a: real, n: int, y: int)
    requires forall c :: h(c) == f(c) + a * g(c)
    ensures SumRow(h, n, y) == SumRow(f, n, y) + a * SumRow(g, n, y)
    decreases n
  {
    if n > 0 {
      SumRowAffine(f, g, h, a, n - 1, y);
      Distribute(a, SumRow(g, n - 1, y), g((n - 1, y)));
    }
  }

  lemma {:induction false} SumGridAffine(f: Coord -> real, g: Coord -> real, h: Coord -> real, a: real, width: int, height: int)
    requires forall c :: h(c) == f(c) + a * g(c)
    ensures SumGrid(h, width, height) == SumGrid(f, width, height) + a * SumGrid(g, width, height)
    decreases height
  {
    if height > 0 {
      SumGridAffine(f, g, h, a, width, height - 1);
      SumRowAffine(f, g, h, a, width, height - 1);
      Distribute(a, SumGrid(g, width, height - 1), SumRow(g, width, height - 1));
    }
  }

  /** The indicator of cell x. */
  function Indicator(x: Coord): Coord -> real {
    c => if c == x then 1.0 else 0.0
  }

  /** The sum over row y of the indicator of cell x. */
  lemma {:induction false} SumRowPoint(x: Coord, n: int, y: int)
    ensures SumRow(Indicator(x), n, y) == if x.1 == y && 0 <= x.0 < n then 1.0 else 0.0
    decreases n
  {
    if n > 0 {
      SumRowPoint(x, n - 1, y);
    }
  }

  /** The sum over the grid of the indicator of cell x is 1 when x is inside it. */
  lemma {:induction false} SumGridPoint(x: Coord, width: int, height: int)
    ensures SumGrid(Indicator(x), width, height) ==
            if 0 <= x.0 < width && 0 <= x.1 < height then 1.0 else 0.0
    decreases height
  {
    if height > 0 {
      SumGridPoint(x, width, height - 1);
      SumRowPoint(x, width, height - 1);
    }
  }

  /** A function that is zero everywhere sums to zero. */
  lemma {:induction false} SumGridZero(f: Coord -> real, width: int, height: int)
    requires forall c :: f(c) == 0.0
    ensures SumGrid(f, width, height) == 0.0
    decreases height
  {
    if height > 0 {
      SumGridZero(f, width, height - 1);
      SumRowZero(f, width, height - 1);
    }
  }

  lemma {:induction false} SumRowZero(f: Coord -> real, n: int, y: int)
    requires forall c :: f(c) == 0.0
    ensures SumRow(f, n, y) == 0.0
    decreases n
  {
    if n > 0 {
      SumRowZero(f, n - 1, y);
    }
  }

  /** The number of occurrences in p, as one function of the cell. */
  function CountGrid(p: Path): Coord -> real {
    c => Count(p, c) as real
  }

  /** Every occurrence in a path inside the grid is counted once by the grid sum of Count. */
  lemma {:induction false} CountTotal(p: Path, width: int, height: int)
    requires forall c | c in p :: 0 <= c.0 < width && 0 <= c.1 < height
    ensures SumGrid(CountGrid(p), width, height) == |p| as real
  {
    if p == [] {
      SumGridZero(CountGrid(p), width, height);
    } else {
      var init := p[..|p| - 1];
      var x := Last(p);
      assert forall c | c in init :: c in p;
      CountTotal(init, width, height);
      SumGridPoint(x, width, height);
      SumGridAffine(CountGrid(init), Indicator(x), CountGrid(p), 1.0, width, height);
    }
  }
}
