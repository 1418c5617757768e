/**
  The shared vocabulary of the maze generator and the ant colony engine
  (Types.py): coordinates, paths and the cells of a proto-maze.
 */
module Types {

  /** A grid coordinate. In the ant colony engine it is (x, y): x indexes
      columns and y indexes rows. In the generator it is (w_pos, h_pos). */
  type Coord = (int, int)

  /** An ordered walk through the grid. */
  type Path = seq<Coord>

  /** One logical cell of the proto-maze: whether the carver has visited it,
      and which of the walls towards its four neighbours have been knocked down. */
  datatype Cell = Cell(visited: bool, north: bool, east: bool, south: bool, west: bool)

  datatype Option<T> = None | Some(value: T)

  function Abs(x: int): nat {
    if x < 0 then -x else x
  }

  /** p and q are 4-neighbours: one orthogonal step apart. */
  predicate Adjacent(p: Coord, q: Coord) {
    Abs(p.0 - q.0) + Abs(p.1 - q.1) == 1
  }
}
