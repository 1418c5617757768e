/**
  The editing half of ACORenderer (ACORenderer.py): the current edit mode, the
  key presses that change it, and the single-cell edit that writes into the
  optimiser's pheromone grid. Plotting and event wiring are not modelled.
 */
module Renderer {
  import opened Types
  import opened Aco

  /** The three edit modes; the source keeps them as the strings
      "draw", "erase" and "toggle". */
  datatype Mode = Draw | Erase | Toggle

  /** The mode after a key press: `d`, `e` and `t` select a mode, and every
      other key keeps the current one. */
  function KeyMode(mode: Mode, key: string): (r: Mode)
    ensures key == "d" ==> r == Draw
    ensures key == "e" ==> r == Erase
    ensures key != "d" && key != "e" && key != "t" ==> r == mode
    ensures key == "t" || (mode == Toggle && key != "d" && key != "e") <==> r == Toggle
  {
    if key == "d" then Draw
    else if key == "e" then Erase
    else if key == "t" then Toggle
    else mode
  }

  /** Pressing the same key again changes nothing more. */
  lemma KeyModeIdempotent(mode: Mode, key: string)
    ensures KeyMode(KeyMode(mode, key), key) == KeyMode(mode, key)
  {
  }

  /** The value the toggle mode writes over v. It exchanges the wall
      sentinel and an empty hallway, and sends any positive pheromone level
      below the wall sentinel, out of the encoding the ant walk relies on. */
  function Toggled(v: real): (r: real)
    ensures v == -1.0 <==> r == 0.0
    ensures v == 0.0 <==> r == -1.0
    ensures v > 0.0 ==> r < -1.0 && !Encoded(r)
    ensures v < -1.0 <==> r > 0.0
  {
    -v - 1.0
  }

  /** Toggling twice restores the original value. */
  lemma ToggleTwice(v: real)
    ensures Toggled(Toggled(v)) == v
  {
  }

  /** The value an edit in the given mode leaves in a cell that held v. */
  function Edited(mode: Mode, v: real): (r: real)
    ensures mode == Draw ==> r == -1.0
    ensures mode == Erase ==> r > 0.0 && Encoded(r)
    ensures mode == Toggle ==> Toggled(r) == v
    ensures Encoded(v) ==> (Encoded(r) <==> mode != Toggle || v == -1.0 || v == 0.0)
  {
    match mode
    case Draw => -1.0
    case Erase => 0.1
    case Toggle => Toggled(v)
  }

  class ACORenderer {
    const optimiser: ACO
    const height: int
    const width: int
    var mode: Mode

    /** The renderer's dimensions are those of the optimiser's grid. */
    predicate Valid() {
      optimiser.Valid() && height == optimiser.height && width == optimiser.width
    }

    /** ACORenderer.__init__ (ACORenderer.py:15-19): take the optimiser and
        its grid's shape; the mode starts as toggle. */
    constructor (optimiser: ACO)
      requires optimiser.Valid()
      ensures Valid() && this.optimiser == optimiser
      ensures height == optimiser.maze.Length0 && width == optimiser.maze.Length1
      ensures mode == Toggle
    {
      this.optimiser := optimiser;
      height := optimiser.maze.Length0;
      width := optimiser.maze.Length1;
      mode := Toggle;
    }

    /** ACORenderer._on_key_press (ACORenderer.py:75-89), as far as the mode goes. */
    method OnKeyPress(key: string)
      modifies this`mode
      ensures mode == KeyMode(old(mode), key)
      ensures key == "d" ==> mode == Draw
      ensures key == "e" ==> mode == Erase
      ensures key == "t" ==> mode == Toggle
    {
      if key == "d" {
        mode := Draw;
      } else if key == "e" {
        mode := Erase;
      } else if key == "t" {
        mode := Toggle;
      }
    }

    /** ACORenderer._edit_cell (ACORenderer.py:109-115): overwrite maze[y, x]
        according to the mode; no other cell changes. If every cell was a wall
        or a non-negative level before, that stays so exactly when the mode is
        not toggle or the edited cell held -1 or 0. */
    method EditCell(x: int, y: int)
      requires Valid() && 0 <= x < width && 0 <= y < height
      modifies optimiser.maze
      ensures optimiser.maze[y, x] == Edited(mode, old(optimiser.maze[y, x]))
      ensures forall i, j :: 0 <= i < height && 0 <= j < width && (i != y || j != x) ==>
                optimiser.maze[i, j] == old(optimiser.maze[i, j])
      ensures (forall i, j :: 0 <= i < height && 0 <= j < width ==> Encoded(old(optimiser.maze[i, j]))) ==>
                ((forall i, j :: 0 <= i < height && 0 <= j < width ==> Encoded(optimiser.maze[i, j])) <==>
                 (mode != Toggle || old(optimiser.maze[y, x]) == -1.0 || old(optimiser.maze[y, x]) == 0.0))
    {
      var m := optimiser.maze;
      if mode == Draw {
        m[y, x] := -1.0;
      } else if mode == Erase {
        m[y, x] := 0.1;
      } else {
        m[y, x] := -m[y, x] - 1.0;
      }
      assert m[y, x] == Edited(mode, old(m[y, x]));
    }

    /** ACORenderer._edit_from_event (ACORenderer.py:96-107): an event without
        grid coordinates, or with coordinates outside the grid, changes
        nothing; otherwise the cell under it is edited. The coordinates are
        taken already rounded to integers. */
    method EditFromEvent(xdata: Option<int>, ydata: Option<int>)
      requires Valid()
      modifies optimiser.maze
      ensures (xdata.None? || ydata.None? || !(0 <= xdata.value < width && 0 <= ydata.value < height)) ==>
                forall i, j :: 0 <= i < height && 0 <= j < width ==> optimiser.maze[i, j] == old(optimiser.maze[i, j])
      ensures xdata.Some? && ydata.Some? && 0 <= xdata.value < width && 0 <= ydata.value < height ==>
                var x, y := xdata.value, ydata.value;
                optimiser.maze[y, x] == Edited(mode, old(optimiser.maze[y, x])) &&
                forall i, j :: 0 <= i < height && 0 <= j < width && (i != y || j != x) ==>
                  optimiser.maze[i, j] == old(optimiser.maze[i, j])
    {
      if xdata.None? || ydata.None? {
        return;
      }
      var x, y := xdata.value, ydata.value;
      if !(0 <= x < width && 0 <= y < height) {
        return;
      }
      EditCell(x, y);
    }
  }
}
