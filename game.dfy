/** The game of game.cpp: a Life grid the size of the screen, drawn onto the
    screen surface one white pixel per live cell, with handlers that toggle
    a cell under the mouse, start and stop the simulation and step it on
    every tick once a generation is due. */
module Game {
  import opened Blend
  import opened Raster
  import opened Life
  import opened Grids
  import opened Surfaces

  /** The size of the game area, which grid_print insists the grid fits in. */
  const ScreenWidth: int := 100
  const ScreenHeight: int := 100

  /** The window shows each screen pixel as a Scale by Scale square
      (1 << scale_shift, with scale_shift 4). */
  const Scale: int := 16

  /** glfw_move_callback as written: the window position plus half a square,
      divided by the square size, with rows counted from the bottom of the
      window. This rounds to the nearest square boundary rather than taking
      the square the pointer is in. Inside the window the size_t and int32_t
      conversions do not wrap. */
  function MouseCellAsWritten(x: int, y: int): (c: (int, int))
    requires 0 <= x < ScreenWidth * Scale && 0 <= y < ScreenHeight * Scale
    ensures 0 <= c.0 <= ScreenWidth && 0 <= c.1 <= ScreenHeight
  {
    ((x + Scale / 2) / Scale, ScreenHeight - (y + Scale / 2) / Scale)
  }

  /** The cell whose square holds window position (x, y), with rows counted
      from the bottom of the window as the callback counts them. */
  function MouseCell(x: int, y: int): (c: (int, int))
    requires 0 <= x < ScreenWidth * Scale && 0 <= y < ScreenHeight * Scale
    ensures OnBoard(c.0, c.1, ScreenWidth, ScreenHeight)
    ensures c.0 * Scale <= x < (c.0 + 1) * Scale
    ensures (ScreenHeight - 1 - c.1) * Scale <= y < (ScreenHeight - c.1) * Scale
  {
    (x / Scale, ScreenHeight - 1 - y / Scale)
  }

  /** The rounding leaves the grid. The right 8 columns of the window give
      column 100, and the top 8 rows give row 100, where the square under
      the pointer is column 99 or row 99. */
  lemma MouseLeavesGrid()
    ensures MouseCellAsWritten(1599, 800).0 == 100 && MouseCell(1599, 800).0 == 99
    ensures MouseCellAsWritten(800, 0).1 == 100 && MouseCell(800, 0).1 == 99
    ensures !OnBoard(MouseCellAsWritten(1599, 800).0, MouseCellAsWritten(1599, 800).1, ScreenWidth, ScreenHeight)
    ensures !OnBoard(MouseCellAsWritten(800, 0).0, MouseCellAsWritten(800, 0).1, ScreenWidth, ScreenHeight)
  {
  }

  /** Where the pointer lies in the left half and the upper half of its
      square, the rounding keeps the column but gives the row above. */
  lemma MouseRowAbove(x: int, y: int)
    requires 0 <= x < ScreenWidth * Scale && 0 <= y < ScreenHeight * Scale
    requires x % Scale < Scale / 2 && y % Scale < Scale / 2
    ensures MouseCellAsWritten(x, y).0 == MouseCell(x, y).0
    ensures MouseCellAsWritten(x, y).1 == MouseCell(x, y).1 + 1
  {
  }

  /** The colour of a live cell on screen. */
  const White: Pixel := 0xFFFF_FFFF

  /** The live cells grid_print has plotted once it has gone through every
      cell before (x, y) in row-major order: each such live cell turns its
      pixel white and every other pixel keeps its value in `b`. */
  function ShownTo(b: seq<Pixel>, board: seq<bool>, width: nat, height: nat, pitch: int, x: int, y: int): (r: seq<Pixel>)
    requires IsBoard(board, width, height)
    ensures |r| == |b|
  {
    seq(|b|, i requires 0 <= i < |b| =>
      if pitch > 0 && Col(i, pitch) < width && 0 <= Row(i, pitch) < height
         && (Row(i, pitch) < y || (Row(i, pitch) == y && Col(i, pitch) < x))
         && Cell(board, width, height, Col(i, pitch), Row(i, pitch))
      then White else b[i])
  }

  /** The screen after grid_print: every cell visited. */
  function Shown(b: seq<Pixel>, board: seq<bool>, width: nat, height: nat, pitch: int): (r: seq<Pixel>)
    requires IsBoard(board, width, height)
    ensures |r| == |b|
  {
    ShownTo(b, board, width, height, pitch, 0, height)
  }

  /** grid_print plots white at exactly the live cells and leaves every
      other pixel, dead cells and the rest of the screen, as it was. */
  lemma ShownAt(b: seq<Pixel>, board: seq<bool>, width: nat, height: nat, pitch: int, screenHeight: int, x: int, y: int)
    requires IsBoard(board, width, height) && width <= pitch && height <= screenHeight
    requires |b| == pitch * screenHeight && 0 <= x < pitch && 0 <= y < screenHeight
    ensures 0 <= x + y * pitch < |b|
    ensures OnBoard(x, y, width, height) && Cell(board, width, height, x, y) ==>
      Shown(b, board, width, height, pitch)[x + y * pitch] == White
    ensures !(OnBoard(x, y, width, height) && Cell(board, width, height, x, y)) ==>
      Shown(b, board, width, height, pitch)[x + y * pitch] == b[x + y * pitch]
  {
    IndexInBuffer(x, y, pitch, screenHeight);
    Decode(x, y, pitch);
  }

  /** Nothing is plotted before the first cell. */
  lemma ShownNone(b: seq<Pixel>, board: seq<bool>, width: nat, height: nat, pitch: int)
    requires IsBoard(board, width, height)
    ensures ShownTo(b, board, width, height, pitch, 0, 0) == b
  {}

  /** Visiting cell (x, y) plots it exactly when it is alive. */
  lemma ShownStep(b: seq<Pixel>, board: seq<bool>, width: nat, height: nat, pitch: int, screenHeight: int, x: int, y: int)
    requires IsBoard(board, width, height) && width <= pitch && height <= screenHeight
    requires |b| == pitch * screenHeight && OnBoard(x, y, width, height)
    ensures 0 <= x + y * pitch < |b|
    ensures ShownTo(b, board, width, height, pitch, x + 1, y)
         == if Cell(board, width, height, x, y)
            then ShownTo(b, board, width, height, pitch, x, y)[x + y * pitch := White]
            else ShownTo(b, board, width, height, pitch, x, y)
  {
    IndexInBuffer(x, y, pitch, screenHeight);
    Decode(x, y, pitch);
    var k := x + y * pitch;
    var before, after := ShownTo(b, board, width, height, pitch, x, y), ShownTo(b, board, width, height, pitch, x + 1, y);
    forall i | 0 <= i < |b| && i != k
      ensures after[i] == before[i]
    {
      Encode(i, pitch);
    }
  }

  /** Finishing a row is starting the next one. */
  lemma ShownNextRow(b: seq<Pixel>, board: seq<bool>, width: nat, height: nat, pitch: int, y: int)
    requires IsBoard(board, width, height)
    ensures ShownTo(b, board, width, height, pitch, width, y) == ShownTo(b, board, width, height, pitch, 0, y + 1)
  {}

  /** grid_print: plots white at every live cell of the grid. The grid must
      fit the game area and the screen. */
  method GridPrint(grid: Grid, screen: Surface)
    requires grid.Valid() && screen.Valid()
    requires grid.height <= ScreenHeight && grid.width <= ScreenWidth
    requires grid.width <= screen.width && grid.height <= screen.height
    modifies screen.buffer
    ensures screen.Pixels() == Shown(old(screen.Pixels()), grid.Cells(), grid.width, grid.height, screen.pitch)
  {
    ghost var b0 := screen.Pixels();
    ghost var board := grid.Cells();
    ShownNone(b0, board, grid.width, grid.height, screen.pitch);
    var y := 0;
    while y < grid.height
      invariant 0 <= y <= grid.height
      invariant screen.Pixels() == ShownTo(b0, board, grid.width, grid.height, screen.pitch, 0, y)
    {
      GridPrintRow(grid, screen, y, b0);
      ShownNextRow(b0, board, grid.width, grid.height, screen.pitch, y);
      y := y + 1;
    }
  }

  /** One row of grid_print. */
  method GridPrintRow(grid: Grid, screen: Surface, y: int, ghost b0: seq<Pixel>)
    requires grid.Valid() && screen.Valid() && 0 <= y < grid.height
    requires grid.width <= screen.width && grid.height <= screen.height
    requires |b0| == screen.pitch * screen.height
    requires screen.Pixels() == ShownTo(b0, grid.Cells(), grid.width, grid.height, screen.pitch, 0, y)
    modifies screen.buffer
    ensures screen.Pixels() == ShownTo(b0, grid.Cells(), grid.width, grid.height, screen.pitch, grid.width, y)
  {
    var x := 0;
    while x < grid.width
      invariant 0 <= x <= grid.width
      invariant screen.Pixels() == ShownTo(b0, grid.Cells(), grid.width, grid.height, screen.pitch, x, y)
    {
      ShownStep(b0, grid.Cells(), grid.width, grid.height, screen.pitch, screen.height, x, y);
      if grid.GetCell(x, y) {
        screen.Plot(x, y, White);
      }
      x := x + 1;
    }
  }

  /** The frame a running game shows: white at live cells, black everywhere
      else, the padding of each row included. */
  function Frame(board: seq<bool>, width: nat, height: nat, pitch: int): (r: seq<Pixel>)
    requires IsBoard(board, width, height) && width <= pitch
    ensures |r| == pitch * height
  {
    seq(pitch * height, i requires 0 <= i < pitch * height =>
      if Col(i, pitch) < width && Row(i, pitch) < height && Cell(board, width, height, Col(i, pitch), Row(i, pitch))
      then White else 0)
  }

  /** Pixel (x, y) of the frame is white exactly when cell (x, y) is alive;
      the padding is black. */
  lemma FrameAt(board: seq<bool>, width: nat, height: nat, pitch: int, x: int, y: int)
    requires IsBoard(board, width, height) && width <= pitch && 0 <= x < pitch && 0 <= y < height
    ensures 0 <= x + y * pitch < pitch * height
    ensures Frame(board, width, height, pitch)[x + y * pitch]
         == if x < width && Cell(board, width, height, x, y) then White else 0
  {
    IndexInBuffer(x, y, pitch, height);
    Decode(x, y, pitch);
  }

  /** clear(0) followed by grid_print on a screen the size of the grid shows
      the frame: 0 is one byte repeated, so the clear blanks the padding as
      well, and every pixel left unplotted is black. */
  lemma ClearAndPrint(b: seq<Pixel>, board: seq<bool>, width: nat, height: nat, pitch: int)
    requires IsBoard(board, width, height) && width <= pitch && |b| == pitch * height
    ensures Shown(Cleared(b, width, pitch, 0), board, width, height, pitch) == Frame(board, width, height, pitch)
  {
    assert UniformBytes(0);
    var c := Cleared(b, width, pitch, 0);
    forall i | 0 <= i < |b|
      ensures Shown(c, board, width, height, pitch)[i] == Frame(board, width, height, pitch)[i]
    {
      if pitch > 0 {
        RowOfIndex(i, pitch, height);
      }
    }
  }

  /** The keys the game reacts to. */
  datatype Key = KeyW | KeyA | OtherKey

  class Game {
    /** The screen the game draws on. */
    const screen: Surface
    /** The grid, made once by the constructor. */
    const grid: Grid
    /** Whether the simulation runs. */
    var start: bool
    /** The last mouse position. */
    var mouseX: int
    var mouseY: int

    /** The grid is the size of the screen, which fits the game area. */
    predicate Valid()
      reads this, screen, grid
    {
      && screen.Valid() && screen.IsSet() && grid.Valid()
      && grid.width == screen.width && grid.height == screen.height
      && screen.width <= ScreenWidth && screen.height <= ScreenHeight
    }

    /** game::game: a dead grid the size of the screen, the simulation stopped. */
    constructor (screen: Surface)
      requires screen.Valid() && screen.IsSet()
      requires screen.width <= ScreenWidth && screen.height <= ScreenHeight
      ensures Valid() && this.screen == screen && fresh(grid) && fresh(grid.memory)
      ensures grid.Cells() == Dead(grid.size)
      ensures !start && mouseX == 0 && mouseY == 0
    {
      this.screen := screen;
      grid := new Grid.Init(screen.width, screen.height);
      start := false;
      mouseX, mouseY := 0, 0;
    }

    /** game::tick, with the timer reduced to whether a generation is due:
        a running game steps the grid when one is due, then clears the
        screen to black and prints the grid, so the screen shows the frame
        of the grid. A stopped game changes nothing. */
    method Tick(due: bool)
      requires Valid()
      modifies grid, grid.memory, screen.buffer
      ensures Valid() && start == old(start)
      ensures !start ==> grid.Cells() == old(grid.Cells()) && screen.buffer[..] == old(screen.buffer[..])
      ensures start ==> grid.Cells() == if due then NextBoard(old(grid.Cells()), grid.width, grid.height) else old(grid.Cells())
      ensures start ==> screen.buffer[..] == Frame(grid.Cells(), grid.width, grid.height, screen.pitch)
    {
      if start {
        if due {
          grid.NextGeneration();
        }
        ghost var b := screen.buffer[..];
        screen.Clear(0);
        GridPrint(grid, screen);
        ClearAndPrint(b, grid.Cells(), grid.width, grid.height, screen.pitch);
      }
    }

    /** game::mouse_down: toggles the cell under the mouse, which must lie on
        the grid, then prints the grid over what the screen shows. */
    method MouseDown()
      requires Valid() && OnBoard(mouseX, mouseY, grid.width, grid.height)
      modifies grid.memory, screen.buffer
      ensures Valid()
      ensures 0 <= mouseY * grid.width + mouseX < grid.width * grid.height
      ensures grid.Cells() == old(grid.Cells())[mouseY * grid.width + mouseX := !old(grid.GetCell(mouseX, mouseY))]
      ensures screen.buffer[..] == Shown(old(screen.buffer[..]), grid.Cells(), grid.width, grid.height, screen.pitch)
    {
      if grid.GetCell(mouseX, mouseY) {
        grid.WriteCell(mouseX, mouseY, false);
      } else {
        grid.WriteCell(mouseX, mouseY, true);
      }
      GridPrint(grid, screen);
    }

    /** game::mouse_move: remembers the position. */
    method MouseMove(x: int, y: int)
      requires Valid()
      modifies this
      ensures Valid()
      ensures mouseX == x && mouseY == y && start == old(start)
    {
      mouseX, mouseY := x, y;
    }

    /** glfw_move_callback with the corrected mapping: on the 100 by 100
        screen every window position selects the cell under the pointer, so
        mouse_down may follow. */
    method MovePointer(x: int, y: int)
      requires Valid() && screen.width == ScreenWidth && screen.height == ScreenHeight
      requires 0 <= x < ScreenWidth * Scale && 0 <= y < ScreenHeight * Scale
      modifies this
      ensures Valid() && start == old(start)
      ensures (mouseX, mouseY) == MouseCell(x, y)
      ensures OnBoard(mouseX, mouseY, grid.width, grid.height)
    {
      var c := MouseCell(x, y);
      MouseMove(c.0, c.1);
    }

    /** game::key_down: `w` starts or stops the simulation; `a` prints the
        grid while it is stopped; other keys do nothing. */
    method KeyDown(key: Key)
      requires Valid()
      modifies this, screen.buffer
      ensures Valid() && mouseX == old(mouseX) && mouseY == old(mouseY)
      ensures start == if key == KeyW then !old(start) else old(start)
      ensures screen.buffer[..] == if key == KeyA && !start
        then Shown(old(screen.buffer[..]), grid.Cells(), grid.width, grid.height, screen.pitch)
        else old(screen.buffer[..])
    {
      match key
      case KeyW =>
        if start != true {
          start := true;
        } else {
          start := false;
        }
      case KeyA =>
        if start != true {
          GridPrint(grid, screen);
        }
      case OtherKey =>
    }
  }
}
