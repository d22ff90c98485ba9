/** The Game of Life grid of game.cpp: one zero-initialised allocation of
    `2 * width * height` cells holding two boards, the current generation
    `cells_` and the back board `cells_buffer_`. A board lives at an offset
    into the allocation; the generation step fills the back board from the
    current one and then swaps the two offsets. */
module Grids {
  import opened Raster
  import opened Life

  /** A dead board of n cells. */
  function Dead(n: nat): (b: seq<bool>)
    ensures |b| == n && forall i :: 0 <= i < n ==> !b[i]
  {
    seq(n, _ => false)
  }

  /** The zero-initialised allocation of grid_init: two dead boards of n cells. */
  method Boards(n: nat) returns (m: array<bool>)
    ensures fresh(m) && m.Length == 2 * n
    ensures forall i :: 0 <= i < m.Length ==> !m[i]
  {
    m := new bool[2 * n](_ => false);
  }

  class Grid {
    const width: nat
    const height: nat
    /** `width * height`, the cells of one board. */
    const size: nat
    /** The single allocation both boards live in. */
    const memory: array<bool>
    /** Offsets of `cells_` and `cells_buffer_` into `memory`. */
    var cells: nat
    var back: nat

    /** The two boards are the two halves of the allocation, in either order. */
    predicate Valid()
      reads this
    {
      size == width * height && memory.Length == 2 * size
      && ((cells == 0 && back == size) || (cells == size && back == 0))
    }

    /** The current generation. */
    function Cells(): (b: seq<bool>)
      reads this, memory
      requires Valid()
      ensures IsBoard(b, width, height)
    {
      memory[cells..cells + size]
    }

    /** The back board, which the next generation is written into. */
    function Back(): (b: seq<bool>)
      reads this, memory
      requires Valid()
      ensures IsBoard(b, width, height)
    {
      memory[back..back + size]
    }

    /** grid_init: both boards dead, the back board right after the current one. */
    constructor Init(width: nat, height: nat)
      ensures Valid() && this.width == width && this.height == height
      ensures cells == 0 && back == size
      ensures Cells() == Dead(size) && Back() == Dead(size)
      ensures fresh(memory)
    {
      var n := width * height;
      var m := Boards(n);
      this.width, this.height, size, memory, cells, back := width, height, n, m, 0, n;
    }

    /** The pointer grid_free releases: the lower of the two boards, which is
        always the base of the allocation. */
    function FreedBlock(): (p: nat)
      reads this
      requires Valid()
      ensures p == 0
      ensures p == cells || p == back
    {
      if cells < back then cells else back
    }

    /** get_cell: cell (x, y) of the current generation. */
    function GetCell(x: int, y: int): (alive: bool)
      reads this, memory
      requires Valid() && OnBoard(x, y, width, height)
      ensures alive == Cell(Cells(), width, height, x, y)
    {
      StrideIsProduct(y, width);
      IndexInBuffer(x, y, width, height);
      memory[cells + (y * width + x)]
    }

    /** write_cell: sets one cell of the current generation; the back board
        is untouched. */
    method WriteCell(x: int, y: int, value: bool)
      requires Valid() && OnBoard(x, y, width, height)
      modifies memory
      ensures Valid()
      ensures 0 <= y * width + x < size
      ensures Cells() == old(Cells())[y * width + x := value]
      ensures Back() == old(Back())
    {
      IndexInBuffer(x, y, width, height);
      memory[cells + (y * width + x)] := value;
      assert Cells() == old(Cells())[y * width + x := value];
      assert Back() == old(Back());
    }

    /** write_cell_cells_buffer: sets one cell of the back board; the current
        generation is untouched. */
    method WriteBack(x: int, y: int, value: bool)
      requires Valid() && OnBoard(x, y, width, height)
      modifies memory
      ensures Valid()
      ensures 0 <= y * width + x < size
      ensures Back() == old(Back())[y * width + x := value]
      ensures Cells() == old(Cells())
    {
      IndexInBuffer(x, y, width, height);
      memory[back + (y * width + x)] := value;
      assert Back() == old(Back())[y * width + x := value];
      assert Cells() == old(Cells());
    }

    /** alive_neighbours: counts the live cells of the 3x3 window around
        (x, y) clipped to the grid, then takes the cell itself back out. */
    method AliveNeighbours(x: int, y: int) returns (count: nat)
      requires Valid() && OnBoard(x, y, width, height)
      ensures count == Neighbours(Cells(), width, height, x, y)
      ensures count <= 8
    {
      var minX := if x == 0 then 0 else x - 1;
      var maxX := if x == width - 1 then width - 1 else x + 1;
      var minY := if y == 0 then 0 else y - 1;
      var maxY := if y == height - 1 then height - 1 else y + 1;
      assert minX == MinAround(x) && maxX == MaxAround(x, width);
      assert minY == MinAround(y) && maxY == MaxAround(y, height);
      var window := CountWindow(minX, maxX, minY, maxY);
      var self := GetCell(x, y);
      WindowLessSelf(Cells(), width, height, x, y, minX, maxX, minY, maxY, window, self);
      count := if self then window - 1 else window;
    }

    /** The two loops of alive_neighbours: the live cells in columns minX to
        maxX of rows minY to maxY. */
    method CountWindow(minX: int, maxX: int, minY: int, maxY: int) returns (count: nat)
      requires Valid() && 0 <= minX && maxX < width && 0 <= minY && maxY < height
      ensures count == WindowCount(Cells(), width, height, minX, maxX + 1, minY, maxY + 1)
    {
      ghost var b := Cells();
      count := 0;
      var cy := minY;
      while cy <= maxY
        invariant minY <= cy && (cy <= maxY + 1 || cy == minY)
        invariant count == WindowCount(b, width, height, minX, maxX + 1, minY, cy)
      {
        var cx := minX;
        while cx <= maxX
          invariant minX <= cx && (cx <= maxX + 1 || cx == minX)
          invariant count == WindowCount(b, width, height, minX, maxX + 1, minY, cy) + RowCount(b, width, height, cy, minX, cx)
        {
          if GetCell(cx, cy) {
            count := count + 1;
          }
          cx := cx + 1;
        }
        cy := cy + 1;
      }
    }

    /** The loops of grid_next_generation: every cell of the back board gets
        the rule applied to the current generation, which is only read. */
    method FillBack()
      requires Valid()
      modifies memory
      ensures Valid()
      ensures Back() == NextBoard(old(Cells()), width, height)
      ensures Cells() == old(Cells())
    {
      ghost var b := Cells();
      ghost var n := NextBoard(b, width, height);
      var y := 0;
      while y < height
        invariant 0 <= y <= height && Valid()
        invariant Cells() == b
        invariant forall i :: 0 <= i < Stride(y, width) && i < size ==> Back()[i] == n[i]
      {
        FillBackRow(y, b, n);
        y := y + 1;
      }
      StrideIsProduct(height, width);
      assert Back() == n;
    }

    /** One row of the generation step. */
    method FillBackRow(y: int, ghost b: seq<bool>, ghost n: seq<bool>)
      requires Valid() && 0 <= y < height
      requires Cells() == b && n == NextBoard(b, width, height)
      requires forall i :: 0 <= i < Stride(y, width) && i < size ==> Back()[i] == n[i]
      modifies memory
      ensures Valid() && Cells() == b
      ensures forall i :: 0 <= i < Stride(y + 1, width) && i < size ==> Back()[i] == n[i]
    {
      StrideIsProduct(y, width);
      var x := 0;
      while x < width
        invariant 0 <= x <= width && Valid() && Cells() == b
        invariant forall i :: 0 <= i < y * width + x && i < size ==> Back()[i] == n[i]
      {
        NextBoardAt(b, width, height, x, y);
        StepCell(x, y);
        x := x + 1;
      }
      assert Stride(y + 1, width) == y * width + width;
    }

    /** The body of the loops of grid_next_generation: cell (x, y) of the back
        board gets the rule applied to the current generation. */
    method StepCell(x: int, y: int)
      requires Valid() && OnBoard(x, y, width, height)
      modifies memory
      ensures Valid() && Cells() == old(Cells())
      ensures 0 <= y * width + x < size
      ensures Back() == old(Back())[y * width + x :=
        NextCell(Cell(Cells(), width, height, x, y), Neighbours(Cells(), width, height, x, y))]
    {
      var count := AliveNeighbours(x, y);
      var newState := count == 3 || (count == 2 && GetCell(x, y));
      WriteBack(x, y, newState);
    }

    /** grid_next_generation: the current generation becomes the next one and
        the back board holds the previous one; the boards stay the two halves
        of the allocation. */
    method NextGeneration()
      requires Valid()
      modifies this, memory
      ensures Valid()
      ensures Cells() == NextBoard(old(Cells()), width, height)
      ensures Back() == old(Cells())
      ensures cells == old(back) && back == old(cells)
    {
      FillBack();
      cells, back := back, cells;
    }
  }
}
