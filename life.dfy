/** Conway's Game of Life on a bounded board. A board of `width` by
    `height` cells is a sequence in row-major order: cell (x, y) is at index
    `y * width + x`, the layout of a surface whose pitch is its width. Cells
    off the board count as dead; the board does not wrap around. */
module Life {
  import opened Raster

  predicate IsBoard(b: seq<bool>, width: nat, height: nat)
  {
    |b| == width * height
  }

  predicate OnBoard(x: int, y: int, width: nat, height: nat)
  {
    0 <= x < width && 0 <= y < height
  }

  /** Whether cell (x, y) is alive. */
  function Cell(b: seq<bool>, width: nat, height: nat, x: int, y: int): bool
    requires IsBoard(b, width, height) && OnBoard(x, y, width, height)
  {
    StrideIsProduct(y, width);
    IndexInBuffer(x, y, width, height);
    b[Stride(y, width) + x]
  }

  /** 1 for a live cell of the board, 0 for a dead one or a place off the board. */
  function Live(b: seq<bool>, width: nat, height: nat, x: int, y: int): nat
    requires IsBoard(b, width, height)
  {
    if OnBoard(x, y, width, height) && Cell(b, width, height, x, y) then 1 else 0
  }

  /** The eight places around a cell, as column and row offsets. */
  const Around: seq<(int, int)> := [(-1, -1), (0, -1), (1, -1), (-1, 0), (1, 0), (-1, 1), (0, 1), (1, 1)]

  /** The live cells among the first k places around (x, y). */
  function AroundCount(b: seq<bool>, width: nat, height: nat, x: int, y: int, k: nat): (n: nat)
    requires IsBoard(b, width, height) && k <= |Around|
    ensures n <= k
  {
    if k == 0 then 0
    else AroundCount(b, width, height, x, y, k - 1) + Live(b, width, height, x + Around[k - 1].0, y + Around[k - 1].1)
  }

  /** The live cells among the eight around (x, y). */
  function Neighbours(b: seq<bool>, width: nat, height: nat, x: int, y: int): (n: nat)
    requires IsBoard(b, width, height)
    ensures n <= 8
  {
    AroundCount(b, width, height, x, y, |Around|)
  }

  /** The neighbour count written out as a sum of eight cells. */
  lemma NeighboursSum(b: seq<bool>, width: nat, height: nat, x: int, y: int)
    requires IsBoard(b, width, height)
    ensures Neighbours(b, width, height, x, y)
         == Live(b, width, height, x - 1, y - 1) + Live(b, width, height, x, y - 1) + Live(b, width, height, x + 1, y - 1)
          + Live(b, width, height, x - 1, y) + Live(b, width, height, x + 1, y)
          + Live(b, width, height, x - 1, y + 1) + Live(b, width, height, x, y + 1) + Live(b, width, height, x + 1, y + 1)
  {
    assert AroundCount(b, width, height, x, y, 2) == Live(b, width, height, x - 1, y - 1) + Live(b, width, height, x, y - 1);
    assert AroundCount(b, width, height, x, y, 4) == AroundCount(b, width, height, x, y, 2)
      + Live(b, width, height, x + 1, y - 1) + Live(b, width, height, x - 1, y);
    assert AroundCount(b, width, height, x, y, 6) == AroundCount(b, width, height, x, y, 4)
      + Live(b, width, height, x + 1, y) + Live(b, width, height, x - 1, y + 1);
    assert AroundCount(b, width, height, x, y, 8) == AroundCount(b, width, height, x, y, 6)
      + Live(b, width, height, x, y + 1) + Live(b, width, height, x + 1, y + 1);
  }

  /** The rule: a cell is born with exactly three live neighbours and
      survives with two or three. */
  function NextCell(alive: bool, n: nat): (next: bool)
    ensures next <==> (alive && (n == 2 || n == 3)) || (!alive && n == 3)
  {
    n == 3 || (n == 2 && alive)
  }

  /** The next generation: every cell follows the rule, judged on this
      generation alone. */
  function NextBoard(b: seq<bool>, width: nat, height: nat): (r: seq<bool>)
    requires IsBoard(b, width, height)
    ensures IsBoard(r, width, height)
  {
    seq(width * height, i requires 0 <= i < width * height =>
      if width > 0 then NextCell(b[i], Neighbours(b, width, height, Col(i, width), Row(i, width))) else false)
  }

  /** Cell (x, y) of the next generation. */
  lemma NextBoardAt(b: seq<bool>, width: nat, height: nat, x: int, y: int)
    requires IsBoard(b, width, height) && OnBoard(x, y, width, height)
    ensures IsBoard(NextBoard(b, width, height), width, height)
    ensures Cell(NextBoard(b, width, height), width, height, x, y)
         == NextCell(Cell(b, width, height, x, y), Neighbours(b, width, height, x, y))
    ensures 0 <= y * width + x < width * height
    ensures NextBoard(b, width, height)[y * width + x]
         == NextCell(Cell(b, width, height, x, y), Neighbours(b, width, height, x, y))
  {
    var i := Stride(y, width) + x;
    StrideIsProduct(y, width);
    Decode(x, y, width);
    assert Col(i, width) == x && Row(i, width) == y;
    IndexInBuffer(x, y, width, height);
    assert NextBoard(b, width, height)[i] == NextCell(b[i], Neighbours(b, width, height, Col(i, width), Row(i, width)));
  }

  // ---------------------------------------------------------------------
  // Counting over a window, as alive_neighbours does

  /** The live cells of row y in columns x0 up to x1 - 1. */
  function RowCount(b: seq<bool>, width: nat, height: nat, y: int, x0: int, x1: int): nat
    requires IsBoard(b, width, height)
    decreases x1 - x0
  {
    if x1 <= x0 then 0 else RowCount(b, width, height, y, x0, x1 - 1) + Live(b, width, height, x1 - 1, y)
  }

  /** The live cells in columns x0 up to x1 - 1 of rows y0 up to y1 - 1. */
  function WindowCount(b: seq<bool>, width: nat, height: nat, x0: int, x1: int, y0: int, y1: int): nat
    requires IsBoard(b, width, height)
    decreases y1 - y0
  {
    if y1 <= y0 then 0 else WindowCount(b, width, height, x0, x1, y0, y1 - 1) + RowCount(b, width, height, y1 - 1, x0, x1)
  }

  /** The first and last column of the three around x, kept on the board. */
  function MinAround(x: int): int { if x == 0 then 0 else x - 1 }

  function MaxAround(x: int, size: nat): int { if x == size - 1 then size - 1 else x + 1 }

  /** The window count less the cell itself, as alive_neighbours takes it
      back out, is the neighbour count. */
  lemma WindowLessSelf(b: seq<bool>, width: nat, height: nat, x: int, y: int,
                       minX: int, maxX: int, minY: int, maxY: int, window: nat, self: bool)
    requires IsBoard(b, width, height) && OnBoard(x, y, width, height)
    requires minX == MinAround(x) && maxX == MaxAround(x, width)
    requires minY == MinAround(y) && maxY == MaxAround(y, height)
    requires window == WindowCount(b, width, height, minX, maxX + 1, minY, maxY + 1)
    requires self == Cell(b, width, height, x, y)
    ensures self ==> window >= 1
    ensures (if self then window - 1 else window) == Neighbours(b, width, height, x, y)
  {
    NeighboursByWindow(b, width, height, x, y);
  }

  /** A row of the clipped window holds the three cells around x of that row. */
  lemma {:induction false} RowAround(b: seq<bool>, width: nat, height: nat, x: int, y: int)
    requires IsBoard(b, width, height) && 0 <= x < width
    ensures RowCount(b, width, height, y, MinAround(x), MaxAround(x, width) + 1)
         == Live(b, width, height, x - 1, y) + Live(b, width, height, x, y) + Live(b, width, height, x + 1, y)
  {
    var x0, x1 := MinAround(x), MaxAround(x, width) + 1;
    assert RowCount(b, width, height, y, x0, x0) == 0;
    if x1 - x0 == 3 {
      assert RowCount(b, width, height, y, x0, x0 + 1) == Live(b, width, height, x0, y);
      assert RowCount(b, width, height, y, x0, x0 + 2) == Live(b, width, height, x0, y) + Live(b, width, height, x0 + 1, y);
    } else if x1 - x0 == 2 {
      assert RowCount(b, width, height, y, x0, x0 + 1) == Live(b, width, height, x0, y);
    }
  }

  /** A row just off the board holds no live cell. */
  lemma {:induction false} RowOffBoard(b: seq<bool>, width: nat, height: nat, y: int, x0: int, x1: int)
    requires IsBoard(b, width, height) && (y < 0 || y >= height)
    ensures RowCount(b, width, height, y, x0, x1) == 0
    decreases x1 - x0
  {
    if x1 > x0 {
      RowOffBoard(b, width, height, y, x0, x1 - 1);
    }
  }

  /** The window alive_neighbours scans, three by three clipped to the board,
      holds the neighbours of (x, y) and the cell itself. */
  lemma NeighboursByWindow(b: seq<bool>, width: nat, height: nat, x: int, y: int)
    requires IsBoard(b, width, height) && OnBoard(x, y, width, height)
    ensures WindowCount(b, width, height, MinAround(x), MaxAround(x, width) + 1, MinAround(y), MaxAround(y, height) + 1)
         == Neighbours(b, width, height, x, y) + Live(b, width, height, x, y)
  {
    var x0, x1 := MinAround(x), MaxAround(x, width) + 1;
    var y0, y1 := MinAround(y), MaxAround(y, height) + 1;
    NeighboursSum(b, width, height, x, y);
    RowAround(b, width, height, x, y - 1);
    RowAround(b, width, height, x, y);
    RowAround(b, width, height, x, y + 1);
    RowOffBoard(b, width, height, -1, x - 1, x + 2);
    RowOffBoard(b, width, height, height, x - 1, x + 2);
    assert WindowCount(b, width, height, x0, x1, y0, y0) == 0;
    if y1 - y0 == 3 {
      assert WindowCount(b, width, height, x0, x1, y0, y0 + 1) == RowCount(b, width, height, y0, x0, x1);
      assert WindowCount(b, width, height, x0, x1, y0, y0 + 2)
          == RowCount(b, width, height, y0, x0, x1) + RowCount(b, width, height, y0 + 1, x0, x1);
    } else if y1 - y0 == 2 {
      assert WindowCount(b, width, height, x0, x1, y0, y0 + 1) == RowCount(b, width, height, y0, x0, x1);
    }
    if y == 0 {
      assert Live(b, width, height, x - 1, -1) + Live(b, width, height, x, -1) + Live(b, width, height, x + 1, -1) == 0;
    }
    if y == height - 1 {
      assert Live(b, width, height, x - 1, height) + Live(b, width, height, x, height) + Live(b, width, height, x + 1, height) == 0;
    }
  }

  // ---------------------------------------------------------------------
  // Properties of the rule

  /** The count is local: two boards that agree on the eight cells around
      (x, y) give it the same count, whatever the rest of the board holds. */
  lemma NeighboursLocal(b: seq<bool>, b': seq<bool>, width: nat, height: nat, x: int, y: int)
    requires IsBoard(b, width, height) && IsBoard(b', width, height)
    requires forall i, j :: OnBoard(i, j, width, height) && x - 1 <= i <= x + 1 && y - 1 <= j <= y + 1 ==>
      Cell(b, width, height, i, j) == Cell(b', width, height, i, j)
    ensures Neighbours(b, width, height, x, y) == Neighbours(b', width, height, x, y)
  {
    NeighboursSum(b, width, height, x, y);
    NeighboursSum(b', width, height, x, y);
  }

  /** The board does not wrap: on a one-row board of three cells, the live
      cell at the far end is no neighbour of the first. */
  lemma NoWrapAround()
    ensures Live([false, false, true], 3, 1, 2, 0) == 1
    ensures Neighbours([false, false, true], 3, 1, 0, 0) == 0
  {
    var b := [false, false, true];
    NeighboursSum(b, 3, 1, 0, 0);
    assert Cell(b, 3, 1, 0, 0) == b[0] && Cell(b, 3, 1, 1, 0) == b[1] && Cell(b, 3, 1, 2, 0) == b[2];
  }

  /** A dead board stays dead. */
  lemma DeadBoardStaysDead(width: nat, height: nat)
    ensures NextBoard(seq(width * height, _ => false), width, height) == seq(width * height, _ => false)
  {
    var b := seq(width * height, _ => false);
    forall x, y | OnBoard(x, y, width, height)
      ensures Live(b, width, height, x, y) == 0
    {
      StrideIsProduct(y, width);
      IndexInBuffer(x, y, width, height);
    }
    forall i | 0 <= i < width * height
      ensures !NextBoard(b, width, height)[i]
    {
      if width > 0 {
        NeighboursSum(b, width, height, Col(i, width), Row(i, width));
      }
    }
  }

  /** Every cell of a board obeys the rule when each is its own successor. */
  ghost predicate ObeysRule(b: seq<bool>, width: nat, height: nat)
    requires IsBoard(b, width, height)
  {
    forall x: int, y: int | 0 <= x < width && 0 <= y < height ::
      NextCell(Cell(b, width, height, x, y), Neighbours(b, width, height, x, y)) == Cell(b, width, height, x, y)
  }

  lemma StillLifeObeys(b: seq<bool>, width: nat, height: nat)
    requires IsBoard(b, width, height) && NextBoard(b, width, height) == b
    ensures ObeysRule(b, width, height)
  {
    forall x, y | OnBoard(x, y, width, height)
      ensures NextCell(Cell(b, width, height, x, y), Neighbours(b, width, height, x, y)) == Cell(b, width, height, x, y)
    {
      NextBoardAt(b, width, height, x, y);
    }
  }

  /** The cell at index i of a board, named by its column and row. */
  lemma CellAtIndex(b: seq<bool>, width: nat, height: nat, i: int)
    requires IsBoard(b, width, height) && 0 <= i < |b|
    ensures width > 0 && OnBoard(Col(i, width), Row(i, width), width, height)
    ensures Cell(b, width, height, Col(i, width), Row(i, width)) == b[i]
  {
    Encode(i, width);
    RowOfIndex(i, width, height);
    StrideIsProduct(Row(i, width), width);
  }

  lemma ObeyingIsStill(b: seq<bool>, width: nat, height: nat)
    requires IsBoard(b, width, height) && ObeysRule(b, width, height)
    ensures NextBoard(b, width, height) == b
  {
    var n := NextBoard(b, width, height);
    forall i | 0 <= i < |b|
      ensures n[i] == b[i]
    {
      CellAtIndex(b, width, height, i);
      var x, y := Col(i, width), Row(i, width);
      assert NextCell(Cell(b, width, height, x, y), Neighbours(b, width, height, x, y)) == Cell(b, width, height, x, y);
    }
  }

  /** A board is a still life, its own next generation, exactly when every
      cell already obeys the rule. */
  lemma StillLife(b: seq<bool>, width: nat, height: nat)
    requires IsBoard(b, width, height)
    ensures NextBoard(b, width, height) == b <==> ObeysRule(b, width, height)
  {
    if NextBoard(b, width, height) == b {
      StillLifeObeys(b, width, height);
    }
    if ObeysRule(b, width, height) {
      ObeyingIsStill(b, width, height);
    }
  }
}
