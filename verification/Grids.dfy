/** Rectangular grids kept in flat row-major arrays, cell (x, y) at index y * cols + x. */
module Grids {

  datatype Cell = Cell(x: int, y: int)

  /** Start of row y in the flat cell arrays, y * cols in linear form. */
  function RowStart(cols: nat, y: nat): nat {
    if y == 0 then 0 else RowStart(cols, y - 1) + cols
  }

  lemma {:induction false} RowStartIsProduct(cols: nat, y: nat)
    ensures RowStart(cols, y) == y * cols
  {
    if y > 0 {
      RowStartIsProduct(cols, y - 1);
      assert (y - 1) * cols == y * cols - cols;
    }
  }

  lemma {:induction false} RowOrder(cols: nat, a: nat, b: nat)
    requires a < b
    ensures RowStart(cols, a) + cols <= RowStart(cols, b)
    decreases b
  {
    if a < b - 1 { RowOrder(cols, a, b - 1); }
  }

  datatype Grid = Grid(cols: nat, rows: nat) {
    predicate Has(c: Cell) { 0 <= c.x < cols && 0 <= c.y < rows }

    function Size(): nat { RowStart(cols, rows) }

    function At(c: Cell): nat
      requires Has(c)
    {
      RowStart(cols, c.y) + c.x
    }
  }

  lemma AtInside(g: Grid, c: Cell)
    requires g.Has(c)
    ensures g.At(c) < g.Size()
  {
    RowOrder(g.cols, c.y, g.rows);
  }

  lemma AtInjective(g: Grid, c: Cell, d: Cell)
    requires g.Has(c) && g.Has(d) && g.At(c) == g.At(d)
    ensures c == d
  {
    if c.y < d.y { RowOrder(g.cols, c.y, d.y); }
    if d.y < c.y { RowOrder(g.cols, d.y, c.y); }
  }

  lemma {:induction false} CellAt(g: Grid, rows: nat, i: nat) returns (c: Cell)
    requires rows <= g.rows && i < RowStart(g.cols, rows)
    ensures g.Has(c) && g.At(c) == i && c.y < rows
    decreases rows
  {
    if i < RowStart(g.cols, rows - 1) {
      c := CellAt(g, rows - 1, i);
    } else {
      c := Cell(i - RowStart(g.cols, rows - 1), rows - 1);
    }
  }
}
