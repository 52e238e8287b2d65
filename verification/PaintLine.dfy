/** The line drawing of gui.c. After a steps in x and b steps in y the loop's error term is a
    function of (a, b) alone, so the walk is described by those two counts. */
module PaintLine {
  import opened Bytes
  import opened Grids

  function Abs(x: int): nat { if x < 0 then -x else x }

  function Max(a: nat, b: nat): nat { if a < b then b else a }

  /** b x-extents minus a y-extents: 0 on the ideal line. */
  function Deviation(dx: nat, dy: nat, s: Steps): int {
    s.b * dx - s.a * dy
  }

  /** The variable err. */
  function Err(dx: nat, dy: nat, s: Steps): int {
    Deviation(dx, dy, s) + dx - dy
  }

  datatype Steps = Steps(a: nat, b: nat)

  function Next(dx: nat, dy: nat, s: Steps): Steps {
    var e2 := 2 * Err(dx, dy, s);
    Steps(if e2 > -(dy as int) then s.a + 1 else s.a, if e2 < dx then s.b + 1 else s.b)
  }

  /** The counts after k rounds of the loop. */
  function Walk(dx: nat, dy: nat, k: nat): Steps {
    if k == 0 then Steps(0, 0) else Next(dx, dy, Walk(dx, dy, k - 1))
  }

  lemma DeviationStep(dx: nat, dy: nat, s: Steps)
    ensures Deviation(dx, dy, Steps(s.a + 1, s.b)) == Deviation(dx, dy, s) - dy
    ensures Deviation(dx, dy, Steps(s.a, s.b + 1)) == Deviation(dx, dy, s) + dx
    ensures Deviation(dx, dy, Steps(s.a + 1, s.b + 1)) == Deviation(dx, dy, s) + dx - dy
  {
    assert (s.a + 1) * dy == s.a * dy + dy;
    assert (s.b + 1) * dx == s.b * dx + dx;
  }

  /** Half a pixel: after every round up to the last, the walk is within half a step of the
      ideal line, moves one step along the longer axis per round and stays in the bounding box. */
  lemma {:induction false} HalfPixel(dx: nat, dy: nat, k: nat)
    requires k <= Max(dx, dy)
    ensures var s := Walk(dx, dy, k);
            && -(Max(dx, dy) as int) <= 2 * Deviation(dx, dy, s) <= Max(dx, dy)
            && (dx >= dy ==> s.a == k) && (dy >= dx ==> s.b == k)
            && s.a <= dx && s.b <= dy
    decreases k
  {
    if k > 0 {
      HalfPixel(dx, dy, k - 1);
      var s := Walk(dx, dy, k - 1);
      DeviationStep(dx, dy, s);
      if dx == dy { assert Deviation(dx, dy, s) == 0; }
      InBox(dx, dy, Walk(dx, dy, k));
    }
  }

  /** Where the line passes exactly between two pixels the walk has, along x, not yet stepped in y,
      and along y already stepped in x: the deviation is less than half a pixel on the other side.
      The counts after k rounds are the only ones with this property. */
  lemma {:induction false} TieBroken(dx: nat, dy: nat, k: nat)
    requires k <= Max(dx, dy) && Max(dx, dy) > 0
    ensures var s := Walk(dx, dy, k);
            if dx >= dy then s.a == k && -(dx as int) <= 2 * (s.b * dx - s.a * dy) < dx
            else s.b == k && -(dy as int) < 2 * (s.b * dx - s.a * dy) <= dy
    decreases k
  {
    HalfPixel(dx, dy, k);
    if k > 0 {
      TieBroken(dx, dy, k - 1);
      DeviationStep(dx, dy, Walk(dx, dy, k - 1));
    }
  }

  lemma OnlyWalk(dx: nat, dy: nat, k: nat, s: Steps)
    requires k <= Max(dx, dy) && Max(dx, dy) > 0
    requires if dx >= dy then s.a == k && -(dx as int) <= 2 * (s.b * dx - s.a * dy) < dx
             else s.b == k && -(dy as int) < 2 * (s.b * dx - s.a * dy) <= dy
    ensures s == Walk(dx, dy, k)
  {
    TieBroken(dx, dy, k);
    var w := Walk(dx, dy, k);
    if dx >= dy {
      SameMultiple(dx, s.b, w.b);
    } else {
      SameMultiple(dy, s.a, w.a);
    }
  }

  /** Multiples less than one step apart are equal. */
  lemma SameMultiple(n: nat, i: nat, j: nat)
    requires n > 0 && -(n as int) < i * n - j * n < n
    ensures i == j
  {
    if i < j {
      MulMono(i + 1, j, n);
    } else if j < i {
      MulMono(j + 1, i, n);
    }
  }

  /** Counts that close to the ideal line cannot overshoot the shorter axis. */
  lemma InBox(dx: nat, dy: nat, s: Steps)
    requires -(Max(dx, dy) as int) <= 2 * Deviation(dx, dy, s) <= Max(dx, dy) && Max(dx, dy) > 0
    requires (dx >= dy ==> s.a <= dx) && (dy >= dx ==> s.b <= dy)
    ensures s.a <= dx && s.b <= dy
    ensures dx >= dy && s.a == dx ==> s.b == dy
    ensures dy >= dx && s.b == dy ==> s.a == dx
  {
    if dx >= dy {
      CloseBound(dx, dy, s.a, s.b);
    }
    if dy >= dx {
      CloseBound(dy, dx, s.b, s.a);
    }
  }

  lemma CloseBound(n: nat, m: nat, i: nat, j: nat)
    requires n > 0 && i <= n && -(n as int) <= 2 * (j * n - i * m) <= n
    ensures j <= m && (i == n ==> j == m)
  {
    MulMono(i, n, m);
    assert (m + 1) * n == m * n + n;
    assert (j + 1) * n == j * n + n;
    if j > m { MulMono(m + 1, j, n); }
    if i == n && j < m { MulMono(j + 1, m, n); }
  }

  lemma MulMono(a: nat, b: nat, n: nat)
    requires a <= b
    ensures a * n <= b * n
  {
  }

  /** The loop reaches the far corner after exactly Max(dx, dy) rounds and not before. */
  lemma EndsExactly(dx: nat, dy: nat, k: nat)
    requires k <= Max(dx, dy)
    ensures Walk(dx, dy, k) == Steps(dx, dy) <==> k == Max(dx, dy)
  {
    HalfPixel(dx, dy, k);
    if k == Max(dx, dy) && k > 0 {
      InBox(dx, dy, Walk(dx, dy, k));
    }
  }

  /** One king move per round: never two pixels at once, never standing still. */
  lemma KingStep(dx: nat, dy: nat, k: nat)
    requires k < Max(dx, dy)
    ensures var s, t := Walk(dx, dy, k), Walk(dx, dy, k + 1);
            t != s && s.a <= t.a <= s.a + 1 && s.b <= t.b <= s.b + 1
  {
    HalfPixel(dx, dy, k);
    HalfPixel(dx, dy, k + 1);
  }

  /** The doubled error stays within three times the longer extent, so 32 bits are enough for
      any endpoints less than 2^28 apart. */
  lemma ErrSmall(dx: nat, dy: nat, k: nat)
    requires k <= Max(dx, dy)
    ensures -3 * Max(dx, dy) <= 2 * Err(dx, dy, Walk(dx, dy, k)) <= 3 * Max(dx, dy)
  {
    HalfPixel(dx, dy, k);
  }

  // ---------------------------------------------------------------- pixels

  /** The k-th pixel of the line from p to q. */
  function Pixel(p: Cell, q: Cell, k: nat): Cell {
    var s := Walk(Abs(q.x - p.x), Abs(q.y - p.y), k);
    Cell(if p.x < q.x then p.x + s.a else p.x - s.a, if p.y < q.y then p.y + s.b else p.y - s.b)
  }

  function Length(p: Cell, q: Cell): nat {
    Max(Abs(q.x - p.x), Abs(q.y - p.y))
  }

  /** paint_plot: pixels outside the canvas are dropped. */
  function Plot(g: Grid, canvas: seq<Byte>, d: Cell, c: Byte): (r: seq<Byte>)
    requires |canvas| == g.Size()
    ensures |r| == |canvas|
  {
    if g.Has(d) then AtInside(g, d); canvas[g.At(d) := c] else canvas
  }

  /** The canvas after the first n pixels. */
  function Drawn(g: Grid, canvas: seq<Byte>, p: Cell, q: Cell, c: Byte, n: nat): (r: seq<Byte>)
    requires |canvas| == g.Size()
    ensures |r| == |canvas|
  {
    if n == 0 then canvas else Plot(g, Drawn(g, canvas, p, q, c, n - 1), Pixel(p, q, n - 1), c)
  }

  /** A canvas cell is painted exactly when some pixel of the line lands on it. */
  lemma {:induction false} DrawnAt(g: Grid, canvas: seq<Byte>, p: Cell, q: Cell, c: Byte, n: nat, d: Cell)
    requires |canvas| == g.Size() && g.Has(d)
    ensures g.At(d) < |canvas|
    ensures Drawn(g, canvas, p, q, c, n)[g.At(d)]
         == if exists k :: 0 <= k < n && Pixel(p, q, k) == d then c else canvas[g.At(d)]
    decreases n
  {
    AtInside(g, d);
    if n > 0 {
      DrawnAt(g, canvas, p, q, c, n - 1, d);
      var e := Pixel(p, q, n - 1);
      if g.Has(e) {
        AtInside(g, e);
        if g.At(e) == g.At(d) { AtInjective(g, d, e); }
      }
    }
  }

  lemma WalkStarts(dx: nat, dy: nat)
    ensures Walk(dx, dy, 0) == Steps(0, 0)
  {
  }

  /** The line starts and ends on its endpoints and stays between them. */
  lemma LineEnds(p: Cell, q: Cell, k: nat)
    requires k <= Length(p, q)
    ensures Pixel(p, q, 0) == p && Pixel(p, q, Length(p, q)) == q
    ensures (p.x <= Pixel(p, q, k).x <= q.x || q.x <= Pixel(p, q, k).x <= p.x)
    ensures (p.y <= Pixel(p, q, k).y <= q.y || q.y <= Pixel(p, q, k).y <= p.y)
    ensures Pixel(p, q, k) == q <==> k == Length(p, q)
  {
    hide Walk, Deviation;
    var dx, dy := Abs(q.x - p.x), Abs(q.y - p.y);
    WalkStarts(dx, dy);
    HalfPixel(dx, dy, k);
    EndsExactly(dx, dy, k);
    EndsExactly(dx, dy, Length(p, q));
  }

  class Canvas {
    const g: Grid
    const paintCanvas: array<Byte>

    constructor (grid: Grid)
      ensures g == grid && paintCanvas.Length == g.Size()
    {
      g := grid;
      paintCanvas := new Byte[grid.cols * grid.rows](i => 0);
      RowStartIsProduct(grid.cols, grid.rows);
    }

    method PaintPlot(x: int, y: int, c: Byte)
      requires paintCanvas.Length == g.Size()
      modifies paintCanvas
      ensures paintCanvas[..] == Plot(g, old(paintCanvas[..]), Cell(x, y), c)
    {
      if x < 0 || y < 0 || x >= g.cols || y >= g.rows {
        return;
      }
      AtInside(g, Cell(x, y));
      RowStartIsProduct(g.cols, y);
      paintCanvas[y * g.cols + x] := c;
    }

    /** Draws the line and terminates, for all endpoints, after Length + 1 plots. */
    method PaintLine(xStart: int, yStart: int, x1: int, y1: int, c: Byte)
      requires paintCanvas.Length == g.Size()
      modifies paintCanvas
      ensures var p, q := Cell(xStart, yStart), Cell(x1, y1);
              paintCanvas[..] == Drawn(g, old(paintCanvas[..]), p, q, c, Length(p, q) + 1)
    {
      hide Err, Plot, Walk, Pixel, Length;
      ghost var p, q := Cell(xStart, yStart), Cell(x1, y1);
      var x0: int, y0: int := xStart, yStart;
      var dx: int := Abs(x1 - x0);
      var sx := if x0 < x1 then 1 else -1;
      var dy: int := Abs(y1 - y0);
      var sy := if y0 < y1 then 1 else -1;
      var err: int := dx - dy;
      ghost var k: nat := 0;
      StartErr(p, q);
      while true
        invariant k <= Length(p, q)
        invariant Cell(x0, y0) == Pixel(p, q, k)
        invariant err == Err(dx, dy, Walk(dx, dy, k))
        invariant paintCanvas[..] == Drawn(g, old(paintCanvas[..]), p, q, c, k)
        decreases Length(p, q) - k
      {
        PaintPlot(x0, y0, c);
        LineEnds(p, q, k);
        if x0 == x1 && y0 == y1 {
          break;
        }
        PixelStep(p, q, k);
        var e2: int := 2 * err;
        if e2 > -dy {
          err := err - dy;
          x0 := x0 + sx;
        }
        if e2 < dx {
          err := err + dx;
          y0 := y0 + sy;
        }
        k := k + 1;
      }
    }
  }

  lemma StartErr(p: Cell, q: Cell)
    ensures Err(Abs(q.x - p.x), Abs(q.y - p.y), Walk(Abs(q.x - p.x), Abs(q.y - p.y), 0)) == Abs(q.x - p.x) - Abs(q.y - p.y)
    ensures Pixel(p, q, 0) == p
  {
  }

  /** One round of the loop, in terms of the error it sees. */
  lemma PixelStep(p: Cell, q: Cell, k: nat)
    ensures var dx, dy := Abs(q.x - p.x), Abs(q.y - p.y);
            var e := Err(dx, dy, Walk(dx, dy, k));
            && Pixel(p, q, k + 1) == Cell(
                 Pixel(p, q, k).x + (if 2 * e > 0 - dy then (if p.x < q.x then 1 else -1) else 0),
                 Pixel(p, q, k).y + (if 2 * e < dx then (if p.y < q.y then 1 else -1) else 0))
            && Err(dx, dy, Walk(dx, dy, k + 1)) == e - (if 2 * e > 0 - dy then dy else 0) + (if 2 * e < dx then dx else 0)
  {
    ErrStep(Abs(q.x - p.x), Abs(q.y - p.y), Walk(Abs(q.x - p.x), Abs(q.y - p.y), k));
  }

  lemma ErrStep(dx: nat, dy: nat, s: Steps)
    ensures Err(dx, dy, Next(dx, dy, s)) ==
            Err(dx, dy, s) - (if 2 * Err(dx, dy, s) > -(dy as int) then dy else 0) + (if 2 * Err(dx, dy, s) < dx then dx else 0)
  {
    DeviationStep(dx, dy, s);
  }
}
