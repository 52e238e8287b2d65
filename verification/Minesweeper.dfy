/** The Minesweeper half of gui.c, on a grid of any size. */
module Minesweeper {
  import opened Bytes
  import opened Grids
  import opened MineField

  class Game {
    const g: Grid
    const mines: nat
    const msMine: array<nat>
    const msAdj: array<nat>
    const msVis: array<nat>
    var started: bool
    var dead: bool
    var win: bool
    var rng: nat

    ghost predicate Shape()
      reads msVis
    {
      && g.cols > 0 && g.rows > 0 && 0 < mines
      && msMine.Length == g.Size() && msAdj.Length == g.Size() && msVis.Length == g.Size()
      && msMine != msAdj && msMine != msVis && msAdj != msVis
      && Marks(msVis[..])
    }

    ghost function Now(): (b: Board)
      requires Shape()
      reads msMine, msAdj, msVis
      ensures BoardOk(g, b)
    {
      Board(msMine[..], msAdj[..], msVis[..])
    }

    /** What holds between any two clicks. */
    ghost predicate Valid()
      reads this, msMine, msAdj, msVis
    {
      && Shape()
      && GameOk(g, mines, Now(), started, dead, win)
    }

    constructor (grid: Grid, mineCount: nat, seed: nat)
      requires grid.cols > 0 && grid.rows > 0 && mineCount > 0 && seed < U32
      ensures Valid() && !started && g == grid && mines == mineCount
    {
      g, mines := grid, mineCount;
      var n := grid.cols * grid.rows;
      RowStartIsProduct(grid.cols, grid.rows);
      msMine, msAdj, msVis := new nat[n](i => 0), new nat[n](i => 0), new nat[n](i => 0);
      started, dead, win, rng := false, false, false, seed;
    }

    // -------------------------------------------------------------- expanding

    /** Opens the cells reached from (x, y), depth first. Every deeper call sees fewer hidden
        cells. */
    method Expand(x: int, y: int)
      requires Shape()
      modifies msVis
      ensures Shape()
      ensures Expanded(g, old(Now()), Cell(x, y), msVis[..])
      ensures OpenedExactly(g, old(Now()), Cell(x, y), msVis[..])
      ensures Hidden(msVis[..]) <= Hidden(old(msVis[..]))
      decreases Hidden(msVis[..])
    {
      hide Expanded, Expanding, OpenedExactly;
      ghost var b, c := Now(), Cell(x, y);
      if x < 0 || x >= g.cols || y < 0 || y >= g.rows {
        NothingToOpen(g, b, c);
        return;
      }
      AtInside(g, c);
      RowStartIsProduct(g.cols, y);
      var i := y * g.cols + x;
      if msVis[i] == 2 {
        NothingToOpen(g, b, c);
        return;
      }
      if msVis[i] == 1 {
        NothingToOpen(g, b, c);
        return;
      }
      if msMine[i] != 0 {
        NothingToOpen(g, b, c);
        return;
      }
      msVis[i] := 1;
      FirstShown(g, b, c);
      HiddenShrinks(b.vis, i);
      assert msVis[..] == b.vis[i := 1];
      if msAdj[i] > 0 {
        ExpandedIsExact(g, b, c, msVis[..]);
        return;
      }
      for dy := -1 to 2
        invariant Shape() && Hidden(msVis[..]) < Hidden(b.vis)
        invariant Expanding(g, b, c, msVis[..], 3 * (dy + 1))
      {
        for dx := -1 to 2
          invariant Shape() && Hidden(msVis[..]) < Hidden(b.vis)
          invariant Expanding(g, b, c, msVis[..], 3 * (dy + 1) + (dx + 1))
        {
          ghost var k, v := 3 * (dy + 1) + (dx + 1), msVis[..];
          assert Offset(c, k) == Cell(x + dx, y + dy);
          if dx == 0 && dy == 0 {
            ExpandSkip(g, b, c, v, k);
            continue;
          }
          Expand(x + dx, y + dy);
          ExpandStep(g, b, c, v, msVis[..], k);
        }
      }
      ExpandEnd(g, b, c, msVis[..]);
      ExpandedIsExact(g, b, c, msVis[..]);
    }

    // -------------------------------------------------------------- laying mines

    method BuildAdj()
      requires Shape()
      modifies msAdj
      ensures AdjCorrect(g, msMine[..], msAdj[..])
    {
      hide AdjOf, Marks;
      for y := 0 to g.rows
        invariant AdjUpTo(g, msMine[..], msAdj[..], 0, y)
      {
        for x := 0 to g.cols
          invariant AdjUpTo(g, msMine[..], msAdj[..], x, y)
        {
          ghost var adj := msAdj[..];
          SetAdj(x, y);
          AdjStep(g, msMine[..], adj, x, y);
        }
      }
    }

    /** The body of ms_build_adj's outer loops: the two inner loops count the neighbours. */
    method SetAdj(x: nat, y: nat)
      requires Shape() && g.Has(Cell(x, y))
      modifies msAdj
      ensures g.At(Cell(x, y)) < g.Size()
      ensures msAdj[..] == old(msAdj[..])[g.At(Cell(x, y)) := AdjOf(g, msMine[..], Cell(x, y))]
    {
      hide AdjOf, CountUpTo, MineAt, Marks;
      ghost var mine, c := msMine[..], Cell(x, y);
      AdjOfCases(g, mine, c);
      MineAtIs(g, mine, x, y);
      var i := y * g.cols + x;
      if msMine[i] != 0 {
        msAdj[i] := 9;
        return;
      }
      var n: nat := 0;
      CountNone(g, mine, c);
      for dy := -1 to 2
        modifies {}
        invariant n == CountUpTo(g, mine, c, 3 * (dy + 1))
      {
        for dx := -1 to 2
          modifies {}
          invariant n == CountUpTo(g, mine, c, 3 * (dy + 1) + (dx + 1))
        {
          CountStep(g, mine, c, dx, dy);
          if dx == 0 && dy == 0 {
            continue;
          }
          var nx, ny := x + dx, y + dy;
          MineAtIs(g, mine, nx, ny);
          if nx < 0 || nx >= g.cols || ny < 0 || ny >= g.rows {
            continue;
          }
          if msMine[ny * g.cols + nx] != 0 {
            n := n + 1;
          }
        }
      }
      msAdj[i] := n;
    }

    method RandU32() returns (r: nat)
      modifies this`rng
      ensures r == rng < U32
    {
      rng := (rng * 1664525 + 1013904223) % U32;
      r := rng;
    }

    method InSafeZone(x: int, y: int, ax: int, ay: int) returns (r: bool)
      ensures r <==> Near(Cell(x, y), Cell(ax, ay))
    {
      for dy := -1 to 2
        invariant Near(Cell(x, y), Cell(ax, ay)) ==> y - ay >= dy
      {
        for dx := -1 to 2
          invariant Near(Cell(x, y), Cell(ax, ay)) ==> y - ay > dy || (y - ay == dy && x - ax >= dx)
        {
          if x == ax + dx && y == ay + dy {
            return true;
          }
        }
      }
      return false;
    }

    /** Draws positions until the mines are laid. The original draws without bound; fuel bounds
        the draws, and done tells whether they sufficed. */
    method PlaceMines(ax: int, ay: int, fuel: nat) returns (done: bool)
      requires Shape() && MineSet(msMine[..]) == {}
      modifies msMine, msAdj, this`rng
      ensures done ==>
                && |MineSet(msMine[..])| == mines && AdjCorrect(g, msMine[..], msAdj[..])
                && ClearAround(g, msMine[..], Cell(ax, ay))
      ensures !done ==> |MineSet(msMine[..])| < mines && ClearAround(g, msMine[..], Cell(ax, ay))
    {
      hide AdjCorrect;
      ghost var a := Cell(ax, ay);
      NoMines(g, msMine[..], a);
      var placed, left := 0, fuel;
      while placed < mines
        invariant 0 <= placed <= mines
        invariant |MineSet(msMine[..])| == placed
        invariant ClearAround(g, msMine[..], a)
        decreases left
      {
        if left == 0 {
          return false;
        }
        left := left - 1;
        var rx := RandU32();
        var ry := RandU32();
        var x, y := rx % g.cols, ry % g.rows;
        var safe := InSafeZone(x, y, ax, ay);
        if safe {
          continue;
        }
        AtInside(g, Cell(x, y));
        RowStartIsProduct(g.cols, y);
        var i := y * g.cols + x;
        if msMine[i] != 0 {
          continue;
        }
        ghost var was := msMine[..];
        MineAdded(g, was, a, Cell(x, y));
        msMine[i] := 1;
        assert msMine[..] == was[i := 1];
        placed := placed + 1;
      }
      BuildAdj();
      return true;
    }

    // -------------------------------------------------------------- clicks

    method RevealAllMines()
      requires Shape()
      modifies msVis
      ensures Shape() && msVis[..] == MinesShown(msMine[..], old(msVis[..]))
      ensures forall i :: 0 <= i < msVis.Length ==> msVis[i] == if msMine[i] != 0 then 1 else old(msVis[i])
    {
      ghost var vis := msVis[..];
      for i := 0 to g.Size()
        invariant forall k :: 0 <= k < msVis.Length ==> msVis[k] == if k < i && msMine[k] != 0 then 1 else vis[k]
      {
        if msMine[i] != 0 {
          msVis[i] := 1;
        }
      }
    }

    method CheckWin()
      requires Shape()
      modifies this`win
      ensures win == (old(win) || AllSafeShown(Now()))
      ensures !old(win) ==> (win <==> forall i :: 0 <= i < msVis.Length && msMine[i] == 0 ==> msVis[i] == 1)
    {
      for i := 0 to g.Size()
        invariant win == old(win)
        invariant forall k :: 0 <= k < i && msMine[k] == 0 ==> msVis[k] == 1
      {
        if msMine[i] == 0 && msVis[i] != 1 {
          return;
        }
      }
      win := true;
    }

    /** A left click. returned is false only when laying the mines ran out of fuel, where the
        original would still be drawing. */
    method LeftCell(cx: int, cy: int, fuel: nat) returns (returned: bool)
      requires Valid()
      modifies this`started, this`dead, this`win, this`rng, msMine, msAdj, msVis
      ensures returned ==> Valid()
      ensures returned && !Clickable(g, old(Now()), old(dead), old(win), Cell(cx, cy)) ==>
                Now() == old(Now()) && started == old(started) && dead == old(dead) && win == old(win)
      ensures returned && Clickable(g, old(Now()), old(dead), old(win), Cell(cx, cy)) ==>
                && started
                && (old(started) ==> Now().mine == old(Now()).mine && Now().adj == old(Now()).adj)
                && LeftOutcome(g, Now().(vis := old(Now()).vis), Cell(cx, cy), Now().vis, dead, win)
      ensures returned && !old(started) && Clickable(g, old(Now()), old(dead), old(win), Cell(cx, cy)) ==>
                !dead && Blank(g, Now(), Cell(cx, cy)) && ClearAround(g, Now().mine, Cell(cx, cy))
      ensures returned && dead && !old(dead) ==>
                forall i :: 0 <= i < msVis.Length ==> msVis[i] == if msMine[i] != 0 then 1 else old(msVis[i])
      ensures !returned ==>
                && !started && !dead && !win && Shape() && Now().vis == old(Now()).vis
                && |MineSet(Now().mine)| < mines && ClearAround(g, Now().mine, Cell(cx, cy))
    {
      hide AdjCorrect, OpenedExactly, Expanded, AllSafeShown;
      ghost var c := Cell(cx, cy);
      if cx < 0 || cx >= g.cols || cy < 0 || cy >= g.rows {
        return true;
      }
      if dead || win {
        return true;
      }
      MineAtIs(g, msMine[..], cx, cy);
      var i := cy * g.cols + cx;
      if msVis[i] == 2 {
        return true;
      }
      ghost var vis := msVis[..];
      if !started {
        var done := PlaceMines(cx, cy, fuel);
        if !done {
          return false;
        }
        started := true;
        FirstClickBlank(g, Now(), c);
        FirstIsRunning(g, mines, Now(), c);
      } else {
        StartedIsRunning(g, mines, Now());
      }
      ghost var b := Now();
      MineAtIs(g, b.mine, cx, cy);
      if msMine[i] != 0 {
        dead := true;
        RevealAllMines();
        DeadOk(g, mines, b);
        return true;
      }
      Expand(cx, cy);
      CheckWin();
      OpenedOk(g, mines, b, c, msVis[..]);
      return true;
    }

    /** A right click flags a hidden cell or takes the flag off. */
    method RightCell(cx: int, cy: int)
      requires Valid()
      modifies msVis
      ensures Valid()
      ensures var c := Cell(cx, cy);
              if g.Has(c) && !dead && !win && started && old(Now()).vis[AtOr0(g, c)] != 1
              then msVis[..] == old(msVis[..])[AtOr0(g, c) := 2 - old(Now()).vis[AtOr0(g, c)]]
              else msVis[..] == old(msVis[..])
    {
      hide AdjCorrect;
      if cx < 0 || cx >= g.cols || cy < 0 || cy >= g.rows {
        return;
      }
      if dead || win {
        return;
      }
      if !started {
        return;
      }
      MineAtIs(g, msMine[..], cx, cy);
      var i := cy * g.cols + cx;
      if msVis[i] == 1 {
        return;
      }
      ghost var vis := msVis[..];
      if msVis[i] == 0 {
        msVis[i] := 2;
      } else if msVis[i] == 2 {
        msVis[i] := 0;
      }
      assert msVis[..] == vis[i := 2 - vis[i]];
      FlagOk(g, mines, old(Now()), i, 2 - vis[i]);
    }

    /** minesweeper_clear_board. */
    method NewGame()
      requires Shape()
      modifies this`started, this`dead, this`win, msMine, msAdj, msVis
      ensures Valid() && !started
    {
      for i := 0 to g.Size()
        invariant forall k :: 0 <= k < i ==> msMine[k] == 0 && msAdj[k] == 0 && msVis[k] == 0
        invariant Marks(msVis[..])
      {
        msMine[i] := 0;
        msAdj[i] := 0;
        msVis[i] := 0;
      }
      started, dead, win := false, false, false;
    }
  }

  function AtOr0(g: Grid, c: Cell): (i: nat)
    requires g.cols > 0 && g.rows > 0
    ensures i < g.Size()
  {
    if g.Has(c) then AtInside(g, c); g.At(c) else AtInside(g, Cell(0, 0)); g.At(Cell(0, 0))
  }

  /** The click has an effect: inside the grid, game running, cell not flagged. */
  ghost predicate Clickable(g: Grid, b: Board, dead: bool, win: bool, c: Cell)
    requires BoardOk(g, b)
  {
    g.Has(c) && !dead && !win && (AtInside(g, c); b.vis[g.At(c)] != 2)
  }

  function MinesShown(mine: seq<nat>, vis: seq<nat>): seq<nat>
    requires |mine| == |vis|
  {
    seq(|vis|, i requires 0 <= i < |vis| => if mine[i] != 0 then 1 else vis[i])
  }

  /** What a left click at c makes of the marks: a mine ends the game and shows all mines; any
      other cell opens exactly what it reaches, and the game is won when nothing safe is left. */
  ghost predicate LeftOutcome(g: Grid, b: Board, c: Cell, vis': seq<nat>, dead: bool, win: bool)
    requires BoardOk(g, b) && |vis'| == |b.vis|
  {
    if MineAt(g, b.mine, c) then dead && !win && vis' == MinesShown(b.mine, b.vis)
    else !dead && OpenedExactly(g, b, c, vis') && (win <==> AllSafeShown(b.(vis := vis')))
  }

  predicate Near(c: Cell, a: Cell) {
    -1 <= c.x - a.x <= 1 && -1 <= c.y - a.y <= 1
  }

  ghost predicate ClearAround(g: Grid, mine: seq<nat>, a: Cell)
    requires |mine| == g.Size()
  {
    forall c :: g.Has(c) && Near(c, a) ==> !MineAt(g, mine, c)
  }

  lemma AdjOfCases(g: Grid, mine: seq<nat>, c: Cell)
    requires |mine| == g.Size() && g.Has(c)
    ensures g.At(c) < |mine|
    ensures AdjOf(g, mine, c) == if mine[g.At(c)] != 0 then 9 else CountUpTo(g, mine, c, 9)
  {
    AtInside(g, c);
    CountIsCard(g, mine, c);
  }

  ghost predicate AdjUpTo(g: Grid, mine: seq<nat>, adj: seq<nat>, x: nat, y: nat)
    requires |mine| == |adj| == g.Size()
  {
    forall c :: g.Has(c) && (c.y < y || (c.y == y && c.x < x)) ==> (AtInside(g, c); adj[g.At(c)] == AdjOf(g, mine, c))
  }

  lemma AdjStep(g: Grid, mine: seq<nat>, adj: seq<nat>, x: nat, y: nat)
    requires |mine| == |adj| == g.Size() && g.Has(Cell(x, y))
    requires AdjUpTo(g, mine, adj, x, y)
    ensures g.At(Cell(x, y)) < |adj|
    ensures AdjUpTo(g, mine, adj[g.At(Cell(x, y)) := AdjOf(g, mine, Cell(x, y))], x + 1, y)
  {
    hide AdjOf;
    var c := Cell(x, y);
    AtInside(g, c);
    var adj' := adj[g.At(c) := AdjOf(g, mine, c)];
    forall d | g.Has(d) && (d.y < y || (d.y == y && d.x < x + 1))
      ensures (AtInside(g, d); adj'[g.At(d)] == AdjOf(g, mine, d))
    {
      AtInside(g, d);
      if g.At(d) == g.At(c) { AtInjective(g, c, d); }
      if d != c { assert d.y < y || (d.y == y && d.x < x); }
    }
  }

  lemma CountNone(g: Grid, mine: seq<nat>, c: Cell)
    requires |mine| == g.Size()
    ensures CountUpTo(g, mine, c, 0) == 0
  {
  }

  lemma CountStep(g: Grid, mine: seq<nat>, c: Cell, dx: int, dy: int)
    requires |mine| == g.Size() && -1 <= dx <= 1 && -1 <= dy <= 1
    ensures var k := 3 * (dy + 1) + (dx + 1);
            CountUpTo(g, mine, c, k + 1) == CountUpTo(g, mine, c, k)
              + (if !(dx == 0 && dy == 0) && MineAt(g, mine, Cell(c.x + dx, c.y + dy)) then 1 else 0)
  {
    assert Offset(c, 3 * (dy + 1) + (dx + 1)) == Cell(c.x + dx, c.y + dy);
  }

  lemma MineAtIs(g: Grid, mine: seq<nat>, x: int, y: int)
    requires |mine| == g.Size()
    ensures g.Has(Cell(x, y)) ==>
              && g.At(Cell(x, y)) == y * g.cols + x && 0 <= y * g.cols + x < |mine|
              && (MineAt(g, mine, Cell(x, y)) <==> mine[y * g.cols + x] != 0)
    ensures !g.Has(Cell(x, y)) ==> !MineAt(g, mine, Cell(x, y))
  {
    if g.Has(Cell(x, y)) {
      AtInside(g, Cell(x, y));
      RowStartIsProduct(g.cols, y);
    }
  }

  lemma NoMines(g: Grid, mine: seq<nat>, a: Cell)
    requires |mine| == g.Size() && MineSet(mine) == {}
    ensures ClearAround(g, mine, a)
  {
    forall c | g.Has(c) ensures !MineAt(g, mine, c) {
      AtInside(g, c);
      assert g.At(c) !in MineSet(mine);
    }
  }

  lemma MineAdded(g: Grid, mine: seq<nat>, a: Cell, c: Cell)
    requires |mine| == g.Size() && g.Has(c) && ClearAround(g, mine, a) && !Near(c, a)
    requires !MineAt(g, mine, c)
    ensures g.At(c) < |mine|
    ensures var m := mine[g.At(c) := 1];
            |MineSet(m)| == |MineSet(mine)| + 1 && ClearAround(g, m, a)
  {
    AtInside(g, c);
    var m := mine[g.At(c) := 1];
    assert MineSet(m) == MineSet(mine) + {g.At(c)};
    forall d | g.Has(d) && Near(d, a) ensures !MineAt(g, m, d) {
      AtInside(g, d);
      if g.At(d) == g.At(c) { AtInjective(g, c, d); }
    }
  }

  ghost predicate Marks(vis: seq<nat>) {
    forall i :: 0 <= i < |vis| ==> vis[i] <= 2
  }

  /** Indices of the hidden cells. */
  ghost function Hidden(vis: seq<nat>): set<nat> {
    set i: nat | i < |vis| && vis[i] == 0
  }

  lemma HiddenShrinks(vis: seq<nat>, i: nat)
    requires i < |vis| && vis[i] == 0
    ensures Hidden(vis[i := 1]) < Hidden(vis)
  {
    assert i in Hidden(vis) && i !in Hidden(vis[i := 1]);
  }

  lemma NothingToOpen(g: Grid, b: Board, c: Cell)
    requires BoardOk(g, b) && !Open(g, b, c)
    ensures Expanded(g, b, c, b.vis) && OpenedExactly(g, b, c, b.vis)
  {
    assert b.(vis := b.vis) == b;
    ExpandedIsExact(g, b, c, b.vis);
  }

  /** Indices of the mines. */
  ghost function MineSet(mine: seq<nat>): set<nat> {
    set i: nat | i < |mine| && mine[i] != 0
  }

  ghost predicate AllSafeShown(b: Board)
    requires |b.mine| == |b.vis|
  {
    forall i :: 0 <= i < |b.mine| && b.mine[i] == 0 ==> b.vis[i] == 1
  }

  /** The invariant over all sequences of clicks. */
  ghost predicate GameOk(g: Grid, mines: nat, b: Board, started: bool, dead: bool, win: bool)
    requires BoardOk(g, b)
  {
    && Marks(b.vis)
    && (!started ==> !dead && !win && MineSet(b.mine) == {} && forall i :: 0 <= i < |b.vis| ==> b.vis[i] == 0)
    && (started ==> |MineSet(b.mine)| == mines && AdjCorrect(g, b.mine, b.adj))
    && (!dead ==> forall i :: 0 <= i < |b.mine| && b.mine[i] != 0 ==> b.vis[i] != 1)
    && (dead ==> forall i :: 0 <= i < |b.mine| && b.mine[i] != 0 ==> b.vis[i] == 1)
    && !(dead && win)
    && (win <==> started && AllSafeShown(b))
  }

  lemma FirstClickBlank(g: Grid, b: Board, a: Cell)
    requires BoardOk(g, b) && g.Has(a) && AdjCorrect(g, b.mine, b.adj) && ClearAround(g, b.mine, a)
    ensures Blank(g, b, a) && !MineAt(g, b.mine, a)
  {
    AtInside(g, a);
    forall d ensures d !in MineNeighbours(g, b.mine, a) {
    }
    assert MineNeighbours(g, b.mine, a) == {};
  }

  /** A game in progress: mines laid, none visible, something safe still hidden. */
  ghost predicate Running(g: Grid, mines: nat, b: Board)
    requires BoardOk(g, b)
  {
    && Marks(b.vis) && |MineSet(b.mine)| == mines && AdjCorrect(g, b.mine, b.adj)
    && (forall i :: 0 <= i < |b.mine| && b.mine[i] != 0 ==> b.vis[i] != 1)
    && !AllSafeShown(b)
  }

  lemma StartedIsRunning(g: Grid, mines: nat, b: Board)
    requires BoardOk(g, b) && GameOk(g, mines, b, true, false, false)
    ensures Running(g, mines, b)
  {
  }

  lemma FirstIsRunning(g: Grid, mines: nat, b: Board, a: Cell)
    requires BoardOk(g, b) && g.Has(a) && AdjCorrect(g, b.mine, b.adj) && ClearAround(g, b.mine, a)
    requires |MineSet(b.mine)| == mines && forall i :: 0 <= i < |b.vis| ==> b.vis[i] == 0
    ensures Running(g, mines, b)
  {
    AtInside(g, a);
    assert !MineAt(g, b.mine, a);
  }

  lemma DeadOk(g: Grid, mines: nat, b: Board)
    requires BoardOk(g, b) && Running(g, mines, b)
    ensures GameOk(g, mines, b.(vis := MinesShown(b.mine, b.vis)), true, true, false)
  {
    var i :| 0 <= i < |b.mine| && b.mine[i] == 0 && b.vis[i] != 1;
    assert MinesShown(b.mine, b.vis)[i] == b.vis[i];
  }

  lemma OpenedOk(g: Grid, mines: nat, b: Board, c: Cell, vis': seq<nat>)
    requires BoardOk(g, b) && Running(g, mines, b) && OpenedExactly(g, b, c, vis')
    ensures GameOk(g, mines, b.(vis := vis'), true, false, AllSafeShown(b.(vis := vis')))
  {
    hide OpenedExactly, AdjCorrect;
    assert |vis'| == |b.vis| by { OpenedLength(g, b, c, vis'); }
    forall i | 0 <= i < |b.vis| ensures vis'[i] <= 2 && (b.mine[i] != 0 ==> vis'[i] != 1) {
      var d := CellAt(g, g.rows, i);
      OpenedAreSafe(g, b, c, vis', d);
    }
  }

  lemma OpenedLength(g: Grid, b: Board, c: Cell, vis': seq<nat>)
    requires BoardOk(g, b) && OpenedExactly(g, b, c, vis')
    ensures |vis'| == |b.vis|
  {
  }

  /** Putting a flag up or down changes nothing the invariant speaks of. */
  lemma FlagOk(g: Grid, mines: nat, b: Board, i: nat, v: nat)
    requires BoardOk(g, b) && GameOk(g, mines, b, true, false, false) && i < |b.vis|
    requires b.vis[i] != 1 && (v == 0 || v == 2)
    ensures GameOk(g, mines, b.(vis := b.vis[i := v]), true, false, false)
  {
    var k :| 0 <= k < |b.mine| && b.mine[k] == 0 && b.vis[k] != 1;
    assert b.vis[i := v][k] != 1;
  }

  // ---------------------------------------------------------------- the game in plain terms

  /** Cell (x, y) is entry y * cols + x of every array. */
  lemma CellIndex(g: Grid, x: int, y: int)
    requires g.cols > 0 && g.rows > 0
    ensures g.Has(Cell(x, y)) <==> 0 <= x < g.cols && 0 <= y < g.rows
    ensures g.Has(Cell(x, y)) ==> AtOr0(g, Cell(x, y)) == y * g.cols + x
    ensures g.Size() == g.rows * g.cols
  {
    RowStartIsProduct(g.cols, g.rows);
    if g.Has(Cell(x, y)) {
      RowStartIsProduct(g.cols, y);
    }
  }

  /** The adjacency of a mine-free cell counts the mines on the up to eight cells around it. */
  lemma AdjMeans(g: Grid, mine: seq<nat>, adj: seq<nat>, x: int, y: int)
    requires |mine| == |adj| == g.Size() && AdjCorrect(g, mine, adj) && 0 <= x < g.cols && 0 <= y < g.rows
    ensures adj[AtOr0(g, Cell(x, y))] ==
            if mine[AtOr0(g, Cell(x, y))] != 0 then 9
            else |set k | 0 <= k < 9 && k != 4 && 0 <= x + k % 3 - 1 < g.cols && 0 <= y + k / 3 - 1 < g.rows
                          && mine[AtOr0(g, Cell(x + k % 3 - 1, y + k / 3 - 1))] != 0|
  {
    hide AdjOf;
    var c := Cell(x, y);
    assert g.Has(c);
    AtInside(g, c);
    assert adj[g.At(c)] == AdjOf(g, mine, c);
    AdjOfCases(g, mine, c);
    CountIsPlaces(g, mine, c, 9);
    hide CountUpTo;
    var plain := set k | 0 <= k < 9 && k != 4 && 0 <= x + k % 3 - 1 < g.cols && 0 <= y + k / 3 - 1 < g.rows
                         && mine[AtOr0(g, Cell(x + k % 3 - 1, y + k / 3 - 1))] != 0;
    assert plain == Places(g, mine, c, 9);
  }

  ghost function Places(g: Grid, mine: seq<nat>, c: Cell, n: nat): set<int>
    requires |mine| == g.Size() && n <= 9
  {
    set k | 0 <= k < n && k != 4 && MineAt(g, mine, Offset(c, k))
  }

  lemma {:induction false} CountIsPlaces(g: Grid, mine: seq<nat>, c: Cell, n: nat)
    requires |mine| == g.Size() && n <= 9
    ensures CountUpTo(g, mine, c, n) == |Places(g, mine, c, n)|
    decreases n
  {
    hide MineAt;
    if n > 0 {
      CountIsPlaces(g, mine, c, n - 1);
      assert Offset(c, n - 1) == c <==> n - 1 == 4;
      if n - 1 != 4 && MineAt(g, mine, Offset(c, n - 1)) {
        assert Places(g, mine, c, n) == Places(g, mine, c, n - 1) + {n - 1};
      } else {
        assert Places(g, mine, c, n) == Places(g, mine, c, n - 1);
      }
    }
  }

  /** A cell that opens along with c is a king's walk away over hidden, unflagged, mine-free cells,
      all but the last with no mine around. */
  lemma ReachedBy(g: Grid, b: Board, c: Cell, d: Cell) returns (p: seq<Cell>)
    requires BoardOk(g, b) && g.cols > 0 && g.rows > 0 && Reached(g, b, c, d)
    ensures |p| > 0 && p[0] == c && p[|p| - 1] == d
    ensures forall i :: 0 <= i < |p| ==>
              && 0 <= p[i].x < g.cols && 0 <= p[i].y < g.rows
              && b.vis[AtOr0(g, p[i])] == 0 && b.mine[AtOr0(g, p[i])] == 0
    ensures forall i :: 0 <= i < |p| - 1 ==> b.adj[AtOr0(g, p[i])] == 0
    ensures forall i, j :: 0 <= i < j < |p| && j == i + 1 ==>
              && p[i] != p[j]
              && -1 <= p[i].x - p[j].x <= 1 && -1 <= p[i].y - p[j].y <= 1
  {
    p :| WhitePath(g, b, p) && p[0] == c && p[|p| - 1] == d;
    forall i | 0 <= i < |p| ensures g.Has(p[i]) && b.vis[AtOr0(g, p[i])] == 0 && b.mine[AtOr0(g, p[i])] == 0 {
      assert Open(g, b, p[i]);
    }
    forall i | 0 <= i < |p| - 1 ensures b.adj[AtOr0(g, p[i])] == 0 && Adjacent(p[i], p[i + 1]) {
      assert Open(g, b, p[i]) && Blank(g, b, p[i]);
    }
  }

  /** Every such walk reaches its end. */
  lemma WalkReaches(g: Grid, b: Board, p: seq<Cell>)
    requires BoardOk(g, b) && g.cols > 0 && g.rows > 0 && |p| > 0
    requires forall i :: 0 <= i < |p| ==>
               && 0 <= p[i].x < g.cols && 0 <= p[i].y < g.rows
               && b.vis[AtOr0(g, p[i])] == 0 && b.mine[AtOr0(g, p[i])] == 0
    requires forall i :: 0 <= i < |p| - 1 ==> b.adj[AtOr0(g, p[i])] == 0
    requires forall i, j :: 0 <= i < j < |p| && j == i + 1 ==>
               && p[i] != p[j]
               && -1 <= p[i].x - p[j].x <= 1 && -1 <= p[i].y - p[j].y <= 1
    ensures Reached(g, b, p[0], p[|p| - 1])
  {
    forall i | 0 <= i < |p| ensures Open(g, b, p[i]) {
      assert g.Has(p[i]);
    }
    forall i | 0 <= i < |p| - 1 ensures Blank(g, b, p[i]) && Adjacent(p[i], p[i + 1]) {
      var j := i + 1;
      assert b.adj[AtOr0(g, p[i])] == 0 && p[i] != p[j];
      assert g.Has(p[i]);
    }
    assert WhitePath(g, b, p);
  }

  /** What a left click does and when, cell by cell. */
  lemma ClickMeans(g: Grid, b: Board, x: int, y: int, vis': seq<nat>, dead: bool, win: bool)
    requires BoardOk(g, b) && g.cols > 0 && g.rows > 0 && |vis'| == |b.vis| && 0 <= x < g.cols && 0 <= y < g.rows
    ensures Clickable(g, b, dead, win, Cell(x, y)) <==> !dead && !win && b.vis[AtOr0(g, Cell(x, y))] != 2
    ensures b.mine[AtOr0(g, Cell(x, y))] != 0 ==>
              (LeftOutcome(g, b, Cell(x, y), vis', dead, win) <==>
                dead && !win && forall i :: 0 <= i < |vis'| ==> vis'[i] == if b.mine[i] != 0 then 1 else b.vis[i])
    ensures b.mine[AtOr0(g, Cell(x, y))] == 0 ==>
              (LeftOutcome(g, b, Cell(x, y), vis', dead, win) <==>
                && !dead && OpenedExactly(g, b, Cell(x, y), vis')
                && (win <==> forall i :: 0 <= i < |vis'| && b.mine[i] == 0 ==> vis'[i] == 1))
  {
    hide OpenedExactly;
    AtInside(g, Cell(x, y));
  }

  /** An invariant game in plain terms: the wanted number of mines once started, none of them shown
      while alive, all of them once dead, and won exactly when every other cell is shown. */
  lemma GameMeans(g: Grid, mines: nat, b: Board, started: bool, dead: bool, win: bool)
    requires BoardOk(g, b) && GameOk(g, mines, b, started, dead, win)
    ensures started ==> |set i: nat | i < |b.mine| && b.mine[i] != 0| == mines
    ensures !started ==> forall i :: 0 <= i < |b.mine| ==> b.mine[i] == 0 && b.vis[i] == 0
    ensures forall i :: 0 <= i < |b.mine| && b.mine[i] != 0 ==> (b.vis[i] == 1 <==> dead)
    ensures win <==> started && forall i :: 0 <= i < |b.mine| && b.mine[i] == 0 ==> b.vis[i] == 1
  {
    if !started {
      forall i | 0 <= i < |b.mine| ensures b.mine[i] == 0 {
        assert i !in MineSet(b.mine);
      }
    }
  }

  /** The first click has no mine on or around it. */
  lemma ClearMeans(g: Grid, mine: seq<nat>, cx: int, cy: int)
    requires |mine| == g.Size() && g.cols > 0 && g.rows > 0 && ClearAround(g, mine, Cell(cx, cy))
    ensures forall x, y :: 0 <= x < g.cols && 0 <= y < g.rows && -1 <= x - cx <= 1 && -1 <= y - cy <= 1 ==>
              mine[AtOr0(g, Cell(x, y))] == 0
  {
    forall x, y | 0 <= x < g.cols && 0 <= y < g.rows && -1 <= x - cx <= 1 && -1 <= y - cy <= 1
      ensures mine[AtOr0(g, Cell(x, y))] == 0
    {
      assert !MineAt(g, mine, Cell(x, y));
    }
  }
}
