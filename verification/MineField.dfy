/** Minesweeper boards as values: king moves, adjacency counts and what one click opens. */
module MineField {

  import opened Grids

  /** One king move. */
  predicate Adjacent(c: Cell, d: Cell) {
    c != d && -1 <= c.x - d.x <= 1 && -1 <= c.y - d.y <= 1
  }

  // ---------------------------------------------------------------- adjacency counts

  /** The k-th of the nine offsets in loop order, dy outermost. */
  function Offset(c: Cell, k: nat): Cell
    requires k < 9
  {
    Cell(c.x + k % 3 - 1, c.y + k / 3 - 1)
  }

  predicate MineAt(g: Grid, mine: seq<nat>, c: Cell)
    requires |mine| == g.Size()
  {
    g.Has(c) && (AtInside(g, c); mine[g.At(c)] != 0)
  }

  /** Mines among the first k offsets, the centre left out: what the counting loop holds. */
  function CountUpTo(g: Grid, mine: seq<nat>, c: Cell, k: nat): nat
    requires |mine| == g.Size() && k <= 9
  {
    if k == 0 then 0
    else CountUpTo(g, mine, c, k - 1) + (if Offset(c, k - 1) != c && MineAt(g, mine, Offset(c, k - 1)) then 1 else 0)
  }

  function Around(c: Cell): set<Cell> {
    set k | 0 <= k < 9 :: Offset(c, k)
  }

  /** The mines a king move away. */
  ghost function MineNeighbours(g: Grid, mine: seq<nat>, c: Cell): set<Cell>
    requires |mine| == g.Size()
  {
    set d | d in Around(c) && Adjacent(c, d) && MineAt(g, mine, d)
  }

  lemma AroundHasNeighbours(c: Cell, d: Cell)
    ensures Adjacent(c, d) ==> d in Around(c)
    ensures d in Around(c) && d != c ==> Adjacent(c, d)
  {
    if Adjacent(c, d) {
      var k := 3 * (d.y - c.y + 1) + (d.x - c.x + 1);
      assert 0 <= k < 9 && Offset(c, k) == d;
    }
  }

  ghost function MinesUpTo(g: Grid, mine: seq<nat>, c: Cell, n: nat): set<Cell>
    requires |mine| == g.Size() && n <= 9
  {
    if n == 0 then {}
    else MinesUpTo(g, mine, c, n - 1)
         + (if Offset(c, n - 1) != c && MineAt(g, mine, Offset(c, n - 1)) then {Offset(c, n - 1)} else {})
  }

  lemma {:induction false} UpToMember(g: Grid, mine: seq<nat>, c: Cell, n: nat, d: Cell)
    requires |mine| == g.Size() && n <= 9
    ensures d in MinesUpTo(g, mine, c, n) <==> d != c && MineAt(g, mine, d) && exists k :: 0 <= k < n && Offset(c, k) == d
    decreases n
  {
    hide MineAt, Offset;
    if n > 0 { UpToMember(g, mine, c, n - 1, d); }
  }

  lemma {:induction false} UpToCard(g: Grid, mine: seq<nat>, c: Cell, n: nat)
    requires |mine| == g.Size() && n <= 9
    ensures |MinesUpTo(g, mine, c, n)| == CountUpTo(g, mine, c, n)
    decreases n
  {
    if n > 0 {
      UpToCard(g, mine, c, n - 1);
      UpToMember(g, mine, c, n - 1, Offset(c, n - 1));
    }
  }

  /** The counting loop counts the neighbouring mines, each once. */
  lemma CountIsCard(g: Grid, mine: seq<nat>, c: Cell)
    requires |mine| == g.Size()
    ensures CountUpTo(g, mine, c, 9) == |MineNeighbours(g, mine, c)|
  {
    UpToCard(g, mine, c, 9);
    forall d ensures d in MinesUpTo(g, mine, c, 9) <==> d in MineNeighbours(g, mine, c) {
      UpToMember(g, mine, c, 9, d);
      AroundHasNeighbours(c, d);
    }
    assert MinesUpTo(g, mine, c, 9) == MineNeighbours(g, mine, c);
  }

  /** The value the board stores: 9 on a mine, otherwise the number of mines a king move away. */
  ghost function AdjOf(g: Grid, mine: seq<nat>, c: Cell): nat
    requires |mine| == g.Size()
  {
    if MineAt(g, mine, c) then 9 else |MineNeighbours(g, mine, c)|
  }

  ghost predicate AdjCorrect(g: Grid, mine: seq<nat>, adj: seq<nat>)
    requires |mine| == |adj| == g.Size()
  {
    forall c :: g.Has(c) ==> (AtInside(g, c); adj[g.At(c)] == AdjOf(g, mine, c))
  }

  // ---------------------------------------------------------------- opening cells

  datatype Board = Board(mine: seq<nat>, adj: seq<nat>, vis: seq<nat>)

  ghost predicate BoardOk(g: Grid, b: Board) {
    |b.mine| == |b.adj| == |b.vis| == g.Size()
  }

  /** Hidden, unflagged and not a mine. */
  predicate Open(g: Grid, b: Board, c: Cell)
    requires BoardOk(g, b)
  {
    g.Has(c) && (AtInside(g, c); b.vis[g.At(c)] == 0 && b.mine[g.At(c)] == 0)
  }

  predicate Blank(g: Grid, b: Board, c: Cell)
    requires BoardOk(g, b)
  {
    g.Has(c) && (AtInside(g, c); b.adj[g.At(c)] == 0)
  }

  /** King moves through open cells, every cell but the last with adjacency 0. */
  ghost predicate WhitePath(g: Grid, b: Board, p: seq<Cell>)
    requires BoardOk(g, b)
  {
    && |p| > 0
    && (forall i :: 0 <= i < |p| ==> Open(g, b, p[i]))
    && (forall i {:trigger Blank(g, b, p[i])} :: 0 <= i < |p| - 1 ==> Blank(g, b, p[i]) && Adjacent(p[i], p[i + 1]))
  }

  ghost predicate Reached(g: Grid, b: Board, c: Cell, d: Cell)
    requires BoardOk(g, b)
  {
    exists p :: WhitePath(g, b, p) && p[0] == c && p[|p| - 1] == d
  }

  /** vis' is vis with exactly the cells reached from c shown. */
  ghost predicate OpenedExactly(g: Grid, b: Board, c: Cell, vis': seq<nat>)
    requires BoardOk(g, b)
  {
    && |vis'| == |b.vis|
    && forall d :: g.Has(d) ==>
         (AtInside(g, d); vis'[g.At(d)] == if Reached(g, b, c, d) then 1 else b.vis[g.At(d)])
  }

  /** What a depth-first expansion from c can promise step by step. */
  ghost predicate Expanded(g: Grid, b: Board, c: Cell, vis': seq<nat>)
    requires BoardOk(g, b)
  {
    && Progress(g, b, c, vis')
    && Settled(g, b, vis', {})
    && !Open(g, b.(vis := vis'), c)
  }

  /** d was open and no longer is. */
  ghost predicate Shown(g: Grid, b: Board, vis': seq<nat>, d: Cell)
    requires BoardOk(g, b) && |vis'| == |b.vis|
  {
    Open(g, b, d) && !Open(g, b.(vis := vis'), d)
  }

  /** Cells change only from hidden to shown, and only if c reaches them. */
  ghost predicate Progress(g: Grid, b: Board, c: Cell, v: seq<nat>)
    requires BoardOk(g, b)
  {
    && |v| == |b.vis|
    && forall d :: g.Has(d) ==> (AtInside(g, d);
         v[g.At(d)] != b.vis[g.At(d)] ==> v[g.At(d)] == 1 && Open(g, b, d) && Reached(g, b, c, d))
  }

  /** No open cell is left next to a shown blank cell other than those in but. */
  ghost predicate Settled(g: Grid, b: Board, v: seq<nat>, but: set<Cell>)
    requires BoardOk(g, b) && |v| == |b.vis|
  {
    forall d, e :: Shown(g, b, v, d) && Blank(g, b, d) && Adjacent(d, e) && d !in but ==> !Open(g, b.(vis := v), e)
  }

  /** In the middle of expanding the blank cell c: its first k neighbours are dealt with. */
  ghost predicate Expanding(g: Grid, b: Board, c: Cell, v: seq<nat>, k: nat)
    requires BoardOk(g, b) && k <= 9
  {
    && Open(g, b, c) && Blank(g, b, c)
    && Progress(g, b, c, v)
    && Settled(g, b, v, {c})
    && !Open(g, b.(vis := v), c)
    && (forall m :: 0 <= m < k && Offset(c, m) != c ==> !Open(g, b.(vis := v), Offset(c, m)))
  }

  lemma ReachedSelf(g: Grid, b: Board, c: Cell)
    requires BoardOk(g, b) && Open(g, b, c)
    ensures Reached(g, b, c, c)
  {
    assert WhitePath(g, b, [c]);
  }

  /** Marking the clicked cell is all that happens when it is not blank, and the start otherwise. */
  lemma FirstShown(g: Grid, b: Board, c: Cell)
    requires BoardOk(g, b) && Open(g, b, c)
    ensures g.At(c) < |b.vis|
    ensures var v := b.vis[g.At(c) := 1];
            if Blank(g, b, c) then Expanding(g, b, c, v, 0) else Expanded(g, b, c, v)
  {
    AtInside(g, c);
    ReachedSelf(g, b, c);
    var v := b.vis[g.At(c) := 1];
    forall d | g.Has(d) && d != c ensures (AtInside(g, d); v[g.At(d)] == b.vis[g.At(d)]) {
      AtInside(g, d);
      if g.At(d) == g.At(c) { AtInjective(g, c, d); }
    }
  }

  /** Fewer open cells, fewer paths. */
  lemma ReachedMono(g: Grid, b: Board, v: seq<nat>, c: Cell, n: Cell, d: Cell)
    requires BoardOk(g, b) && Progress(g, b, c, v)
    requires Open(g, b, c) && Blank(g, b, c) && Adjacent(c, n)
    requires Reached(g, b.(vis := v), n, d)
    ensures Reached(g, b, c, d)
  {
    var bv := b.(vis := v);
    var p :| WhitePath(g, bv, p) && p[0] == n && p[|p| - 1] == d;
    var q := [c] + p;
    forall i | 0 <= i < |q| ensures Open(g, b, q[i]) {
      if i > 0 {
        assert Open(g, bv, p[i - 1]);
        OpenMono(g, b, c, v, p[i - 1]);
      }
    }
    forall i | 0 <= i < |q| - 1 ensures Blank(g, b, q[i]) && Adjacent(q[i], q[i + 1]) {
      if i > 0 { assert Blank(g, bv, p[i - 1]); }
    }
    assert WhitePath(g, b, q);
  }

  lemma OpenMono(g: Grid, b: Board, c: Cell, v: seq<nat>, d: Cell)
    requires BoardOk(g, b) && Progress(g, b, c, v)
    ensures Open(g, b.(vis := v), d) ==> Open(g, b, d)
  {
  }

  /** Expanding the k-th neighbour on the board as it stands moves the expansion on by one. */
  lemma ExpandStep(g: Grid, b: Board, c: Cell, v: seq<nat>, v': seq<nat>, k: nat)
    requires BoardOk(g, b) && k < 9 && Expanding(g, b, c, v, k)
    requires Offset(c, k) != c && Expanded(g, b.(vis := v), Offset(c, k), v')
    ensures Expanding(g, b, c, v', k + 1)
  {
    var n, bv := Offset(c, k), b.(vis := v);
    assert Adjacent(c, n);
    forall d | g.Has(d)
      ensures (AtInside(g, d);
        v'[g.At(d)] != b.vis[g.At(d)] ==> v'[g.At(d)] == 1 && Open(g, b, d) && Reached(g, b, c, d))
    {
      AtInside(g, d);
      if v'[g.At(d)] != v[g.At(d)] {
        OpenMono(g, b, c, v, d);
        ReachedMono(g, b, v, c, n, d);
      }
    }
    forall d, e | Shown(g, b, v', d) && Blank(g, b, d) && Adjacent(d, e) && d !in {c}
      ensures !Open(g, b.(vis := v'), e)
    {
      OpenMono(g, bv, n, v', e);
      if Open(g, bv, d) {
        assert Shown(g, bv, v', d);
        assert Blank(g, bv, d);
      }
    }
    forall m | 0 <= m < k + 1 && Offset(c, m) != c ensures !Open(g, b.(vis := v'), Offset(c, m)) {
      OpenMono(g, bv, n, v', Offset(c, m));
    }
    OpenMono(g, bv, n, v', c);
  }

  lemma ExpandSkip(g: Grid, b: Board, c: Cell, v: seq<nat>, k: nat)
    requires BoardOk(g, b) && k < 9 && Expanding(g, b, c, v, k) && Offset(c, k) == c
    ensures Expanding(g, b, c, v, k + 1)
  {
  }

  lemma ExpandEnd(g: Grid, b: Board, c: Cell, v: seq<nat>)
    requires BoardOk(g, b) && Expanding(g, b, c, v, 9)
    ensures Expanded(g, b, c, v)
  {
    forall d, e | Shown(g, b, v, d) && Blank(g, b, d) && Adjacent(d, e) ensures !Open(g, b.(vis := v), e) {
      if d == c {
        AroundHasNeighbours(c, e);
        var k :| 0 <= k < 9 && Offset(c, k) == e;
      }
    }
  }

  /** The white-path theorem: an expansion opens exactly the cells reached from the click. */
  lemma ExpandedIsExact(g: Grid, b: Board, c: Cell, vis': seq<nat>)
    requires BoardOk(g, b) && Expanded(g, b, c, vis')
    ensures OpenedExactly(g, b, c, vis')
  {
    forall d | g.Has(d)
      ensures (AtInside(g, d); vis'[g.At(d)] == if Reached(g, b, c, d) then 1 else b.vis[g.At(d)])
    {
      AtInside(g, d);
      if Reached(g, b, c, d) {
        var p :| WhitePath(g, b, p) && p[0] == c && p[|p| - 1] == d;
        PathShown(g, b, c, vis', p, |p| - 1);
        assert Open(g, b, p[|p| - 1]);
      }
    }
  }

  lemma {:induction false} PathShown(g: Grid, b: Board, c: Cell, vis': seq<nat>, p: seq<Cell>, k: nat)
    requires BoardOk(g, b) && Expanded(g, b, c, vis')
    requires WhitePath(g, b, p) && p[0] == c && k < |p|
    ensures Shown(g, b, vis', p[k])
    decreases k
  {
    assert Open(g, b, p[k]);
    if k > 0 {
      PathShown(g, b, c, vis', p, k - 1);
      assert Blank(g, b, p[k - 1]);
    }
  }

  /** Nothing but an open cell is ever shown: no mine and no flag. */
  lemma OpenedAreSafe(g: Grid, b: Board, c: Cell, vis': seq<nat>, d: Cell)
    requires BoardOk(g, b) && OpenedExactly(g, b, c, vis') && g.Has(d)
    ensures g.At(d) < |vis'|
    ensures vis'[g.At(d)] != b.vis[g.At(d)] ==> b.vis[g.At(d)] == 0 && b.mine[g.At(d)] == 0 && vis'[g.At(d)] == 1
  {
    AtInside(g, d);
    if Reached(g, b, c, d) {
      var p :| WhitePath(g, b, p) && p[0] == c && p[|p| - 1] == d;
      assert Open(g, b, p[|p| - 1]);
    }
  }
}
