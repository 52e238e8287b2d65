/** The first-fit heap as a list of tiles: the blocks of the region in address order, live and
    free ones together. This is what the header words in memory stand for; the effect of malloc
    and free is one edit of the list. */
module HeapTiles {
  import opened Bytes

  const HEADER: nat := 16
  const ALIGN: nat := 8

  datatype Tile = Tile(addr: nat, size: nat, free: bool) {
    function End(): nat { addr + HEADER + size }
    function Payload(): nat { addr + HEADER }
  }

  type Tiles = seq<Tile>

  /** The tiles cover lo..hi without gap or overlap. */
  ghost predicate Tiled(ts: Tiles, lo: nat, hi: nat) {
    && |ts| > 0
    && ts[0].addr == lo
    && ts[|ts| - 1].End() == hi
    && (forall i {:trigger ts[i].End()} :: 0 <= i < |ts| - 1 ==> ts[i].End() == ts[i + 1].addr)
  }

  ghost predicate Aligned(ts: Tiles) {
    forall i :: 0 <= i < |ts| ==> ts[i].addr % ALIGN == 0 && ts[i].size % ALIGN == 0
  }

  /** What every operation keeps. */
  ghost predicate WellFormed(ts: Tiles, lo: nat, hi: nat) {
    Tiled(ts, lo, hi) && Aligned(ts)
  }

  function Initial(lo: nat, hi: nat): Tiles
    requires lo + HEADER <= hi
  {
    [Tile(lo, hi - lo - HEADER, true)]
  }

  lemma {:induction false} TileOrder(ts: Tiles, lo: nat, hi: nat, i: nat, j: nat)
    requires Tiled(ts, lo, hi) && i <= j < |ts|
    ensures lo <= ts[i].addr <= ts[j].addr && ts[j].End() <= hi
    ensures i < j ==> ts[i].End() <= ts[j].addr
    decreases |ts| - i, j - i
  {
    if i < j {
      assert ts[i].End() == ts[i + 1].addr;
      TileOrder(ts, lo, hi, i + 1, j);
      TileLow(ts, lo, hi, i);
    } else {
      TileLow(ts, lo, hi, i);
      TileHigh(ts, lo, hi, i);
    }
  }

  lemma {:induction false} TileLow(ts: Tiles, lo: nat, hi: nat, i: nat)
    requires Tiled(ts, lo, hi) && i < |ts|
    ensures lo <= ts[i].addr
  {
    if i > 0 {
      TileLow(ts, lo, hi, i - 1);
      assert ts[i - 1].End() == ts[i].addr;
    }
  }

  lemma {:induction false} TileHigh(ts: Tiles, lo: nat, hi: nat, i: nat)
    requires Tiled(ts, lo, hi) && i < |ts|
    ensures ts[i].End() <= hi
    decreases |ts| - i
  {
    if i + 1 < |ts| {
      TileHigh(ts, lo, hi, i + 1);
      assert ts[i].End() == ts[i + 1].addr;
    }
  }

  function TotalSize(ts: Tiles): nat {
    if |ts| == 0 then 0 else TotalSize(ts[..|ts| - 1]) + HEADER + ts[|ts| - 1].size
  }

  /** Headers and payloads add up to the region, exactly. */
  lemma {:induction false} TilesFillRegion(ts: Tiles, lo: nat, hi: nat)
    requires Tiled(ts, lo, hi)
    ensures TotalSize(ts) == hi - lo
    decreases |ts|
  {
    var init := ts[..|ts| - 1];
    if |ts| > 1 {
      assert ts[|ts| - 2].End() == ts[|ts| - 1].addr;
      assert forall i {:trigger init[i].End()} :: 0 <= i < |init| - 1 ==> init[i].End() == init[i + 1].addr by {
        forall i | 0 <= i < |init| - 1 ensures init[i].End() == init[i + 1].addr {
          assert ts[i].End() == ts[i + 1].addr;
        }
      }
      TilesFillRegion(init, lo, ts[|ts| - 1].addr);
    } else {
      assert TotalSize(init) == 0;
    }
  }

  // ---------------------------------------------------------------- lookup

  /** Index of the first free tile at or after i, |ts| if there is none. */
  function NextFreeIndex(ts: Tiles, i: nat): (k: nat)
    requires i <= |ts|
    ensures i <= k <= |ts|
    ensures k < |ts| ==> ts[k].free
    ensures forall j :: i <= j < k ==> !ts[j].free
    decreases |ts| - i
  {
    if i == |ts| || ts[i].free then i else NextFreeIndex(ts, i + 1)
  }

  /** The address a next pointer holds: 0 is NULL. */
  function NextFree(ts: Tiles, i: nat): nat
    requires i <= |ts|
  {
    var k := NextFreeIndex(ts, i);
    if k < |ts| then ts[k].addr else 0
  }

  /** Index of the first free tile that can hold need bytes. */
  function FirstFit(ts: Tiles, need: nat, i: nat): (k: nat)
    requires i <= |ts|
    ensures i <= k <= |ts|
    ensures k < |ts| ==> ts[k].free && ts[k].size >= need
    ensures forall j :: i <= j < k ==> !(ts[j].free && ts[j].size >= need)
    decreases |ts| - i
  {
    if i == |ts| || (ts[i].free && ts[i].size >= need) then i else FirstFit(ts, need, i + 1)
  }

  /** Index of the tile at address a. */
  function IndexAt(ts: Tiles, a: nat, i: nat): (k: nat)
    requires i <= |ts|
    ensures i <= k <= |ts|
    ensures k < |ts| ==> ts[k].addr == a
    ensures forall j :: i <= j < k ==> ts[j].addr != a
    decreases |ts| - i
  {
    if i == |ts| || ts[i].addr == a then i else IndexAt(ts, a, i + 1)
  }

  /** ptr is what malloc returned for a block that has not been freed. */
  predicate LivePtr(ts: Tiles, ptr: nat) {
    && ptr >= HEADER
    && var k := IndexAt(ts, ptr - HEADER, 0);
       k < |ts| && !ts[k].free
  }

  // ---------------------------------------------------------------- the two edits

  predicate Splits(t: Tile, need: nat) {
    t.size >= need + HEADER + ALIGN
  }

  /** Takes tile k, cutting it in two when the remainder can hold a block. */
  function TakeTile(ts: Tiles, k: nat, need: nat): (r: Tiles)
    requires k < |ts| && ts[k].size >= need
  {
    var t := ts[k];
    if Splits(t, need) then
      ts[..k] + [Tile(t.addr, need, false), Tile(t.addr + HEADER + need, t.size - need - HEADER, true)] + ts[k + 1..]
    else
      ts[k := t.(free := false)]
  }

  function MallocTiles(ts: Tiles, need: nat): Tiles {
    var k := FirstFit(ts, need, 0);
    if k < |ts| then TakeTile(ts, k, need) else ts
  }

  function MallocPtr(ts: Tiles, need: nat): nat {
    var k := FirstFit(ts, need, 0);
    if k < |ts| then ts[k].Payload() else 0
  }

  /** Frees tile k, absorbing the next tile when that one is free; the previous tile is never
      merged. */
  function ReleaseTile(ts: Tiles, k: nat): (r: Tiles)
    requires k < |ts|
  {
    var t := ts[k];
    if k + 1 < |ts| && ts[k + 1].free then
      ts[..k] + [Tile(t.addr, t.size + HEADER + ts[k + 1].size, true)] + ts[k + 2..]
    else
      ts[k := t.(free := true)]
  }

  function FreeTiles(ts: Tiles, ptr: nat): Tiles {
    if LivePtr(ts, ptr) then ReleaseTile(ts, IndexAt(ts, ptr - HEADER, 0)) else ts
  }

  // ---------------------------------------------------------------- what they keep

  lemma TakeKeepsWellFormed(ts: Tiles, lo: nat, hi: nat, k: nat, need: nat)
    requires WellFormed(ts, lo, hi) && k < |ts| && ts[k].size >= need && need % ALIGN == 0
    ensures WellFormed(TakeTile(ts, k, need), lo, hi)
  {
    if Splits(ts[k], need) {
      CutKeepsTiled(ts, lo, hi, k, need);
      hide Tiled;
      var r := TakeTile(ts, k, need);
      forall i | 0 <= i < |r| ensures r[i].addr % ALIGN == 0 && r[i].size % ALIGN == 0 {
        if i < k { assert r[i] == ts[i]; } else if i > k + 1 { assert r[i] == ts[i - 1]; }
      }
    } else {
      var r := ts[k := ts[k].(free := false)];
      forall i | 0 <= i < |r| - 1 ensures r[i].End() == r[i + 1].addr {
        assert ts[i].End() == ts[i + 1].addr;
      }
    }
  }

  lemma CutKeepsTiled(ts: Tiles, lo: nat, hi: nat, k: nat, need: nat)
    requires Tiled(ts, lo, hi) && k < |ts| && Splits(ts[k], need)
    ensures Tiled(TakeTile(ts, k, need), lo, hi)
  {
    var r := TakeTile(ts, k, need);
    forall i | 0 <= i < |r| - 1 ensures r[i].End() == r[i + 1].addr {
      if i < k {
        assert r[i] == ts[i] && ts[i].End() == ts[i + 1].addr && r[i + 1].addr == ts[i + 1].addr;
      } else if i > k {
        assert r[i].End() == ts[i - 1].End() && ts[i - 1].End() == ts[i].addr && r[i + 1] == ts[i];
      }
    }
    assert r[0].addr == ts[0].addr && r[|r| - 1].End() == ts[|ts| - 1].End();
  }

  lemma ReleaseKeepsWellFormed(ts: Tiles, lo: nat, hi: nat, k: nat)
    requires WellFormed(ts, lo, hi) && k < |ts|
    ensures WellFormed(ReleaseTile(ts, k), lo, hi)
  {
    var r := ReleaseTile(ts, k);
    if k + 1 < |ts| && ts[k + 1].free {
      assert ts[k].End() == ts[k + 1].addr;
      assert forall i :: 0 <= i < k ==> r[i] == ts[i];
      assert forall i :: k < i < |r| ==> r[i] == ts[i + 1];
      forall i | 0 <= i < |r| - 1 ensures r[i].End() == r[i + 1].addr {
        if i < k {
          assert ts[i].End() == ts[i + 1].addr;
        } else {
          assert ts[i + 1].End() == ts[i + 2].addr;
        }
      }
    } else {
      forall i | 0 <= i < |r| - 1 ensures r[i].End() == r[i + 1].addr {
        assert ts[i].End() == ts[i + 1].addr;
      }
    }
  }

  /** malloc returns NULL exactly when no free tile is large enough. */
  lemma MallocFailsIff(ts: Tiles, lo: nat, hi: nat, need: nat)
    requires WellFormed(ts, lo, hi)
    ensures MallocPtr(ts, need) == 0 <==> forall i :: 0 <= i < |ts| && ts[i].free ==> ts[i].size < need
  {
    var k := FirstFit(ts, need, 0);
    if k < |ts| {
      assert ts[k].free && ts[k].size >= need;
    }
  }

  ghost function LiveSet(ts: Tiles): set<Tile> {
    set i | 0 <= i < |ts| && !ts[i].free :: ts[i]
  }

  /** A successful malloc adds one live block and keeps every other one where it was. */
  lemma TakeLive(ts: Tiles, k: nat, need: nat)
    requires k < |ts| && ts[k].free && ts[k].size >= need
    ensures var size := if Splits(ts[k], need) then need else ts[k].size;
            LiveSet(TakeTile(ts, k, need)) == LiveSet(ts) + {Tile(ts[k].addr, size, false)}
  {
    var r := TakeTile(ts, k, need);
    var size := if Splits(ts[k], need) then need else ts[k].size;
    assert r[k] == Tile(ts[k].addr, size, false);
    forall t | t in LiveSet(ts) ensures t in LiveSet(r) {
      var i :| 0 <= i < |ts| && !ts[i].free && ts[i] == t;
      assert r[if i < k || !Splits(ts[k], need) then i else i + 1] == t;
    }
    forall t | t in LiveSet(r) && t != r[k] ensures t in LiveSet(ts) {
      var i :| 0 <= i < |r| && !r[i].free && r[i] == t;
      assert ts[if i < k || !Splits(ts[k], need) then i else i - 1] == t;
    }
  }

  /** free removes exactly the freed block from the live ones. */
  lemma ReleaseLive(ts: Tiles, lo: nat, hi: nat, k: nat)
    requires Tiled(ts, lo, hi) && k < |ts| && !ts[k].free
    ensures LiveSet(ReleaseTile(ts, k)) == LiveSet(ts) - {ts[k]}
  {
    var r := ReleaseTile(ts, k);
    var merged := k + 1 < |ts| && ts[k + 1].free;
    forall t | t in LiveSet(ts) && t != ts[k] ensures t in LiveSet(r) {
      var i :| 0 <= i < |ts| && !ts[i].free && ts[i] == t;
      assert r[if i < k || !merged then i else i - 1] == t;
    }
    forall t | t in LiveSet(r) ensures t in LiveSet(ts) && t != ts[k] {
      var i :| 0 <= i < |r| && !r[i].free && r[i] == t;
      var j := if i < k || !merged then i else i + 1;
      assert ts[j] == t && j != k;
      if j < k { TileOrder(ts, lo, hi, j, k); } else { TileOrder(ts, lo, hi, k, j); }
    }
  }

  /** Live blocks are 8-aligned, inside the region and pairwise disjoint, headers included. */
  lemma LiveBlocksApart(ts: Tiles, lo: nat, hi: nat, a: Tile, b: Tile)
    requires WellFormed(ts, lo, hi) && a in LiveSet(ts) && b in LiveSet(ts)
    ensures a.Payload() % ALIGN == 0 && lo <= a.addr && a.End() <= hi
    ensures a != b ==> a.End() <= b.addr || b.End() <= a.addr
  {
    var i :| 0 <= i < |ts| && !ts[i].free && ts[i] == a;
    var j :| 0 <= j < |ts| && !ts[j].free && ts[j] == b;
    TileOrder(ts, lo, hi, i, i);
    if i < j { TileOrder(ts, lo, hi, i, j); } else if j < i { TileOrder(ts, lo, hi, j, i); }
  }

  // ---------------------------------------------------------------- sizes

  /** ALIGN_UP on 64-bit sizes: it wraps for the seven largest. */
  function AlignUp(size: nat): (r: nat)
    requires size < U64
    ensures r % ALIGN == 0
  {
    (size + 7) % U64 / 8 * 8
  }

  /** The rounded size covers the request exactly when rounding does not wrap. */
  lemma AlignUpCovers(size: nat)
    requires 0 < size < U64
    ensures AlignUp(size) >= size <==> size <= U64 - 8
    ensures size <= U64 - 8 ==> AlignUp(size) < size + ALIGN
    ensures size > U64 - 8 ==> AlignUp(size) == 0
  {
  }

  /** The block handed out holds the bytes asked for exactly when the rounding does not wrap. */
  lemma MallocCoversIff(ts: Tiles, lo: nat, hi: nat, size: nat)
    requires WellFormed(ts, lo, hi) && lo > 0 && hi < U64 && 0 < size < U64
    requires MallocPtr(ts, AlignUp(size)) != 0
    ensures var k := FirstFit(ts, AlignUp(size), 0);
            k < |ts| && (TakeTile(ts, k, AlignUp(size))[k].size >= size <==> size <= U64 - 8)
  {
    var k := FirstFit(ts, AlignUp(size), 0);
    AlignUpCovers(size);
    TileHigh(ts, lo, hi, k);
  }

  // ---------------------------------------------------------------- malloc and free undo each other

  /** Freeing a block that was split off puts every tile, hence every free-list node, back. */
  lemma FreeUndoesSplit(ts: Tiles, lo: nat, hi: nat, need: nat)
    requires WellFormed(ts, lo, hi) && lo > 0
    requires MallocPtr(ts, need) != 0 && Splits(ts[FirstFit(ts, need, 0)], need)
    ensures LivePtr(MallocTiles(ts, need), MallocPtr(ts, need))
    ensures FreeTiles(MallocTiles(ts, need), MallocPtr(ts, need)) == ts
  {
    var k := FirstFit(ts, need, 0);
    var r := TakeTile(ts, k, need);
    TakenIndex(ts, lo, hi, k, need);
    assert ReleaseTile(r, k) == ts;
  }

  /** Without a split the block comes back whole, merged with a free successor if it has one. */
  lemma FreeAfterWhole(ts: Tiles, lo: nat, hi: nat, need: nat)
    requires WellFormed(ts, lo, hi) && lo > 0
    requires MallocPtr(ts, need) != 0 && !Splits(ts[FirstFit(ts, need, 0)], need)
    ensures LivePtr(MallocTiles(ts, need), MallocPtr(ts, need))
    ensures var k := FirstFit(ts, need, 0);
            var back := FreeTiles(MallocTiles(ts, need), MallocPtr(ts, need));
            back == if k + 1 < |ts| && ts[k + 1].free
                    then ts[..k] + [Tile(ts[k].addr, ts[k].size + HEADER + ts[k + 1].size, true)] + ts[k + 2..]
                    else ts
  {
    var k := FirstFit(ts, need, 0);
    TakenIndex(ts, lo, hi, k, need);
    var r := TakeTile(ts, k, need);
    assert r[..k] == ts[..k];
    if k + 1 < |ts| {
      assert r[k + 2..] == ts[k + 2..];
    }
  }

  lemma TakenIndex(ts: Tiles, lo: nat, hi: nat, k: nat, need: nat)
    requires WellFormed(ts, lo, hi) && k < |ts| && ts[k].size >= need
    ensures var r := TakeTile(ts, k, need);
            k < |r| && r[k].addr == ts[k].addr && !r[k].free && IndexAt(r, ts[k].addr, 0) == k
  {
    var r := TakeTile(ts, k, need);
    forall j | 0 <= j < k ensures r[j].addr != ts[k].addr {
      TileOrder(ts, lo, hi, j, k);
      assert r[j] == ts[j];
    }
  }

  // ---------------------------------------------------------------- realloc's copy

  function LiveTile(ts: Tiles, ptr: nat): Tile
    requires LivePtr(ts, ptr)
  {
    ts[IndexAt(ts, ptr - HEADER, 0)]
  }

  /** The block malloc hands out. */
  function NewTile(ts: Tiles, need: nat): Tile
    requires FirstFit(ts, need, 0) < |ts|
  {
    var t := ts[FirstFit(ts, need, 0)];
    Tile(t.addr, if Splits(t, need) then need else t.size, false)
  }

  /** The copy loop of realloc, if it runs, stays inside the new block. */
  predicate CopyFits(ts: Tiles, ptr: nat, newSize: nat)
    requires LivePtr(ts, ptr) && newSize < U64
  {
    var need, t := AlignUp(newSize), LiveTile(ts, ptr);
    newSize == 0 || t.size >= newSize || FirstFit(ts, need, 0) >= |ts| || t.size <= NewTile(ts, need).size
  }

  /** The same seen before the call: the size does not wrap when rounded, or no block is free, or
      there is nothing to copy, or the first free block is too small to be split and holds the
      old contents. */
  predicate CopyGuard(ts: Tiles, ptr: nat, newSize: nat)
    requires LivePtr(ts, ptr)
  {
    var k, t := NextFreeIndex(ts, 0), LiveTile(ts, ptr);
    newSize <= U64 - 8 || k == |ts| || t.size == 0 || (ts[k].size < HEADER + ALIGN && t.size <= ts[k].size)
  }

  lemma {:induction false} AnyFits(ts: Tiles, i: nat)
    requires i <= |ts|
    ensures FirstFit(ts, 0, i) == NextFreeIndex(ts, i)
    decreases |ts| - i
  {
    if i < |ts| { AnyFits(ts, i + 1); }
  }

  lemma CopyFitsIff(ts: Tiles, lo: nat, hi: nat, ptr: nat, newSize: nat)
    requires WellFormed(ts, lo, hi) && 0 < lo && hi < U64 && LivePtr(ts, ptr) && newSize < U64
    ensures CopyFits(ts, ptr, newSize) <==> CopyGuard(ts, ptr, newSize)
  {
    hide Tiled, Aligned, FirstFit, NextFreeIndex;
    TileHigh(ts, lo, hi, IndexAt(ts, ptr - HEADER, 0));
    if newSize > 0 {
      AlignUpCovers(newSize);
      AnyFits(ts, 0);
    }
  }

  /** The sizes whose copy fits in every heap are exactly those whose rounding does not wrap. */
  lemma SizeSafeIff(newSize: nat)
    requires newSize < U64
    ensures newSize <= U64 - 8 <==>
            forall ts, lo: nat, hi: nat, ptr: nat :: WellFormed(ts, lo, hi) && 0 < lo && hi < U64 && LivePtr(ts, ptr) ==>
              CopyFits(ts, ptr, newSize)
  {
    hide WellFormed, LivePtr, CopyFits;
    if newSize <= U64 - 8 {
      forall ts, lo: nat, hi: nat, ptr: nat | WellFormed(ts, lo, hi) && 0 < lo && hi < U64 && LivePtr(ts, ptr)
        ensures CopyFits(ts, ptr, newSize)
      {
        CopyFitsIff(ts, lo, hi, ptr, newSize);
      }
    } else {
      CopyOverruns(newSize);
    }
  }

  /** For every size that wraps: an 8-byte block followed by free space. */
  lemma CopyOverruns(newSize: nat)
    requires U64 - 8 < newSize < U64
    ensures var ts := [Tile(16, 8, false), Tile(40, 64, true)];
            WellFormed(ts, 16, 120) && LivePtr(ts, 32) && !CopyFits(ts, 32, newSize)
  {
    var ts := [Tile(16, 8, false), Tile(40, 64, true)];
    assert IndexAt(ts, 16, 0) == 0;
    assert NextFreeIndex(ts, 1) == 1 && NextFreeIndex(ts, 0) == 1;
    CopyFitsIff(ts, 16, 120, 32, newSize);
  }

  // ---------------------------------------------------------------- whole runs

  /** The calls of the allocator, and a client writing into the block at ptr. */
  datatype Op = Malloc(size: nat) | Free(ptr: nat) | Realloc(ptr: nat, size: nat) | Write(ptr: nat)

  /** A client uses only what it owns; malloc(0) and free(NULL) do nothing. */
  predicate Allowed(ts: Tiles, op: Op) {
    match op
    case Malloc(size) => size < U64
    case Free(ptr) => ptr == 0 || LivePtr(ts, ptr)
    case Realloc(ptr, size) => size < U64 && (ptr == 0 || (LivePtr(ts, ptr) && CopyGuard(ts, ptr, size)))
    case Write(ptr) => LivePtr(ts, ptr)
  }

  /** The block whose bytes the operation may change. */
  function Touched(op: Op): nat {
    if op.Malloc? then 0 else op.ptr
  }

  function Apply(ts: Tiles, op: Op): Tiles
    requires Allowed(ts, op)
  {
    match op
    case Malloc(size) => if size == 0 then ts else MallocTiles(ts, AlignUp(size))
    case Free(ptr) => if ptr == 0 then ts else FreeTiles(ts, ptr)
    case Realloc(ptr, size) =>
      if ptr == 0 then (if size == 0 then ts else MallocTiles(ts, AlignUp(size)))
      else if size == 0 then FreeTiles(ts, ptr)
      else if LiveTile(ts, ptr).size >= size || MallocPtr(ts, AlignUp(size)) == 0 then ts
      else FreeTiles(MallocTiles(ts, AlignUp(size)), ptr)
    case Write(_) => ts
  }

  ghost predicate Run(tss: seq<Tiles>, ops: seq<Op>) {
    && |tss| == |ops| + 1
    && forall i :: 0 <= i < |ops| ==> Allowed(tss[i], ops[i]) && tss[i + 1] == Apply(tss[i], ops[i])
  }

  lemma ApplyKeepsWellFormed(ts: Tiles, op: Op, lo: nat, hi: nat)
    requires WellFormed(ts, lo, hi) && Allowed(ts, op)
    ensures WellFormed(Apply(ts, op), lo, hi)
  {
    hide WellFormed, MallocTiles, FreeTiles, CopyGuard, MallocPtr;
    match op
    case Malloc(size) => MallocKeeps(ts, lo, hi, size);
    case Free(ptr) => FreeKeeps(ts, lo, hi, ptr);
    case Realloc(ptr, size) =>
      MallocKeeps(ts, lo, hi, size);
      FreeKeeps(ts, lo, hi, ptr);
      FreeKeeps(MallocTiles(ts, AlignUp(size)), lo, hi, ptr);
    case Write(_) =>
  }

  lemma MallocKeeps(ts: Tiles, lo: nat, hi: nat, size: nat)
    requires WellFormed(ts, lo, hi) && size < U64
    ensures WellFormed(MallocTiles(ts, AlignUp(size)), lo, hi)
    ensures LiveSet(ts) <= LiveSet(MallocTiles(ts, AlignUp(size)))
  {
    hide WellFormed, TakeTile;
    var k := FirstFit(ts, AlignUp(size), 0);
    if k < |ts| {
      TakeKeepsWellFormed(ts, lo, hi, k, AlignUp(size));
      TakeLive(ts, k, AlignUp(size));
    }
  }

  lemma FreeKeeps(ts: Tiles, lo: nat, hi: nat, ptr: nat)
    requires WellFormed(ts, lo, hi)
    ensures WellFormed(FreeTiles(ts, ptr), lo, hi)
    ensures forall t :: t in LiveSet(ts) && t.Payload() != ptr ==> t in LiveSet(FreeTiles(ts, ptr))
  {
    hide ReleaseTile, Aligned, LiveSet;
    if LivePtr(ts, ptr) {
      var k := IndexAt(ts, ptr - HEADER, 0);
      ReleaseKeepsWellFormed(ts, lo, hi, k);
      ReleaseLive(ts, lo, hi, k);
    }
  }

  /** One operation, not freeing or moving t, leaves it live. */
  lemma StaysLive(ts: Tiles, op: Op, lo: nat, hi: nat, t: Tile)
    requires WellFormed(ts, lo, hi) && Allowed(ts, op) && t in LiveSet(ts)
    requires op.Write? || Touched(op) != t.Payload()
    ensures t in LiveSet(Apply(ts, op))
  {
    hide WellFormed, MallocTiles, FreeTiles, CopyGuard, LiveSet, MallocPtr;
    match op
    case Malloc(size) => MallocKeeps(ts, lo, hi, size);
    case Free(ptr) => FreeKeeps(ts, lo, hi, ptr);
    case Realloc(ptr, size) =>
      MallocKeeps(ts, lo, hi, size);
      FreeKeeps(ts, lo, hi, ptr);
      FreeKeeps(MallocTiles(ts, AlignUp(size)), lo, hi, ptr);
    case Write(_) =>
  }

  /** After any run of calls the blocks still tile the region and add up to it. */
  lemma {:induction false} RunKeepsWellFormed(tss: seq<Tiles>, ops: seq<Op>, lo: nat, hi: nat)
    requires Run(tss, ops) && WellFormed(tss[0], lo, hi)
    ensures WellFormed(tss[|ops|], lo, hi) && TotalSize(tss[|ops|]) == hi - lo
    decreases |ops|
  {
    if |ops| == 0 {
      TilesFillRegion(tss[0], lo, hi);
    } else {
      ApplyKeepsWellFormed(tss[0], ops[0], lo, hi);
      assert Run(tss[1..], ops[1..]);
      RunKeepsWellFormed(tss[1..], ops[1..], lo, hi);
    }
  }

  /** A block obtained at some moment of a run, and neither freed nor reallocated since, is still
      there, whole. */
  lemma {:induction false} LiveUntilFreed(tss: seq<Tiles>, ops: seq<Op>, lo: nat, hi: nat, t: Tile)
    requires Run(tss, ops) && WellFormed(tss[0], lo, hi)
    requires t in LiveSet(tss[0])
    requires forall i :: 0 <= i < |ops| ==> ops[i].Write? || Touched(ops[i]) != t.Payload()
    ensures t in LiveSet(tss[|ops|])
    decreases |ops|
  {
    if |ops| > 0 {
      ApplyKeepsWellFormed(tss[0], ops[0], lo, hi);
      StaysLive(tss[0], ops[0], lo, hi, t);
      assert Run(tss[1..], ops[1..]);
      LiveUntilFreed(tss[1..], ops[1..], lo, hi, t);
    }
  }

  // ---------------------------------------------------------------- the heap after a call, in numbers

  /** malloc takes the first free block that holds the rounded size. It cuts that block exactly when
      at least 24 bytes would be left over, 16 for a header and 8 to use; so a block handed out is
      at most 23 bytes larger than the rounded size, and behind a cut block stands a free one with
      all the rest. */
  lemma MallocExactly(ts: Tiles, size: nat, need: nat, k: nat)
    requires 0 < size <= 0xFFFF_FFFF_FFFF_FFF8 && need == (size + 7) / 8 * 8
    requires k < |ts| && ts[k].free && ts[k].size >= need && forall j :: 0 <= j < k ==> !(ts[j].free && ts[j].size >= need)
    ensures MallocPtr(ts, AlignUp(size)) == ts[k].addr + 16
    ensures var us, t := Apply(ts, Op.Malloc(size)), ts[k];
            && (t.size >= need + 24 ==>
                  us == ts[..k] + [Tile(t.addr, need, false), Tile(t.addr + 16 + need, t.size - need - 16, true)] + ts[k + 1..])
            && (t.size < need + 24 ==> us == ts[..k] + [Tile(t.addr, t.size, false)] + ts[k + 1..])
            && (exists u :: u in us && !u.free && u.addr + 16 == MallocPtr(ts, AlignUp(size)) && need <= u.size < need + 24)
  {
    Rounded(size);
    FirstFitIs(ts, need, 0, k);
    TakenTile(ts, k, need);
    hide FirstFit, AlignUp, TakeTile;
    var us := Apply(ts, Op.Malloc(size));
    assert us == TakeTile(ts, k, need);
    assert us[k] in us;
  }

  lemma Rounded(size: nat)
    requires size <= 0xFFFF_FFFF_FFFF_FFF8
    ensures AlignUp(size) == (size + 7) / 8 * 8
  {
  }

  lemma TakenTile(ts: Tiles, k: nat, need: nat)
    requires k < |ts| && ts[k].size >= need
    ensures var us, t := TakeTile(ts, k, need), ts[k];
            && k < |us| && us[k].addr == t.addr && !us[k].free
            && us[k].size == (if t.size >= need + 24 then need else t.size)
            && (t.size >= need + 24 ==>
                  us == ts[..k] + [Tile(t.addr, need, false), Tile(t.addr + 16 + need, t.size - need - 16, true)] + ts[k + 1..])
            && (t.size < need + 24 ==> us == ts[..k] + [Tile(t.addr, t.size, false)] + ts[k + 1..])
  {
  }

  /** It changes nothing when no free block holds the rounded size, or for size 0. */
  lemma MallocNone(ts: Tiles, size: nat, need: nat)
    requires size <= 0xFFFF_FFFF_FFFF_FFF8 && need == (size + 7) / 8 * 8
    requires size == 0 || forall j :: 0 <= j < |ts| ==> !(ts[j].free && ts[j].size >= need)
    ensures size > 0 ==> MallocPtr(ts, AlignUp(size)) == 0
    ensures Apply(ts, Op.Malloc(size)) == ts
  {
    Rounded(size);
    if size > 0 { FirstFitIs(ts, need, 0, |ts|); }
  }

  lemma {:induction false} FirstFitIs(ts: Tiles, need: nat, i: nat, k: nat)
    requires i <= k <= |ts| && (k < |ts| ==> ts[k].free && ts[k].size >= need)
    requires forall j :: i <= j < k ==> !(ts[j].free && ts[j].size >= need)
    ensures FirstFit(ts, need, i) == k
    decreases k - i
  {
    if i < k { FirstFitIs(ts, need, i + 1, k); }
  }

  /** free makes the block free again; it swallows the block behind it when that is free, and never
      the one in front of it. */
  lemma FreeExactly(ts: Tiles, lo: nat, hi: nat, k: nat)
    requires WellFormed(ts, lo, hi) && k < |ts| && !ts[k].free
    ensures Allowed(ts, Op.Free(ts[k].addr + 16))
    ensures var us, t := Apply(ts, Op.Free(ts[k].addr + 16)), ts[k];
            us == if k + 1 < |ts| && ts[k + 1].free
                  then ts[..k] + [Tile(t.addr, t.size + 16 + ts[k + 1].size, true)] + ts[k + 2..]
                  else ts[..k] + [Tile(t.addr, t.size, true)] + ts[k + 1..]
  {
    assert IndexAt(ts, ts[k].addr, 0) == k by { IndexIs(ts, lo, hi, k, 0); }
    hide IndexAt, WellFormed, ReleaseTile;
    FreedTile(ts, k);
  }

  lemma FreedTile(ts: Tiles, k: nat)
    requires k < |ts|
    ensures var t := ts[k];
            ReleaseTile(ts, k) ==
            if k + 1 < |ts| && ts[k + 1].free
            then ts[..k] + [Tile(t.addr, t.size + 16 + ts[k + 1].size, true)] + ts[k + 2..]
            else ts[..k] + [Tile(t.addr, t.size, true)] + ts[k + 1..]
  {
  }

  lemma {:induction false} IndexIs(ts: Tiles, lo: nat, hi: nat, k: nat, i: nat)
    requires Tiled(ts, lo, hi) && i <= k < |ts|
    ensures IndexAt(ts, ts[k].addr, i) == k
    decreases k - i
  {
    if i < k {
      TileOrder(ts, lo, hi, i, k);
      IndexIs(ts, lo, hi, k, i + 1);
    }
  }
}
