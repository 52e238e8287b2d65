/** doom_malloc.c over one flat memory. An address is an index into mem and 0 is NULL. */
module DoomHeap {
  import opened Bytes
  import opened HeapTiles
  import opened HeapMemory

  class Heap {
    const lo: nat
    const hi: nat
    const mem: array<Byte>
    var freeList: nat
    var inited: bool
    ghost var tiles: Tiles

    ghost predicate Valid()
      reads this, mem
    {
      && 0 < lo && lo % ALIGN == 0 && hi % ALIGN == 0 && lo + HEADER <= hi <= mem.Length && hi < U64
      && (if inited then Rep(mem[..], freeList, tiles, lo, hi) else tiles == Initial(lo, hi))
    }

    /** The heap region lo..hi of memory; nothing is written before the first call. */
    constructor (memory: array<Byte>, from: nat, to: nat)
      requires 0 < from && from % ALIGN == 0 && to % ALIGN == 0 && from + HEADER <= to <= memory.Length && to < U64
      ensures Valid() && mem == memory && lo == from && hi == to
      ensures tiles == Initial(lo, hi)
    {
      lo, hi, mem := from, to, memory;
      freeList, inited := 0, false;
      tiles := Initial(from, to);
    }

    method LoadWord(a: nat) returns (v: nat)
      requires a + 8 <= mem.Length
      ensures v == Word(mem[..], a)
    {
      v := FromLE(mem[..][a..a + 8]);
    }

    method StoreWord(a: nat, v: nat)
      requires a + 8 <= mem.Length
      modifies mem
      ensures mem[..] == PutWord(old(mem[..]), a, v)
    {
      var bytes := LE(v, 8);
      for i := 0 to 8
        invariant forall x :: 0 <= x < mem.Length ==> mem[x] == if a <= x < a + i then bytes[x - a] else old(mem[x])
      {
        mem[a + i] := bytes[i];
      }
    }

    method Init()
      requires Valid()
      modifies this`freeList, this`inited, mem
      ensures Valid() && inited
      ensures !old(inited) ==> tiles == [Tile(lo, hi - lo - 16, true)] && freeList == lo
      ensures OwnedKept(old(mem[..]), mem[..], tiles, lo, hi)
    {
      if inited {
        return;
      }
      inited := true;
      freeList := lo;
      StoreWord(lo, hi - lo - HEADER);
      StoreWord(lo + 8, 0);
      InitialRep(old(mem[..]), lo, hi);
    }

    /** *p = v, where p is &free_list or &prev->next. */
    method StoreLink(prev: nat, v: nat)
      requires prev > 0 ==> prev + HEADER <= mem.Length
      modifies this`freeList, mem
      ensures mem[..] == SetLink(old(mem[..]), prev, v)
      ensures freeList == SetHead(old(freeList), prev, v)
    {
      if prev == 0 {
        freeList := v;
      } else {
        StoreWord(prev + 8, v);
      }
    }

    /** First fit. The result is NULL for size 0 or when nothing fits, otherwise the payload of
        the first large enough free tile. */
    method Malloc(size: nat) returns (p: nat)
      requires Valid() && size < U64
      modifies this, mem
      ensures Valid()
      ensures tiles == Apply(old(tiles), Op.Malloc(size))
      ensures p == if size == 0 then 0 else MallocPtr(old(tiles), AlignUp(size))
      ensures p != 0 && size <= U64 - 8 ==>
                exists u :: u in tiles && !u.free && u.addr + 16 == p && (size + 7) / 8 * 8 <= u.size < (size + 7) / 8 * 8 + 24
      ensures OwnedKept(old(mem[..]), mem[..], old(tiles), lo, hi)
    {
      hide Rep, OwnedKept, FirstFit, TakeTile, AlignUp;
      OwnedSelf(mem[..], tiles, lo, hi);
      if size == 0 {
        return 0;
      }
      Init();
      var need := AlignUp(size);
      ghost var m := mem[..];
      var prev, cur; ghost var j;
      prev, cur, j := FindFit(need);
      if cur == 0 {
        return 0;
      }
      if size <= U64 - 8 {
        Rounded(size);
        MallocExactly(tiles, size, need, FirstFit(tiles, need, 0));
      }
      Take(prev, cur, need, j, FirstFit(tiles, need, 0));
      OwnedTrans(old(mem[..]), m, mem[..], old(tiles), lo, hi);
      return cur + HEADER;
    }

    /** malloc's search: p stands on cur, the first block of at least need bytes, or on NULL. */
    method FindFit(need: nat) returns (prev: nat, cur: nat, ghost j: nat)
      requires Valid() && inited
      ensures var k := FirstFit(tiles, need, 0);
              if k < |tiles| then cur != 0 && cur == tiles[k].addr && IsPrev(tiles, prev, j, k) else cur == 0
    {
      hide Rep, FirstFit, Aligned, Tiled, HeaderOk, NextFree;
      prev, cur, j := 0, freeList, 0;
      RepHead(mem[..], freeList, tiles, lo, hi);
      while cur != 0
        invariant j <= |tiles| && cur == NextFree(tiles, j)
        invariant if j == 0 then prev == 0 else tiles[j - 1].free && tiles[j - 1].addr == prev
        invariant FirstFit(tiles, need, j) == FirstFit(tiles, need, 0)
        decreases |tiles| - j
      {
        ghost var k := NextFreeIndex(tiles, j);
        RepNext(mem[..], freeList, tiles, lo, hi, j);
        FitSkip(tiles, need, j, k);
        var curSize := LoadWord(cur);
        if curSize >= need {
          return;
        }
        prev := cur;
        cur := LoadWord(cur + 8);
        j := k + 1;
      }
      FitNone(tiles, need, j, lo, hi, mem[..], freeList);
    }

    /** Unlinks the block at cur, or cuts need bytes off its front. */
    method Take(prev: nat, cur: nat, need: nat, ghost j: nat, ghost k: nat)
      requires Valid() && inited
      requires k < |tiles| && tiles[k].free && tiles[k].addr == cur && tiles[k].size >= need
      requires need % ALIGN == 0
      requires IsPrev(tiles, prev, j, k)
      modifies this, mem
      ensures Valid() && inited
      ensures tiles == TakeTile(old(tiles), k, need)
      ensures OwnedKept(old(mem[..]), mem[..], old(tiles), lo, hi)
    {
      hide Rep, OwnedKept, PutWord, SetLink, NextFree;
      ghost var m, head := mem[..], freeList;
      RepHeader(m, head, tiles, lo, hi, k);
      var curSize := LoadWord(cur);
      var next := LoadWord(cur + 8);
      if curSize >= need + HEADER + ALIGN {
        TakeSplitRep(m, head, tiles, lo, hi, prev, j, k, need);
        var rest := cur + HEADER + need;
        StoreWord(rest, curSize - need - HEADER);
        StoreWord(rest + 8, next);
        PrevBelow(tiles, lo, hi, prev, j, k);
        LinkCommutes(mem[..], prev, rest, cur, need);
        StoreLink(prev, rest);
        StoreWord(cur, need);
      } else {
        TakeWholeRep(m, head, tiles, lo, hi, prev, j, k);
        StoreLink(prev, next);
      }
      tiles := TakeTile(tiles, k, need);
    }

    /** Gives the block at ptr back, merging it with the tile after it when that one is free. */
    method Free(ptr: nat)
      requires Valid() && Allowed(tiles, Op.Free(ptr))
      modifies this, mem
      ensures Valid()
      ensures tiles == Apply(old(tiles), Op.Free(ptr))
      ensures OwnedKept(old(mem[..]), mem[..], old(tiles), lo, hi)
    {
      hide Rep, OwnedKept, PutWord, SetLink, NextFree, MergeStores;
      OwnedSelf(mem[..], tiles, lo, hi);
      if ptr == 0 {
        return;
      }
      Init();
      ghost var m, k := mem[..], IndexAt(tiles, ptr - HEADER, 0);
      var prev, cur; ghost var j;
      prev, cur, j := FindPlace(ptr - HEADER, k);
      Release(ptr - HEADER, prev, cur, j, k);
      OwnedTrans(old(mem[..]), m, mem[..], old(tiles), lo, hi);
    }

    /** The place of block b in the address-ordered list: p stands on cur, the first free block
        behind b. */
    method FindPlace(b: nat, ghost k: nat) returns (prev: nat, cur: nat, ghost j: nat)
      requires Valid() && inited
      requires k < |tiles| && !tiles[k].free && tiles[k].addr == b
      ensures IsPrev(tiles, prev, j, k) && cur == NextFree(tiles, k)
    {
      hide Rep, NextFree, NextFreeIndex, Aligned, HeaderOk;
      prev, cur, j := 0, freeList, 0;
      RepHead(mem[..], freeList, tiles, lo, hi);
      RepHeader(mem[..], freeList, tiles, lo, hi, k);
      while cur != 0 && cur < b
        invariant j <= k && cur == NextFree(tiles, j)
        invariant if j == 0 then prev == 0 else tiles[j - 1].free && tiles[j - 1].addr == prev
        decreases k - j
      {
        ghost var x := NextFreeAt(tiles, lo, hi, j);
        BelowIndex(tiles, lo, hi, x, k);
        RepNext(mem[..], freeList, tiles, lo, hi, j);
        prev := cur;
        cur := LoadWord(cur + 8);
        j := x + 1;
      }
      PassedAll(tiles, lo, hi, j, k);
    }

    /** The stores of free: link the block in, then absorb an adjacent successor. */
    method Release(b: nat, prev: nat, cur: nat, ghost j: nat, ghost k: nat)
      requires Valid() && inited
      requires k < |tiles| && !tiles[k].free && tiles[k].addr == b
      requires IsPrev(tiles, prev, j, k) && cur == NextFree(tiles, k)
      modifies this, mem
      ensures Valid() && inited
      ensures tiles == ReleaseTile(old(tiles), k)
      ensures OwnedKept(old(mem[..]), mem[..], old(tiles), lo, hi)
    {
      hide Rep, OwnedKept, PutWord, SetLink, NextFree, MergeStores, HeaderOk, Aligned;
      ghost var m, head, ts := mem[..], freeList, tiles;
      RepHeader(m, head, ts, lo, hi, k);
      PrevBelow(ts, lo, hi, prev, j, k);
      ReleaseAloneRep(m, head, ts, lo, hi, prev, j, k);
      StoreWord(b + 8, cur);
      StoreLink(prev, b);
      tiles := ts[k := ts[k].(free := true)];
      RepWords(mem[..], freeList, tiles, lo, hi, k);
      FreedNext(ts, tiles, k);
      SuccessorAdjacent(ts, lo, hi, k);
      var next := LoadWord(b + 8);
      var size := LoadWord(b);
      if next != 0 && b + HEADER + size == next {
        Absorb(b, next, size, m, head, ts, prev, j, k);
      }
    }

    /** b takes over the free block at next, which starts where b ends. */
    method Absorb(b: nat, next: nat, size: nat, ghost m: Memory, ghost head: nat, ghost ts: Tiles,
                  ghost prev: nat, ghost j: nat, ghost k: nat)
      requires Valid() && inited
      requires Rep(m, head, ts, lo, hi)
      requires k + 1 < |ts| && !ts[k].free && ts[k + 1].free && IsPrev(ts, prev, j, k)
      requires ts[k].addr == b && ts[k].size == size && ts[k + 1].addr == next == NextFree(ts, k)
      requires tiles == ts[k := ts[k].(free := true)] && ts[k].Payload() <= |m| && (prev > 0 ==> prev + HEADER <= b)
      requires freeList == SetHead(head, prev, b) && mem[..] == SetLink(PutWord(m, b + 8, next), prev, b)
      modifies this, mem
      ensures Valid() && inited
      ensures tiles == ReleaseTile(ts, k)
      ensures OwnedKept(m, mem[..], ts, lo, hi)
    {
      hide Rep, OwnedKept, PutWord, SetLink, NextFree, MergeStores, HeaderOk, Tiled, Aligned, ReleaseTile;
      RepWords(mem[..], freeList, tiles, lo, hi, k + 1);
      NextFreeSame(ts, tiles, k + 2, 0);
      ReleaseMergeRep(m, head, ts, lo, hi, prev, j, k);
      var nextSize := LoadWord(next);
      var after := LoadWord(next + 8);
      LinkCommutes(PutWord(m, b + 8, next), prev, b, b, size + HEADER + nextSize);
      LinkCommutes(PutWord(PutWord(m, b + 8, next), b, size + HEADER + nextSize), prev, b, b + 8, after);
      MergeUnfold(m, b, next, size + HEADER + nextSize, after);
      StoreWord(b, size + HEADER + nextSize);
      StoreWord(b + 8, after);
      tiles := ReleaseTile(ts, k);
    }

    /** Keeps the block when it is large enough, otherwise moves its contents to a new one. When
        the rounding of the size wraps, the new block may be smaller than the old one. */
    method Realloc(ptr: nat, newSize: nat) returns (n: nat)
      requires Valid() && Allowed(tiles, Op.Realloc(ptr, newSize))
      modifies this, mem
      ensures Valid() && tiles == Apply(old(tiles), Op.Realloc(ptr, newSize))
      ensures ptr == 0 ==> tiles == Apply(old(tiles), Op.Malloc(newSize))
                           && n == (if newSize == 0 then 0 else MallocPtr(old(tiles), AlignUp(newSize)))
      ensures ptr != 0 && newSize == 0 ==> n == 0 && tiles == Apply(old(tiles), Op.Free(ptr))
      ensures ptr != 0 && newSize != 0 ==>
                var ts, need := old(tiles), AlignUp(newSize);
                var t := ts[IndexAt(ts, ptr - HEADER, 0)];
                if t.size >= newSize then n == ptr && tiles == ts && mem[..] == old(mem[..])
                else
                  && n == MallocPtr(ts, need)
                  && tiles == (if n == 0 then ts else FreeTiles(MallocTiles(ts, need), ptr))
                  && (n != 0 ==> n + t.size <= mem.Length && ptr + t.size <= mem.Length
                                 && mem[n..n + t.size] == old(mem[ptr..ptr + t.size]))
      ensures OthersKept(old(mem[..]), mem[..], old(tiles), ptr)
    {
      hide Rep, OwnedKept, OthersKept, MallocTiles, FreeTiles, IndexAt, LiveSet, FirstFit, WellFormed;
      ghost var m0, ts, need := mem[..], tiles, AlignUp(newSize);
      if ptr == 0 {
        n := Malloc(newSize);
        OthersFromOwned(m0, mem[..], ts, lo, hi, ptr);
        return;
      }
      if newSize == 0 {
        Free(ptr);
        OthersFromOwned(m0, mem[..], ts, lo, hi, ptr);
        return 0;
      }
      ghost var t := LiveTile(ts, ptr);
      LiveMeansInited(lo, hi, ts, ptr, inited);
      LiveHeader(m0, freeList, ts, lo, hi, ptr);
      var size := LoadWord(ptr - HEADER);
      if size >= newSize {
        OwnedSelf(m0, ts, lo, hi);
        OthersFromOwned(m0, m0, ts, lo, hi, ptr);
        return ptr;
      }
      n := Malloc(newSize);
      OthersFromOwned(m0, mem[..], ts, lo, hi, ptr);
      MallocOutcome(ts, lo, hi, need, ptr);
      CopyFitsIff(ts, lo, hi, ptr, newSize);
      if n == 0 {
        return 0;
      }
      Relocate(ptr, n, size, m0, ts, t, NewTile(ts, need));
    }

    /** The last steps of realloc: copies the block at ptr into the one at n and frees it. */
    method Relocate(ptr: nat, n: nat, size: nat, ghost m0: Memory, ghost ts: Tiles, ghost t: Tile, ghost nt: Tile)
      requires Valid() && WellFormed(tiles, lo, hi) && LivePtr(tiles, ptr) && LiveTile(tiles, ptr) == t
      requires LiveSet(tiles) == LiveSet(ts) + {nt} && t in LiveSet(ts) && nt !in LiveSet(ts)
      requires ptr == t.Payload() && n == nt.Payload() && size == t.size <= nt.size
      requires |m0| == mem.Length && OwnedKept(m0, mem[..], ts, lo, hi)
      modifies this, mem
      ensures Valid() && tiles == FreeTiles(old(tiles), ptr)
      ensures n + size <= mem.Length && ptr + size <= mem.Length && mem[n..n + size] == m0[ptr..ptr + size]
      ensures OthersKept(m0, mem[..], ts, ptr)
    {
      hide Rep, OwnedKept, OthersKept, FreeTiles, IndexAt, LiveSet, WellFormed, LivePtr, LiveTile;
      ghost var m1, us := mem[..], tiles;
      LiveMeansInited(lo, hi, us, ptr, inited);
      LiveBlocksApart(us, lo, hi, t, nt);
      LiveBlocksApart(us, lo, hi, nt, t);
      Move(ptr, n, size, t, nt);
      ghost var m2 := mem[..];
      Free(ptr);
      MovedKept(m0, m1, m2, mem[..], ts, us, lo, hi, t, nt);
    }

    /** realloc's copy loop, from one live block into another. */
    method Move(ptr: nat, n: nat, size: nat, ghost t: Tile, ghost nt: Tile)
      requires Valid() && inited
      requires t in LiveSet(tiles) && nt in LiveSet(tiles) && t != nt
      requires ptr == t.Payload() && n == nt.Payload() && size == t.size <= nt.size
      modifies mem
      ensures Valid()
      ensures ptr + size <= mem.Length && n + size <= mem.Length
      ensures mem[n..n + size] == old(mem[ptr..ptr + size])
      ensures forall a :: 0 <= a < mem.Length && !(n <= a < n + size) ==> mem[a] == old(mem[a])
    {
      ghost var m1 := mem[..];
      LiveBlocksApart(tiles, lo, hi, t, nt);
      LiveBlocksApart(tiles, lo, hi, nt, t);
      hide Rep, LiveSet;
      CopyBytes(ptr, n, size);
      ClientRepAt(m1, mem[..], freeList, tiles, lo, hi, nt);
    }

    /** The loop itself, between disjoint stretches of memory. */
    method CopyBytes(from: nat, to: nat, size: nat)
      requires from + size <= mem.Length && to + size <= mem.Length
      requires from + size <= to || to + size <= from
      modifies mem
      ensures mem[to..to + size] == old(mem[from..from + size])
      ensures forall a :: 0 <= a < mem.Length && !(to <= a < to + size) ==> mem[a] == old(mem[a])
    {
      for i := 0 to size
        invariant forall a :: to <= a < to + i ==> mem[a] == old(mem[from + (a - to)])
        invariant forall a :: 0 <= a < mem.Length && !(to <= a < to + i) ==> mem[a] == old(mem[a])
      {
        mem[to + i] := mem[from + i];
      }
    }

    /** A client writing one byte of a block it owns. */
    method ClientWrite(ptr: nat, i: nat, v: Byte)
      requires Valid() && LivePtr(tiles, ptr) && i < tiles[IndexAt(tiles, ptr - HEADER, 0)].size
      modifies mem
      ensures Valid()
      ensures ptr + i < mem.Length && mem[..] == old(mem[..])[ptr + i := v]
      ensures OthersKept(old(mem[..]), mem[..], tiles, ptr)
    {
      ghost var k := IndexAt(tiles, ptr - HEADER, 0);
      RepHeader(mem[..], freeList, tiles, lo, hi, k);
      mem[ptr + i] := v;
      assert mem[..] == old(mem[..])[ptr + i := v];
      ClientRep(old(mem[..]), mem[..], freeList, tiles, lo, hi, k);
      WriteKeepsOthers(old(mem[..]), tiles, lo, hi, ptr, i, v);
    }
  }

  lemma WriteKeepsOthers(m: Memory, ts: Tiles, lo: nat, hi: nat, ptr: nat, i: nat, v: Byte)
    requires WellFormed(ts, lo, hi) && hi <= |m| && LivePtr(ts, ptr) && i < LiveTile(ts, ptr).size
    ensures ptr + i < |m| && OthersKept(m, m[ptr + i := v], ts, ptr)
  {
    hide WellFormed;
    var t := LiveTile(ts, ptr);
    assert t in LiveSet(ts);
    LiveBlocksApart(ts, lo, hi, t, t);
    forall u | u in LiveSet(ts) && u.Payload() != ptr ensures u.End() <= t.addr || t.End() <= u.addr {
      LiveBlocksApart(ts, lo, hi, t, u);
    }
  }

  lemma InitialRep(m: Memory, lo: nat, hi: nat)
    requires 0 < lo && lo % ALIGN == 0 && hi % ALIGN == 0 && lo + HEADER <= hi <= |m| && hi < U64
    ensures var m' := PutWord(PutWord(m, lo, hi - lo - HEADER), lo + 8, 0);
            Rep(m', lo, Initial(lo, hi), lo, hi) && OwnedKept(m, m', Initial(lo, hi), lo, hi)
  {
    hide PutWord, Word;
    var x := PutWord(m, lo, hi - lo - HEADER);
    WordAfterPut(m, lo, hi - lo - HEADER, lo);
    WordAfterPut(x, lo + 8, 0, lo);
    WordAfterPut(x, lo + 8, 0, lo + 8);
  }

  lemma RepHead(m: Memory, head: nat, ts: Tiles, lo: nat, hi: nat)
    requires Rep(m, head, ts, lo, hi)
    ensures head == NextFree(ts, 0)
  {
  }

  lemma RepHeader(m: Memory, head: nat, ts: Tiles, lo: nat, hi: nat, k: nat)
    requires Rep(m, head, ts, lo, hi) && k < |ts|
    ensures WellFormed(ts, lo, hi) && HeaderOk(m, ts, k) && 0 < lo <= ts[k].addr && ts[k].End() <= hi <= |m|
  {
    TileOrder(ts, lo, hi, k, k);
  }

  lemma {:induction false} FitSkip(ts: Tiles, need: nat, j: nat, k: nat)
    requires j <= k <= |ts| && forall i :: j <= i < k ==> !ts[i].free
    ensures FirstFit(ts, need, j) == FirstFit(ts, need, k)
    ensures k < |ts| && !(ts[k].free && ts[k].size >= need) ==> FirstFit(ts, need, k) == FirstFit(ts, need, k + 1)
    ensures k < |ts| && ts[k].free && ts[k].size >= need ==> FirstFit(ts, need, k) == k
    decreases k - j
  {
    if j < k { FitSkip(ts, need, j + 1, k); }
  }

  /** The list ended: no tile from j on is free. */
  lemma FitNone(ts: Tiles, need: nat, j: nat, lo: nat, hi: nat, m: Memory, head: nat)
    requires j <= |ts| && NextFree(ts, j) == 0
    requires Rep(m, head, ts, lo, hi)
    ensures FirstFit(ts, need, j) == |ts|
  {
    var k := NextFreeIndex(ts, j);
    if k < |ts| {
      TileLow(ts, lo, hi, k);
    }
    FitSkip(ts, need, j, k);
  }

  lemma OwnedTrans(m0: Memory, m1: Memory, m2: Memory, ts: Tiles, lo: nat, hi: nat)
    requires OwnedKept(m0, m1, ts, lo, hi) && OwnedKept(m1, m2, ts, lo, hi)
    ensures OwnedKept(m0, m2, ts, lo, hi)
  {
  }

  /** A non-null next pointer is the address of the next free tile, whose header can be read. */
  lemma RepNext(m: Memory, head: nat, ts: Tiles, lo: nat, hi: nat, j: nat)
    requires Rep(m, head, ts, lo, hi) && j <= |ts| && NextFree(ts, j) != 0
    ensures var k := NextFreeIndex(ts, j);
            && k < |ts| && ts[k].free && ts[k].addr == NextFree(ts, j)
            && 0 < ts[k].addr && ts[k].addr + HEADER <= |m|
            && Word(m, ts[k].addr) == ts[k].size && Word(m, ts[k].addr + 8) == NextFree(ts, k + 1)
  {
    RepHeader(m, head, ts, lo, hi, NextFreeIndex(ts, j));
  }

  lemma RepWords(m: Memory, head: nat, ts: Tiles, lo: nat, hi: nat, k: nat)
    requires Rep(m, head, ts, lo, hi) && k <= |ts|
    ensures k < |ts| ==>
              && 0 < lo <= ts[k].addr && ts[k].End() <= hi <= |m|
              && Word(m, ts[k].addr) == ts[k].size
              && (ts[k].free ==> Word(m, ts[k].addr + 8) == NextFree(ts, k + 1))
  {
    if k < |ts| { RepHeader(m, head, ts, lo, hi, k); }
  }

  lemma NextFreeAt(ts: Tiles, lo: nat, hi: nat, j: nat) returns (x: nat)
    requires Tiled(ts, lo, hi) && j <= |ts| && NextFree(ts, j) != 0
    ensures x == NextFreeIndex(ts, j) && x < |ts| && ts[x].free && ts[x].addr == NextFree(ts, j)
    ensures j <= x && forall i :: j <= i < x ==> !ts[i].free
  {
    x := NextFreeIndex(ts, j);
  }

  /** Addresses order indices. */
  lemma BelowIndex(ts: Tiles, lo: nat, hi: nat, x: nat, k: nat)
    requires Tiled(ts, lo, hi) && x < |ts| && k < |ts|
    ensures ts[x].addr < ts[k].addr <==> x < k
  {
    if x < k { TileOrder(ts, lo, hi, x, k); } else { TileOrder(ts, lo, hi, k, x); }
  }

  /** The search stopped: nothing between j and k is free. */
  lemma PassedAll(ts: Tiles, lo: nat, hi: nat, j: nat, k: nat)
    requires Tiled(ts, lo, hi) && 0 < lo && j <= k < |ts| && !ts[k].free
    requires NextFree(ts, j) == 0 || NextFree(ts, j) >= ts[k].addr
    ensures forall i :: j <= i < k ==> !ts[i].free
    ensures NextFree(ts, j) == NextFree(ts, k)
  {
    var x := NextFreeIndex(ts, j);
    if x < |ts| {
      TileLow(ts, lo, hi, x);
      BelowIndex(ts, lo, hi, x, k);
    }
    NextFreeSkip(ts, j, k);
  }

  lemma FreedNext(ts: Tiles, us: Tiles, k: nat)
    requires k < |ts| && !ts[k].free && us == ts[k := ts[k].(free := true)]
    ensures NextFree(us, k + 1) == NextFree(ts, k)
  {
    NextFreeSame(ts, us, k + 1, 0);
  }

  /** The next free tile starts where tile k ends exactly when it is the very next tile. */
  lemma SuccessorAdjacent(ts: Tiles, lo: nat, hi: nat, k: nat)
    requires Tiled(ts, lo, hi) && 0 < lo && k < |ts| && !ts[k].free
    ensures NextFree(ts, k) != 0 && NextFree(ts, k) == ts[k].End() <==> k + 1 < |ts| && ts[k + 1].free
    ensures k + 1 < |ts| && ts[k + 1].free ==> NextFree(ts, k) == ts[k + 1].addr
  {
    if k + 1 < |ts| {
      assert ts[k].End() == ts[k + 1].addr;
      TileLow(ts, lo, hi, k + 1);
    }
    var x := NextFreeIndex(ts, k);
    if x < |ts| && x > k + 1 {
      TileOrder(ts, lo, hi, k + 1, x);
    }
  }

  lemma MergeUnfold(m: Memory, b: nat, next: nat, size: nat, after: nat)
    requires b + HEADER <= |m|
    ensures MergeStores(m, b, next, size, after) == PutWord(PutWord(PutWord(m, b + 8, next), b, size), b + 8, after)
  {
  }

  /** Client writes inside a live payload leave the structure alone. */
  lemma ClientRepAt(m: Memory, m': Memory, head: nat, ts: Tiles, lo: nat, hi: nat, t: Tile)
    requires Rep(m, head, ts, lo, hi) && |m'| == |m| && t in LiveSet(ts)
    requires forall a :: 0 <= a < |m| && !(t.Payload() <= a < t.End()) ==> m'[a] == m[a]
    ensures Rep(m', head, ts, lo, hi)
  {
    hide Rep;
    var k :| 0 <= k < |ts| && !ts[k].free && ts[k] == t;
    ClientRep(m, m', head, ts, lo, hi, k);
  }

  lemma ClientRep(m: Memory, m': Memory, head: nat, ts: Tiles, lo: nat, hi: nat, k: nat)
    requires Rep(m, head, ts, lo, hi) && |m'| == |m| && k < |ts| && !ts[k].free
    requires forall a :: 0 <= a < |m| && !(ts[k].Payload() <= a < ts[k].End()) ==> m'[a] == m[a]
    ensures Rep(m', head, ts, lo, hi)
  {
    hide NextFree;
    forall i | 0 <= i < |ts| ensures HeaderOk(m', ts, i) {
      assert HeaderOk(m, ts, i);
      var a := ts[i].addr;
      if i < k { TileOrder(ts, lo, hi, i, k); } else if k < i { TileOrder(ts, lo, hi, k, i); }
      assert m'[a..a + 8] == m[a..a + 8];
      if ts[i].free { assert m'[a + 8..a + HEADER] == m[a + 8..a + HEADER]; }
    }
  }

  /** Every live block but the one at ptr holds the same bytes. */
  ghost predicate OthersKept(m: Memory, m': Memory, ts: Tiles, ptr: nat) {
    && |m'| == |m|
    && forall u, a :: u in LiveSet(ts) && u.Payload() != ptr && u.Payload() <= a < u.End() && a < |m| ==> m'[a] == m[a]
  }

  lemma OwnedLive(m: Memory, m': Memory, ts: Tiles, lo: nat, hi: nat, u: Tile)
    requires OwnedKept(m, m', ts, lo, hi) && u in LiveSet(ts)
    ensures forall a :: u.Payload() <= a < u.End() && a < |m| ==> m'[a] == m[a]
  {
  }

  lemma OthersFromOwned(m: Memory, m': Memory, ts: Tiles, lo: nat, hi: nat, ptr: nat)
    requires OwnedKept(m, m', ts, lo, hi)
    ensures OthersKept(m, m', ts, ptr)
  {
    forall u, a | u in LiveSet(ts) && u.Payload() != ptr && u.Payload() <= a < u.End() && a < |m|
      ensures m'[a] == m[a]
    {
      OwnedLive(m, m', ts, lo, hi, u);
    }
  }

  // ---------------------------------------------------------------- bytes over whole runs

  /** The tiles follow the operations, and each operation keeps the bytes of every live block but
      the one it names. */
  ghost predicate MemoryRun(ms: seq<Memory>, tss: seq<Tiles>, ops: seq<Op>) {
    && Run(tss, ops) && |ms| == |tss|
    && forall i :: 0 <= i < |ops| ==> OthersKept(ms[i], ms[i + 1], tss[i], Touched(ops[i]))
  }

  /** A live block that no operation names is still live, with every byte, at the end of any run
      of allocations, frees, reallocations and client writes. */
  lemma {:induction false} BytesUntilTouched(ms: seq<Memory>, tss: seq<Tiles>, ops: seq<Op>, lo: nat, hi: nat, t: Tile)
    requires MemoryRun(ms, tss, ops) && WellFormed(tss[0], lo, hi) && hi <= |ms[0]|
    requires t in LiveSet(tss[0])
    requires forall i :: 0 <= i < |ops| ==> Touched(ops[i]) != t.Payload()
    ensures t in LiveSet(tss[|ops|]) && t.End() <= |ms[0]| == |ms[|ops|]|
    ensures ms[|ops|][t.Payload()..t.End()] == ms[0][t.Payload()..t.End()]
    decreases |ops|
  {
    hide LiveSet, WellFormed, Apply, Allowed;
    LiveBlocksApart(tss[0], lo, hi, t, t);
    if |ops| > 0 {
      ApplyKeepsWellFormed(tss[0], ops[0], lo, hi);
      StaysLive(tss[0], ops[0], lo, hi, t);
      assert MemoryRun(ms[1..], tss[1..], ops[1..]);
      assert OthersKept(ms[0], ms[1], tss[0], Touched(ops[0]));
      BytesUntilTouched(ms[1..], tss[1..], ops[1..], lo, hi, t);
      assert ms[1][t.Payload()..t.End()] == ms[0][t.Payload()..t.End()];
    }
  }

  lemma LiveMeansInited(lo: nat, hi: nat, ts: Tiles, ptr: nat, inited: bool)
    requires LivePtr(ts, ptr) && lo + HEADER <= hi
    requires !inited ==> ts == Initial(lo, hi)
    ensures inited
  {
  }

  lemma LiveHeader(m: Memory, head: nat, ts: Tiles, lo: nat, hi: nat, ptr: nat)
    requires Rep(m, head, ts, lo, hi) && LivePtr(ts, ptr)
    ensures WellFormed(ts, lo, hi)
    ensures ptr >= HEADER && ptr <= |m| && Word(m, ptr - HEADER) == LiveTile(ts, ptr).size
  {
    RepHeader(m, head, ts, lo, hi, IndexAt(ts, ptr - HEADER, 0));
  }

  /** Looking a live block up by its payload finds that block. */
  lemma LiveIndex(ts: Tiles, lo: nat, hi: nat, t: Tile)
    requires WellFormed(ts, lo, hi) && t in LiveSet(ts)
    ensures LivePtr(ts, t.Payload()) && LiveTile(ts, t.Payload()) == t
  {
    var i :| 0 <= i < |ts| && !ts[i].free && ts[i] == t;
    var k := IndexAt(ts, t.addr, 0);
    if k < i { TileOrder(ts, lo, hi, k, i); }
  }

  /** malloc either fails and changes nothing, or adds NewTile and keeps the block at ptr. */
  lemma MallocOutcome(ts: Tiles, lo: nat, hi: nat, need: nat, ptr: nat)
    requires WellFormed(ts, lo, hi) && LivePtr(ts, ptr) && need % ALIGN == 0
    ensures MallocPtr(ts, need) == 0 ==> MallocTiles(ts, need) == ts
    ensures MallocPtr(ts, need) != 0 ==>
              var us, t := MallocTiles(ts, need), LiveTile(ts, ptr);
              && FirstFit(ts, need, 0) < |ts|
              && WellFormed(us, lo, hi)
              && NewTile(ts, need).size >= need && NewTile(ts, need).Payload() == MallocPtr(ts, need)
              && LiveSet(us) == LiveSet(ts) + {NewTile(ts, need)}
              && t in LiveSet(ts) && NewTile(ts, need) !in LiveSet(ts)
              && t.Payload() == ptr && LivePtr(us, ptr) && LiveTile(us, ptr) == t
  {
    hide FirstFit, IndexAt, TakeTile;
    if MallocPtr(ts, need) != 0 {
      var k := FirstFit(ts, need, 0);
      var t := LiveTile(ts, ptr);
      TakeKeepsWellFormed(ts, lo, hi, k, need);
      TakeLive(ts, k, need);
      assert t in LiveSet(ts);
      NotYetLive(ts, lo, hi, k, NewTile(ts, need));
      LiveIndex(TakeTile(ts, k, need), lo, hi, t);
    }
  }

  lemma NotYetLive(ts: Tiles, lo: nat, hi: nat, k: nat, nt: Tile)
    requires WellFormed(ts, lo, hi) && k < |ts| && ts[k].free && nt.addr == ts[k].addr
    ensures nt !in LiveSet(ts)
  {
    forall i | 0 <= i < |ts| && !ts[i].free ensures ts[i] != nt {
      HeadersApart(ts, lo, hi, i, k);
    }
  }

  /** The bytes after a moving realloc: m0 before, m1 after malloc, m2 after the copy, m3 after free. */
  lemma MovedKept(m0: Memory, m1: Memory, m2: Memory, m3: Memory, ts: Tiles, us: Tiles, lo: nat, hi: nat, t: Tile, nt: Tile)
    requires WellFormed(us, lo, hi) && hi <= |m0| && |m1| == |m0| && |m2| == |m0|
    requires LiveSet(us) == LiveSet(ts) + {nt} && t in LiveSet(ts) && nt !in LiveSet(ts) && t.size <= nt.size
    requires OwnedKept(m0, m1, ts, lo, hi) && OwnedKept(m2, m3, us, lo, hi)
    requires t.End() <= hi && nt.End() <= hi
    requires m2[nt.Payload()..nt.Payload() + t.size] == m1[t.Payload()..t.End()]
    requires forall a :: 0 <= a < |m1| && !(nt.Payload() <= a < nt.Payload() + t.size) ==> m2[a] == m1[a]
    ensures m3[nt.Payload()..nt.Payload() + t.size] == m0[t.Payload()..t.End()]
    ensures OthersKept(m0, m3, ts, t.Payload())
  {
    hide OwnedKept, LiveSet, WellFormed;
    OwnedLive(m0, m1, ts, lo, hi, t);
    OwnedLive(m2, m3, us, lo, hi, nt);
    assert |m3| == |m0| by { OwnedLength(m2, m3, us, lo, hi); }
    assert m1[t.Payload()..t.End()] == m0[t.Payload()..t.End()];
    assert m3[nt.Payload()..nt.Payload() + t.size] == m2[nt.Payload()..nt.Payload() + t.size];
    forall u, a | u in LiveSet(ts) && u.Payload() != t.Payload() && u.Payload() <= a < u.End() && a < |m0|
      ensures m3[a] == m0[a]
    {
      OwnedLive(m0, m1, ts, lo, hi, u);
      OwnedLive(m2, m3, us, lo, hi, u);
      LiveBlocksApart(us, lo, hi, u, nt);
    }
  }

  lemma OwnedLength(m: Memory, m': Memory, ts: Tiles, lo: nat, hi: nat)
    requires OwnedKept(m, m', ts, lo, hi)
    ensures |m'| == |m|
  {
  }
}
