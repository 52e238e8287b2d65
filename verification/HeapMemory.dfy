/** Block headers inside a flat memory: an 8-byte size and an 8-byte next pointer in front of
    every payload. Rep says that the words in memory spell out a list of tiles. */
module HeapMemory {
  import opened Bytes
  import opened HeapTiles

  type Memory = seq<Byte>

  /** The 64-bit word at address a. */
  function Word(m: Memory, a: nat): nat
    requires a + 8 <= |m|
  {
    FromLE(m[a..a + 8])
  }

  function PutWord(m: Memory, a: nat, v: nat): (r: Memory)
    requires a + 8 <= |m|
    ensures |r| == |m|
    ensures forall i :: 0 <= i < |m| && !(a <= i < a + 8) ==> r[i] == m[i]
  {
    m[..a] + LE(v, 8) + m[a + 8..]
  }

  lemma WordAfterPut(m: Memory, a: nat, v: nat, b: nat)
    requires a + 8 <= |m| && b + 8 <= |m| && v < U64
    requires b == a || b + 8 <= a || a + 8 <= b
    ensures Word(PutWord(m, a, v), b) == if b == a then v else Word(m, b)
  {
    var r := PutWord(m, a, v);
    if b == a {
      assert r[a..a + 8] == LE(v, 8);
      Powers();
      LERoundTrip(v, 8);
    } else {
      assert r[b..b + 8] == m[b..b + 8];
    }
  }

  function SizeAt(m: Memory, a: nat): nat
    requires a + HEADER <= |m|
  {
    Word(m, a)
  }

  function NextAt(m: Memory, a: nat): nat
    requires a + HEADER <= |m|
  {
    Word(m, a + 8)
  }

  /** The header of tile i holds its size, and if it is free the address of the next free tile. */
  ghost predicate HeaderOk(m: Memory, ts: Tiles, i: nat)
    requires i < |ts|
  {
    && ts[i].addr + HEADER <= |m|
    && SizeAt(m, ts[i].addr) == ts[i].size
    && (ts[i].free ==> NextAt(m, ts[i].addr) == NextFree(ts, i + 1))
  }

  /** The tiles are what the words in memory and the list head say. */
  ghost predicate Rep(m: Memory, head: nat, ts: Tiles, lo: nat, hi: nat) {
    && 0 < lo && hi <= |m| && hi < U64
    && WellFormed(ts, lo, hi)
    && head == NextFree(ts, 0)
    && (forall i :: 0 <= i < |ts| ==> HeaderOk(m, ts, i))
  }

  /** m' differs from m inside free tiles and headers of ts only: what clients own is intact. */
  ghost predicate OwnedKept(m: Memory, m': Memory, ts: Tiles, lo: nat, hi: nat) {
    && |m'| == |m|
    && (forall a :: 0 <= a < |m| && !(lo <= a < hi) ==> m'[a] == m[a])
    && (forall i, a :: 0 <= i < |ts| && !ts[i].free && ts[i].Payload() <= a < ts[i].End() && a < |m| ==> m'[a] == m[a])
  }

  lemma NextFreeSkip(ts: Tiles, i: nat, j: nat)
    requires i <= j <= |ts| && forall k :: i <= k < j ==> !ts[k].free
    ensures NextFreeIndex(ts, i) == NextFreeIndex(ts, j)
    decreases j - i
  {
    if i < j { NextFreeSkip(ts, i + 1, j); }
  }

  /** ts and us agree from i on, us shifted by d. */
  lemma {:induction false} NextFreeSame(ts: Tiles, us: Tiles, i: nat, d: int)
    requires i <= |ts| && 0 <= i + d && |us| == |ts| + d
    requires forall k :: i <= k < |ts| ==> us[k + d] == ts[k]
    ensures NextFree(us, i + d) == NextFree(ts, i)
    decreases |ts| - i
  {
    if i < |ts| {
      assert us[i + d] == ts[i];
      if !ts[i].free {
        NextFreeSame(ts, us, i + 1, d);
      }
    }
  }

  /** Before the first difference only the address of the first free tile after it matters. */
  lemma {:induction false} NextFreePrefix(ts: Tiles, us: Tiles, i: nat, k: nat)
    requires i <= k <= |ts| && k <= |us|
    requires forall j :: i <= j < k ==> us[j].free == ts[j].free && us[j].addr == ts[j].addr
    ensures NextFreeIndex(ts, i) < k ==> NextFree(us, i) == NextFree(ts, i)
    ensures NextFreeIndex(ts, i) >= k ==> NextFree(us, i) == NextFree(us, k) && NextFree(ts, i) == NextFree(ts, k)
    decreases k - i
  {
    if i < k && !ts[i].free {
      NextFreePrefix(ts, us, i + 1, k);
    }
  }

  /** Two headers never overlap. */
  lemma HeadersApart(ts: Tiles, lo: nat, hi: nat, i: nat, j: nat)
    requires Tiled(ts, lo, hi) && i < |ts| && j < |ts| && i != j
    ensures ts[i].addr + HEADER <= ts[j].addr || ts[j].addr + HEADER <= ts[i].addr
    ensures ts[i].addr != ts[j].addr
  {
    if i < j { TileOrder(ts, lo, hi, i, j); } else { TileOrder(ts, lo, hi, j, i); }
  }

  /** The last free tile before k, or none: where the pointer-to-pointer p points when it
      stands on k. prev is that tile's address, 0 for the list head itself. */
  ghost predicate IsPrev(ts: Tiles, prev: nat, j: nat, k: nat) {
    && j <= k <= |ts|
    && (forall i :: j <= i < k ==> !ts[i].free)
    && (if j == 0 then prev == 0 else j <= |ts| && ts[j - 1].free && ts[j - 1].addr == prev)
  }

  /** *p = v: the head or the next field of the tile at prev. */
  function SetLink(m: Memory, prev: nat, v: nat): (r: Memory)
    requires prev > 0 ==> prev + HEADER <= |m|
    ensures |r| == |m|
  {
    if prev == 0 then m else PutWord(m, prev + 8, v)
  }

  function SetHead(head: nat, prev: nat, v: nat): nat {
    if prev == 0 then v else head
  }

  /** Header i is what it was, but for the next field of the tile at prev. */
  ghost predicate HeaderKept(m: Memory, m': Memory, ts: Tiles, prev: nat, i: nat)
    requires i < |ts|
  {
    var a := ts[i].addr;
    && a + HEADER <= |m| && a + HEADER <= |m'|
    && SizeAt(m', a) == SizeAt(m, a)
    && (a != prev ==> NextAt(m', a) == NextAt(m, a))
  }

  /** An edit of the list from tile k on, together with the relinking of the free tile before
      it, gives memory that spells out the edited list, provided every header from k on does. */
  lemma EditRep(m: Memory, head: nat, ts: Tiles, lo: nat, hi: nat, m': Memory, head': nat, us: Tiles,
                prev: nat, j: nat, k: nat)
    requires Rep(m, head, ts, lo, hi)
    requires WellFormed(us, lo, hi) && |m'| == |m|
    requires k < |ts| && k < |us| && IsPrev(ts, prev, j, k)
    requires forall i :: 0 <= i < k ==> us[i] == ts[i]
    requires forall i :: 0 <= i < k ==> HeaderKept(m, m', ts, prev, i)
    requires prev > 0 ==> prev + HEADER <= |m| && NextAt(m', prev) == NextFree(us, k)
    requires head' == SetHead(head, prev, NextFree(us, k))
    requires forall i :: k <= i < |us| ==> HeaderOk(m', us, i)
    ensures Rep(m', head', us, lo, hi)
  {
    hide NextFree, NextFreeIndex;
    forall i | 0 <= i < k ensures HeaderOk(m', us, i) {
      assert HeaderOk(m, ts, i);
      assert HeaderKept(m, m', ts, prev, i);
      if ts[i].free {
        TileLow(ts, lo, hi, i);
        NextFreeAcross(ts, us, lo, hi, prev, j, k, i);
      }
    }
    HeadAcross(ts, us, lo, hi, prev, j, k);
  }

  lemma NextFreeAcross(ts: Tiles, us: Tiles, lo: nat, hi: nat, prev: nat, j: nat, k: nat, i: nat)
    requires 0 < lo && Tiled(ts, lo, hi) && i < k < |ts| && k < |us| && IsPrev(ts, prev, j, k)
    requires forall x :: 0 <= x < k ==> us[x] == ts[x]
    requires ts[i].free
    ensures NextFree(us, i + 1) == if ts[i].addr == prev then NextFree(us, k) else NextFree(ts, i + 1)
  {
    NextFreePrefix(ts, us, i + 1, k);
    TileLow(ts, lo, hi, i);
    if ts[i].addr == prev {
      if i != j - 1 { HeadersApart(ts, lo, hi, i, j - 1); }
      NextFreeSkip(us, j, k);
    } else {
      PrefixHit(ts, i + 1, j - 1);
    }
  }

  lemma HeadAcross(ts: Tiles, us: Tiles, lo: nat, hi: nat, prev: nat, j: nat, k: nat)
    requires 0 < lo && Tiled(ts, lo, hi) && k < |ts| && k < |us| && IsPrev(ts, prev, j, k)
    requires forall x :: 0 <= x < k ==> us[x] == ts[x]
    ensures NextFree(us, 0) == if prev == 0 then NextFree(us, k) else NextFree(ts, 0)
  {
    NextFreePrefix(ts, us, 0, k);
    if j == 0 {
      NextFreeSkip(us, 0, k);
    } else {
      PrefixHit(ts, 0, j - 1);
      TileLow(ts, lo, hi, j - 1);
    }
  }

  lemma {:induction false} PrefixHit(ts: Tiles, i: nat, j: nat)
    requires i <= j < |ts| && ts[j].free
    ensures NextFreeIndex(ts, i) <= j
    decreases j - i
  {
    if i < j && !ts[i].free { PrefixHit(ts, i + 1, j); }
  }

  /** A word stored outside a header leaves it alone. */
  lemma HeaderAfterPut(m: Memory, a: nat, v: nat, b: nat)
    requires a + 8 <= |m| && b + HEADER <= |m| && v < U64
    requires b + HEADER <= a || a + 8 <= b
    ensures SizeAt(PutWord(m, a, v), b) == SizeAt(m, b) && NextAt(PutWord(m, a, v), b) == NextAt(m, b)
  {
    WordAfterPut(m, a, v, b);
    WordAfterPut(m, a, v, b + 8);
  }

  /** *p = v seen from every header: only the next field of the tile at prev changes. */
  lemma SetLinkHeaders(m: Memory, ts: Tiles, lo: nat, hi: nat, prev: nat, j: nat, v: nat, b: nat)
    requires 0 < lo && Tiled(ts, lo, hi) && hi <= |m| && v < U64
    requires if j == 0 then prev == 0 else j <= |ts| && ts[j - 1].addr == prev
    requires b + HEADER <= |m|
    requires prev == 0 || b == prev || b + HEADER <= prev || prev + HEADER <= b
    ensures prev > 0 ==> prev + HEADER <= |m|
    ensures SizeAt(SetLink(m, prev, v), b) == SizeAt(m, b)
    ensures NextAt(SetLink(m, prev, v), b) == if prev > 0 && b == prev then v else NextAt(m, b)
  {
    if j > 0 {
      TileOrder(ts, lo, hi, j - 1, j - 1);
    }
    if prev > 0 {
      WordAfterPut(m, prev + 8, v, b);
      WordAfterPut(m, prev + 8, v, b + 8);
    }
  }

  // ---------------------------------------------------------------- an edit and its link

  /** Header i is the same in both memories. */
  ghost predicate SameHeader(m: Memory, m': Memory, ts: Tiles, i: nat)
    requires i < |ts|
  {
    var a := ts[i].addr;
    && a + HEADER <= |m| && a + HEADER <= |m'|
    && SizeAt(m', a) == SizeAt(m, a) && NextAt(m', a) == NextAt(m, a)
  }

  lemma LinkKeeps(m: Memory, m1: Memory, ts: Tiles, lo: nat, hi: nat, prev: nat, j: nat, v: nat, i: nat)
    requires 0 < lo && Tiled(ts, lo, hi) && hi <= |m| && |m1| == |m| && v < U64 && i < |ts|
    requires if j == 0 then prev == 0 else j <= |ts| && ts[j - 1].addr == prev
    requires SameHeader(m, m1, ts, i)
    ensures prev > 0 ==> prev + HEADER <= |m|
    ensures HeaderKept(m, SetLink(m1, prev, v), ts, prev, i)
  {
    if j > 0 { TileOrder(ts, lo, hi, j - 1, j - 1); }
    PrevApart(ts, lo, hi, prev, j, i);
    SetLinkHeaders(m1, ts, lo, hi, prev, j, v, ts[i].addr);
  }

  lemma LinkKeepsAfter(m1: Memory, us: Tiles, prev: nat, v: nat, i: nat)
    requires i < |us| && v < U64 && HeaderOk(m1, us, i)
    requires prev > 0 ==> prev + HEADER <= us[i].addr
    ensures prev > 0 ==> prev + HEADER <= |m1|
    ensures HeaderOk(SetLink(m1, prev, v), us, i)
  {
    hide SizeAt, NextAt, NextFree, Word;
    if prev > 0 { HeaderAfterPut(m1, prev + 8, v, us[i].addr); }
  }

  lemma LinkLands(m: Memory, ts: Tiles, lo: nat, hi: nat, prev: nat, j: nat, v: nat)
    requires 0 < lo && Tiled(ts, lo, hi) && hi <= |m| && v < U64
    requires if j == 0 then prev == 0 else j <= |ts| && ts[j - 1].addr == prev
    ensures prev > 0 ==> prev + HEADER <= |m| && NextAt(SetLink(m, prev, v), prev) == v
  {
    if j > 0 {
      TileOrder(ts, lo, hi, j - 1, j - 1);
      SetLinkHeaders(m, ts, lo, hi, prev, j, v, prev);
    }
  }

  /** m1 already holds the edited headers from tile k on; linking the free tile before k to the
      first free tile of the rest completes the edit. */
  lemma LinkEdit(m: Memory, head: nat, ts: Tiles, lo: nat, hi: nat, m1: Memory, us: Tiles, prev: nat, j: nat, k: nat)
    requires Rep(m, head, ts, lo, hi) && |m1| == |m|
    requires WellFormed(us, lo, hi)
    requires k < |ts| && k < |us| && IsPrev(ts, prev, j, k)
    requires forall i :: 0 <= i < k ==> us[i] == ts[i] && SameHeader(m, m1, ts, i)
    requires forall i :: k <= i < |us| ==> HeaderOk(m1, us, i)
    ensures prev > 0 ==> prev + HEADER <= |m|
    ensures var v := NextFree(us, k);
            Rep(SetLink(m1, prev, v), SetHead(head, prev, v), us, lo, hi)
  {
    hide NextFree, SizeAt, NextAt, SetLink, HeaderOk, HeaderKept, SameHeader;
    var v := NextFree(us, k);
    NextFreeBelow(us, lo, hi, k);
    LinkLands(m1, ts, lo, hi, prev, j, v);
    var m' := SetLink(m1, prev, v);
    forall i | 0 <= i < k ensures HeaderKept(m, m', ts, prev, i) {
      LinkKeeps(m, m1, ts, lo, hi, prev, j, v, i);
    }
    forall i | k <= i < |us| ensures HeaderOk(m', us, i) {
      assert k <= i < |us| ==> HeaderOk(m1, us, i);
      PrevBelowEdit(ts, us, lo, hi, prev, j, k, i);
      LinkKeepsAfter(m1, us, prev, v, i);
    }
    EditRep(m, head, ts, lo, hi, m', SetHead(head, prev, v), us, prev, j, k);
  }

  lemma PrevBelowEdit(ts: Tiles, us: Tiles, lo: nat, hi: nat, prev: nat, j: nat, k: nat, i: nat)
    requires 0 < lo && Tiled(us, lo, hi) && j <= k <= i < |us| && k < |ts|
    requires if j == 0 then prev == 0 else ts[j - 1].addr == prev
    requires forall x :: 0 <= x < k ==> us[x] == ts[x]
    ensures prev > 0 ==> prev + HEADER <= us[i].addr
  {
    if j > 0 { TileOrder(us, lo, hi, j - 1, i); }
  }

  /** Stores to different words commute. */
  lemma LinkCommutes(m: Memory, prev: nat, v: nat, a: nat, w: nat)
    requires a + 8 <= |m| && prev + HEADER <= |m|
    requires prev == 0 || prev + HEADER <= a
    ensures PutWord(SetLink(m, prev, v), a, w) == SetLink(PutWord(m, a, w), prev, v)
  {
  }

  // ---------------------------------------------------------------- malloc's stores

  /** Taking tile k whole: only the link before it changes. */
  lemma TakeWholeRep(m: Memory, head: nat, ts: Tiles, lo: nat, hi: nat, prev: nat, j: nat, k: nat)
    requires Rep(m, head, ts, lo, hi)
    requires k < |ts| && ts[k].free && IsPrev(ts, prev, j, k)
    ensures prev > 0 ==> prev + HEADER <= |m|
    ensures var us := ts[k := ts[k].(free := false)];
            var v := NextFree(ts, k + 1);
            Rep(SetLink(m, prev, v), SetHead(head, prev, v), us, lo, hi)
            && OwnedKept(m, SetLink(m, prev, v), ts, lo, hi)
  {
    hide OwnedKept, NextFree, SizeAt, NextAt, SetLink, HeaderOk, SameHeader, Tiled, Aligned;
    var us := ts[k := ts[k].(free := false)];
    WholeWellFormed(ts, lo, hi, k);
    forall i | 0 <= i < k ensures us[i] == ts[i] && SameHeader(m, m, ts, i) {
      HeaderThere(m, ts, i);
    }
    forall i | k <= i < |us| ensures HeaderOk(m, us, i) {
      TakenHeader(m, ts, us, k, i);
    }
    NextFreeSame(ts, us, k + 1, 0);
    TakenNotFree(us, k);
    LinkEdit(m, head, ts, lo, hi, m, us, prev, j, k);
    OwnedSelf(m, ts, lo, hi);
    LinkOwned(m, m, ts, lo, hi, prev, j, NextFree(ts, k + 1));
  }

  lemma HeaderFresh(m: Memory, us: Tiles, i: nat)
    requires i < |us| && us[i].addr + HEADER <= |m|
    requires SizeAt(m, us[i].addr) == us[i].size
    requires us[i].free ==> NextAt(m, us[i].addr) == NextFree(us, i + 1)
    ensures HeaderOk(m, us, i)
  {
  }

  lemma HeaderMoved(m: Memory, m1: Memory, ts: Tiles, x: nat, us: Tiles, i: nat)
    requires x < |ts| && i < |us| && us[i] == ts[x] && HeaderOk(m, ts, x)
    requires ts[x].addr + HEADER <= |m| && |m1| == |m|
    requires SizeAt(m1, ts[x].addr) == SizeAt(m, ts[x].addr) && NextAt(m1, ts[x].addr) == NextAt(m, ts[x].addr)
    requires NextFree(us, i + 1) == NextFree(ts, x + 1)
    ensures HeaderOk(m1, us, i)
  {
  }

  lemma HeaderThere(m: Memory, ts: Tiles, i: nat)
    requires i < |ts| && HeaderOk(m, ts, i)
    ensures SameHeader(m, m, ts, i)
  {
  }

  lemma TakenHeader(m: Memory, ts: Tiles, us: Tiles, k: nat, i: nat)
    requires k <= i < |ts| && us == ts[k := ts[k].(free := false)] && HeaderOk(m, ts, i)
    ensures HeaderOk(m, us, i)
  {
    hide NextFree, SizeAt, NextAt;
    NextFreeSame(ts, us, i + 1, 0);
  }

  lemma TakenNotFree(us: Tiles, k: nat)
    requires k < |us| && !us[k].free
    ensures NextFree(us, k) == NextFree(us, k + 1)
  {
  }

  lemma WholeWellFormed(ts: Tiles, lo: nat, hi: nat, k: nat)
    requires WellFormed(ts, lo, hi) && k < |ts|
    ensures forall f: bool :: WellFormed(ts[k := ts[k].(free := f)], lo, hi)
  {
    forall f: bool ensures WellFormed(ts[k := ts[k].(free := f)], lo, hi) {
      var us := ts[k := ts[k].(free := f)];
      forall i | 0 <= i < |us| - 1 ensures us[i].End() == us[i + 1].addr {
        assert ts[i].End() == ts[i + 1].addr;
      }
    }
  }

  lemma NextFreeBelow(ts: Tiles, lo: nat, hi: nat, i: nat)
    requires Tiled(ts, lo, hi) && i <= |ts|
    ensures NextFree(ts, i) <= hi
  {
    var k := NextFreeIndex(ts, i);
    if k < |ts| { TileOrder(ts, lo, hi, k, k); }
  }

  /** The header at prev is one of the tiles' headers, so it is apart from every other. */
  lemma PrevApart(ts: Tiles, lo: nat, hi: nat, prev: nat, j: nat, i: nat)
    requires Tiled(ts, lo, hi) && i < |ts|
    requires if j == 0 then prev == 0 else j <= |ts| && ts[j - 1].addr == prev
    ensures prev == 0 || ts[i].addr == prev || ts[i].addr + HEADER <= prev || prev + HEADER <= ts[i].addr
  {
    if j > 0 && i != j - 1 { HeadersApart(ts, lo, hi, i, j - 1); }
  }

  lemma PrevBelow(ts: Tiles, lo: nat, hi: nat, prev: nat, j: nat, i: nat)
    requires Tiled(ts, lo, hi) && j <= i < |ts| && 0 < lo
    requires if j == 0 then prev == 0 else ts[j - 1].addr == prev
    ensures prev < ts[i].addr
    ensures prev > 0 ==> prev + HEADER <= ts[i].addr
  {
    TileLow(ts, lo, hi, i);
    if j > 0 { TileOrder(ts, lo, hi, j - 1, i); }
  }

  /** A word stored inside a header or a free tile is not client memory. */
  lemma PutOwned(m: Memory, m0: Memory, ts: Tiles, lo: nat, hi: nat, k: nat, a: nat, v: nat)
    requires Tiled(ts, lo, hi) && hi <= |m| && k < |ts|
    requires OwnedKept(m0, m, ts, lo, hi)
    requires ts[k].addr <= a && a + 8 <= (if ts[k].free then ts[k].End() else ts[k].Payload())
    ensures a + 8 <= |m| && OwnedKept(m0, PutWord(m, a, v), ts, lo, hi)
  {
    TileOrder(ts, lo, hi, k, k);
    forall i, x | 0 <= i < |ts| && !ts[i].free && ts[i].Payload() <= x < ts[i].End() && x < |m|
      ensures PutWord(m, a, v)[x] == m0[x]
    {
      if i < k { TileOrder(ts, lo, hi, i, k); } else if k < i { TileOrder(ts, lo, hi, k, i); }
    }
  }

  lemma LinkOwned(m1: Memory, m: Memory, ts: Tiles, lo: nat, hi: nat, prev: nat, j: nat, v: nat)
    requires Tiled(ts, lo, hi) && hi <= |m| && 0 < lo && |m1| == |m|
    requires if j == 0 then prev == 0 else j <= |ts| && ts[j - 1].addr == prev
    requires OwnedKept(m, m1, ts, lo, hi)
    ensures prev > 0 ==> prev + HEADER <= |m|
    ensures OwnedKept(m, SetLink(m1, prev, v), ts, lo, hi)
  {
    hide OwnedKept;
    if j > 0 {
      TileOrder(ts, lo, hi, j - 1, j - 1);
      PutOwned(m1, m, ts, lo, hi, j - 1, prev + 8, v);
    }
  }

  /** The memory after the three header stores of a split, link apart. */
  function SplitStores(m: Memory, b: nat, need: nat, rest: nat, restSize: nat, next: nat): Memory
    requires b + 8 <= |m| && rest + HEADER <= |m|
  {
    PutWord(PutWord(PutWord(m, rest, restSize), rest + 8, next), b, need)
  }

  lemma SplitHeaders(m: Memory, b: nat, need: nat, rest: nat, restSize: nat, next: nat, a: nat)
    requires b + HEADER <= rest && rest + HEADER <= |m| && a + HEADER <= |m|
    requires need < U64 && restSize < U64 && next < U64
    ensures var m1 := SplitStores(m, b, need, rest, restSize, next);
            && SizeAt(m1, b) == need
            && SizeAt(m1, rest) == restSize && NextAt(m1, rest) == next
            && (a + HEADER <= b || rest + HEADER <= a ==> SizeAt(m1, a) == SizeAt(m, a) && NextAt(m1, a) == NextAt(m, a))
  {
    hide Word, PutWord;
    var x := PutWord(m, rest, restSize);
    var y := PutWord(x, rest + 8, next);
    WordAfterPut(y, b, need, b);
    WordAfterPut(y, b, need, rest);
    WordAfterPut(y, b, need, rest + 8);
    WordAfterPut(x, rest + 8, next, rest);
    WordAfterPut(x, rest + 8, next, rest + 8);
    WordAfterPut(m, rest, restSize, rest);
    if a + HEADER <= b || rest + HEADER <= a {
      HeaderAfterPut(m, rest, restSize, a);
      HeaderAfterPut(x, rest + 8, next, a);
      HeaderAfterPut(y, b, need, a);
    }
  }

  lemma TakeSplitRep(m: Memory, head: nat, ts: Tiles, lo: nat, hi: nat, prev: nat, j: nat, k: nat, need: nat)
    requires Rep(m, head, ts, lo, hi)
    requires k < |ts| && ts[k].free && IsPrev(ts, prev, j, k)
    requires Splits(ts[k], need) && need % ALIGN == 0
    ensures ts[k].End() <= |m| && (prev > 0 ==> prev + HEADER <= |m|)
    ensures var b := ts[k].addr;
            var rest := b + HEADER + need;
            var m1 := SplitStores(m, b, need, rest, ts[k].size - need - HEADER, NextFree(ts, k + 1));
            Rep(SetLink(m1, prev, rest), SetHead(head, prev, rest), TakeTile(ts, k, need), lo, hi)
            && OwnedKept(m, SetLink(m1, prev, rest), ts, lo, hi)
  {
    hide OwnedKept, NextFree, SizeAt, NextAt, SetLink, SplitStores, HeaderOk, SameHeader, TakeTile, Tiled, Aligned;
    TileOrder(ts, lo, hi, k, k);
    var b, us := ts[k].addr, TakeTile(ts, k, need);
    var rest, restSize, next := b + HEADER + need, ts[k].size - need - HEADER, NextFree(ts, k + 1);
    var m1 := SplitStores(m, b, need, rest, restSize, next);
    TakeKeepsWellFormed(ts, lo, hi, k, need);
    SplitTiles(ts, us, k, need);
    SplitLength(m, b, need, rest, restSize, next);
    forall i | 0 <= i < k ensures us[i] == ts[i] && SameHeader(m, m1, ts, i) {
      SplitBelow(m, ts, lo, hi, k, need, i);
    }
    forall i | k <= i < |us| ensures HeaderOk(m1, us, i) {
      SplitAbove(m, ts, us, lo, hi, k, need, i);
    }
    LinkEdit(m, head, ts, lo, hi, m1, us, prev, j, k);
    SplitOwned(m, ts, lo, hi, prev, j, k, need, restSize, next, rest);
  }

  lemma SplitTiles(ts: Tiles, us: Tiles, k: nat, need: nat)
    requires k < |ts| && Splits(ts[k], need) && us == TakeTile(ts, k, need)
    ensures |us| == |ts| + 1
    ensures forall i :: 0 <= i < k ==> us[i] == ts[i]
    ensures us[k] == Tile(ts[k].addr, need, false)
    ensures us[k + 1] == Tile(ts[k].addr + HEADER + need, ts[k].size - need - HEADER, true)
    ensures forall i :: k + 1 < i < |us| ==> us[i] == ts[i - 1]
    ensures NextFree(us, k) == us[k + 1].addr
  {
    SecondFree(us, k);
  }

  lemma SplitBelow(m: Memory, ts: Tiles, lo: nat, hi: nat, k: nat, need: nat, i: nat)
    requires Tiled(ts, lo, hi) && hi <= |m| && hi < U64 && i < k < |ts| && Splits(ts[k], need)
    ensures ts[k].End() <= |m|
    ensures SameHeader(m, SplitStores(m, ts[k].addr, need, ts[k].addr + HEADER + need,
                                      ts[k].size - need - HEADER, NextFree(ts, k + 1)), ts, i)
  {
    hide SplitStores, NextFree;
    TileOrder(ts, lo, hi, i, k);
    TileOrder(ts, lo, hi, i, i);
    NextFreeBelow(ts, lo, hi, k + 1);
    SplitLength(m, ts[k].addr, need, ts[k].addr + HEADER + need, ts[k].size - need - HEADER, NextFree(ts, k + 1));
    SplitHeaders(m, ts[k].addr, need, ts[k].addr + HEADER + need, ts[k].size - need - HEADER,
                 NextFree(ts, k + 1), ts[i].addr);
  }

  lemma SplitAbove(m: Memory, ts: Tiles, us: Tiles, lo: nat, hi: nat, k: nat, need: nat, i: nat)
    requires Tiled(ts, lo, hi) && hi <= |m| && hi < U64 && k < |ts| && Splits(ts[k], need)
    requires us == TakeTile(ts, k, need) && k <= i < |us|
    requires forall x :: 0 <= x < |ts| ==> HeaderOk(m, ts, x)
    ensures ts[k].End() <= |m|
    ensures HeaderOk(SplitStores(m, ts[k].addr, need, ts[k].addr + HEADER + need,
                                 ts[k].size - need - HEADER, NextFree(ts, k + 1)), us, i)
  {
    hide SplitStores, NextFree, SizeAt, NextAt, TakeTile, HeaderOk;
    SplitTiles(ts, us, k, need);
    TileOrder(ts, lo, hi, k, k);
    NextFreeBelow(ts, lo, hi, k + 1);
    var b, rest, restSize, next := ts[k].addr, ts[k].addr + HEADER + need, ts[k].size - need - HEADER, NextFree(ts, k + 1);
    SplitLength(m, b, need, rest, restSize, next);
    if i <= k + 1 {
      SplitHeaders(m, b, need, rest, restSize, next, b);
      if i == k + 1 { NextFreeSame(ts, us, k + 1, 1); }
      HeaderFresh(SplitStores(m, b, need, rest, restSize, next), us, i);
    } else {
      SplitFar(m, ts, us, lo, hi, k, need, next, i);
    }
  }

  lemma SplitFar(m: Memory, ts: Tiles, us: Tiles, lo: nat, hi: nat, k: nat, need: nat, next: nat, i: nat)
    requires Tiled(ts, lo, hi) && hi <= |m| && hi < U64 && next < U64
    requires |us| == |ts| + 1 && k + 1 < i < |us| && Splits(ts[k], need)
    requires forall x :: k + 1 < x < |us| ==> us[x] == ts[x - 1]
    requires HeaderOk(m, ts, i - 1)
    ensures ts[k].End() <= |m|
    ensures HeaderOk(SplitStores(m, ts[k].addr, need, ts[k].addr + HEADER + need,
                                 ts[k].size - need - HEADER, next), us, i)
  {
    hide SplitStores, NextFree, SizeAt, NextAt, HeaderOk;
    var b, rest, restSize := ts[k].addr, ts[k].addr + HEADER + need, ts[k].size - need - HEADER;
    TileOrder(ts, lo, hi, k, i - 1);
    TileOrder(ts, lo, hi, k, k);
    SplitLength(m, b, need, rest, restSize, next);
    SplitHeaders(m, b, need, rest, restSize, next, ts[i - 1].addr);
    NextFreeSame(ts, us, i, 1);
    HeaderMoved(m, SplitStores(m, b, need, rest, restSize, next), ts, i - 1, us, i);
  }

  lemma SecondFree(us: Tiles, k: nat)
    requires k + 1 < |us| && !us[k].free && us[k + 1].free
    ensures NextFree(us, k) == us[k + 1].addr
  {
  }

  lemma SplitLength(m: Memory, b: nat, need: nat, rest: nat, restSize: nat, next: nat)
    requires b + 8 <= |m| && rest + HEADER <= |m|
    ensures |SplitStores(m, b, need, rest, restSize, next)| == |m|
  {
  }

  lemma SplitOwned(m: Memory, ts: Tiles, lo: nat, hi: nat, prev: nat, j: nat, k: nat, need: nat,
                   restSize: nat, next: nat, rest: nat)
    requires 0 < lo && Tiled(ts, lo, hi) && hi <= |m| && k < |ts| && ts[k].free && Splits(ts[k], need)
    requires rest == ts[k].addr + HEADER + need
    requires if j == 0 then prev == 0 else j <= |ts| && ts[j - 1].addr == prev
    ensures ts[k].End() <= |m| && (prev > 0 ==> prev + HEADER <= |m|)
    ensures var m1 := SplitStores(m, ts[k].addr, need, rest, restSize, next);
            |m1| == |m| && OwnedKept(m, SetLink(m1, prev, rest), ts, lo, hi)
  {
    hide PutWord, OwnedKept;
    TileOrder(ts, lo, hi, k, k);
    OwnedSelf(m, ts, lo, hi);
    var x := PutWord(m, rest, restSize);
    PutOwned(m, m, ts, lo, hi, k, rest, restSize);
    PutOwned(x, m, ts, lo, hi, k, rest + 8, next);
    var y := PutWord(x, rest + 8, next);
    PutOwned(y, m, ts, lo, hi, k, ts[k].addr, need);
    LinkOwned(PutWord(y, ts[k].addr, need), m, ts, lo, hi, prev, j, rest);
  }

  lemma OwnedSelf(m: Memory, ts: Tiles, lo: nat, hi: nat)
    ensures OwnedKept(m, m, ts, lo, hi)
  {
  }

  // ---------------------------------------------------------------- free's stores

  /** Tile k handed back without merging. */
  lemma ReleaseAloneRep(m: Memory, head: nat, ts: Tiles, lo: nat, hi: nat, prev: nat, j: nat, k: nat)
    requires Rep(m, head, ts, lo, hi)
    requires k < |ts| && !ts[k].free && IsPrev(ts, prev, j, k)
    ensures ts[k].Payload() <= |m| && (prev > 0 ==> prev + HEADER <= |m|)
    ensures var b := ts[k].addr;
            var m1 := PutWord(m, b + 8, NextFree(ts, k));
            Rep(SetLink(m1, prev, b), SetHead(head, prev, b), ts[k := ts[k].(free := true)], lo, hi)
            && OwnedKept(m, SetLink(m1, prev, b), ts, lo, hi)
  {
    hide OwnedKept, NextFree, SizeAt, NextAt, SetLink, PutWord;
    TileOrder(ts, lo, hi, k, k);
    var b, us := ts[k].addr, ts[k := ts[k].(free := true)];
    var next := NextFree(ts, k);
    TakenNotFree(ts, k);
    NextFreeBelow(ts, lo, hi, k);
    WholeWellFormed(ts, lo, hi, k);
    var m1 := PutWord(m, b + 8, next);
    forall i | 0 <= i < k ensures us[i] == ts[i] && SameHeader(m, m1, ts, i) {
      TileOrder(ts, lo, hi, i, k);
      HeaderAfterPut(m, b + 8, next, ts[i].addr);
    }
    forall i | k <= i < |us| ensures HeaderOk(m1, us, i) {
      AloneHeader(m, head, ts, lo, hi, k, i);
    }
    assert NextFree(us, k) == b by { FirstIsFree(us, k); }
    LinkEdit(m, head, ts, lo, hi, m1, us, prev, j, k);
    OwnedSelf(m, ts, lo, hi);
    PutOwned(m, m, ts, lo, hi, k, b + 8, next);
    LinkOwned(m1, m, ts, lo, hi, prev, j, b);
  }

  lemma AloneHeader(m: Memory, head: nat, ts: Tiles, lo: nat, hi: nat, k: nat, i: nat)
    requires Rep(m, head, ts, lo, hi) && k < |ts| && !ts[k].free && k <= i < |ts|
    ensures ts[k].Payload() <= |m|
    ensures HeaderOk(PutWord(m, ts[k].addr + 8, NextFree(ts, k)), ts[k := ts[k].(free := true)], i)
  {
    hide NextFree, SizeAt, NextAt, PutWord;
    TileOrder(ts, lo, hi, k, k);
    TakenNotFree(ts, k);
    NextFreeBelow(ts, lo, hi, k);
    assert HeaderOk(m, ts, i);
    NextFreeSame(ts, ts[k := ts[k].(free := true)], i + 1, 0);
    if i == k {
      WordThere(m, ts[k].addr, NextFree(ts, k));
    } else {
      TileOrder(ts, lo, hi, k, i);
      HeaderAfterPut(m, ts[k].addr + 8, NextFree(ts, k), ts[i].addr);
    }
  }

  lemma WordThere(m: Memory, b: nat, v: nat)
    requires b + HEADER <= |m| && v < U64
    ensures SizeAt(PutWord(m, b + 8, v), b) == SizeAt(m, b) && NextAt(PutWord(m, b + 8, v), b) == v
  {
    WordAfterPut(m, b + 8, v, b);
    WordAfterPut(m, b + 8, v, b + 8);
  }

  lemma FirstIsFree(us: Tiles, k: nat)
    requires k < |us| && us[k].free
    ensures NextFree(us, k) == us[k].addr
  {
  }

  /** The memory after the header stores of a merging free, link apart. */
  function MergeStores(m: Memory, b: nat, next: nat, size: nat, after: nat): Memory
    requires b + HEADER <= |m|
  {
    PutWord(PutWord(PutWord(m, b + 8, next), b, size), b + 8, after)
  }

  lemma MergeHeaders(m: Memory, b: nat, next: nat, size: nat, after: nat, a: nat)
    requires b + HEADER <= |m| && a + HEADER <= |m| && next < U64 && size < U64 && after < U64
    ensures var m1 := MergeStores(m, b, next, size, after);
            && |m1| == |m|
            && SizeAt(m1, b) == size && NextAt(m1, b) == after
            && (a + HEADER <= b || b + HEADER <= a ==> SizeAt(m1, a) == SizeAt(m, a) && NextAt(m1, a) == NextAt(m, a))
  {
    hide Word, PutWord;
    var x := PutWord(m, b + 8, next);
    var y := PutWord(x, b, size);
    WordAfterPut(x, b, size, b);
    WordAfterPut(y, b + 8, after, b);
    WordAfterPut(y, b + 8, after, b + 8);
    if a + HEADER <= b || b + HEADER <= a {
      HeaderAfterPut(m, b + 8, next, a);
      HeaderAfterPut(x, b, size, a);
      HeaderAfterPut(y, b + 8, after, a);
    }
  }

  /** Tile k handed back and merged with the free tile after it. */
  lemma ReleaseMergeRep(m: Memory, head: nat, ts: Tiles, lo: nat, hi: nat, prev: nat, j: nat, k: nat)
    requires Rep(m, head, ts, lo, hi)
    requires k + 1 < |ts| && !ts[k].free && ts[k + 1].free && IsPrev(ts, prev, j, k)
    ensures ts[k].Payload() <= |m| && (prev > 0 ==> prev + HEADER <= |m|)
    ensures var b := ts[k].addr;
            var size := ts[k].size + HEADER + ts[k + 1].size;
            var m1 := MergeStores(m, b, NextFree(ts, k), size, NextFree(ts, k + 2));
            |m1| == |m|
            && Rep(SetLink(m1, prev, b), SetHead(head, prev, b), ReleaseTile(ts, k), lo, hi)
            && OwnedKept(m, SetLink(m1, prev, b), ts, lo, hi)
  {
    hide OwnedKept, NextFree, SizeAt, NextAt, SetLink, MergeStores, HeaderOk, SameHeader, ReleaseTile, Tiled, Aligned;
    TileOrder(ts, lo, hi, k, k);
    var b, us := ts[k].addr, ReleaseTile(ts, k);
    var next, size, after := NextFree(ts, k), ts[k].size + HEADER + ts[k + 1].size, NextFree(ts, k + 2);
    ReleaseKeepsWellFormed(ts, lo, hi, k);
    MergeTiles(ts, us, k);
    var m1 := MergeStores(m, b, next, size, after);
    MergeOwned(m, ts, lo, hi, prev, j, k, next, size, after);
    forall i | 0 <= i < k ensures us[i] == ts[i] && SameHeader(m, m1, ts, i) {
      MergeBelow(m, ts, lo, hi, k, i);
    }
    forall i | k <= i < |us| ensures HeaderOk(m1, us, i) {
      MergeAbove(m, ts, us, lo, hi, k, i);
    }
    LinkEdit(m, head, ts, lo, hi, m1, us, prev, j, k);
  }

  lemma MergeTiles(ts: Tiles, us: Tiles, k: nat)
    requires k + 1 < |ts| && ts[k + 1].free && us == ReleaseTile(ts, k)
    ensures |us| == |ts| - 1
    ensures forall i :: 0 <= i < k ==> us[i] == ts[i]
    ensures us[k] == Tile(ts[k].addr, ts[k].size + HEADER + ts[k + 1].size, true)
    ensures forall i :: k < i < |us| ==> us[i] == ts[i + 1]
    ensures NextFree(us, k) == us[k].addr
  {
    FirstIsFree(us, k);
  }

  lemma MergeBelow(m: Memory, ts: Tiles, lo: nat, hi: nat, k: nat, i: nat)
    requires Tiled(ts, lo, hi) && hi <= |m| && hi < U64 && i < k && k + 1 < |ts|
    ensures ts[k].Payload() <= |m|
    ensures SameHeader(m, MergeStores(m, ts[k].addr, NextFree(ts, k), ts[k].size + HEADER + ts[k + 1].size,
                                      NextFree(ts, k + 2)), ts, i)
  {
    hide MergeStores, NextFree;
    TileOrder(ts, lo, hi, i, k);
    TileOrder(ts, lo, hi, k, k + 1);
    TileOrder(ts, lo, hi, i, i);
    NextFreeBelow(ts, lo, hi, k);
    NextFreeBelow(ts, lo, hi, k + 2);
    MergeHeaders(m, ts[k].addr, NextFree(ts, k), ts[k].size + HEADER + ts[k + 1].size, NextFree(ts, k + 2), ts[i].addr);
  }

  /** Tile i of the merged list, from the merged one on. */
  lemma MergedTile(ts: Tiles, us: Tiles, k: nat, i: nat)
    requires k + 1 < |ts| && ts[k + 1].free && us == ReleaseTile(ts, k) && k <= i < |ts| - 1
    ensures |us| == |ts| - 1
    ensures us[i] == if i == k then Tile(ts[k].addr, ts[k].size + HEADER + ts[k + 1].size, true) else ts[i + 1]
    ensures NextFree(us, i + 1) == NextFree(ts, i + 2)
  {
    hide NextFree;
    MergeTiles(ts, us, k);
    NextFreeSame(ts, us, i + 2, -1);
  }

  lemma MergeAbove(m: Memory, ts: Tiles, us: Tiles, lo: nat, hi: nat, k: nat, i: nat)
    requires Tiled(ts, lo, hi) && hi <= |m| && hi < U64 && k + 1 < |ts| && ts[k + 1].free
    requires us == ReleaseTile(ts, k) && k <= i < |us|
    requires forall x :: 0 <= x < |ts| ==> HeaderOk(m, ts, x)
    ensures ts[k].Payload() <= |m|
    ensures HeaderOk(MergeStores(m, ts[k].addr, NextFree(ts, k), ts[k].size + HEADER + ts[k + 1].size,
                                 NextFree(ts, k + 2)), us, i)
  {
    if i == k {
      MergedHeader(m, ts, us, lo, hi, k);
    } else {
      MergedTile(ts, us, k, k);
      MergeBehind(m, ts, us, lo, hi, k, i);
    }
  }

  lemma MergedHeader(m: Memory, ts: Tiles, us: Tiles, lo: nat, hi: nat, k: nat)
    requires Tiled(ts, lo, hi) && hi <= |m| && hi < U64 && k + 1 < |ts| && ts[k + 1].free
    requires us == ReleaseTile(ts, k)
    ensures ts[k].Payload() <= |m|
    ensures k < |us| && HeaderOk(MergeStores(m, ts[k].addr, NextFree(ts, k), ts[k].size + HEADER + ts[k + 1].size,
                                             NextFree(ts, k + 2)), us, k)
  {
    MergedTile(ts, us, k, k);
    TileOrder(ts, lo, hi, k, k + 1);
    NextFreeBelow(ts, lo, hi, k);
    NextFreeBelow(ts, lo, hi, k + 2);
    hide MergeStores, NextFree, SizeAt, NextAt, ReleaseTile, HeaderOk, Tiled;
    var b, next, size, after := ts[k].addr, NextFree(ts, k), ts[k].size + HEADER + ts[k + 1].size, NextFree(ts, k + 2);
    MergeHeaders(m, b, next, size, after, b);
    HeaderFresh(MergeStores(m, b, next, size, after), us, k);
  }

  lemma MergeBehind(m: Memory, ts: Tiles, us: Tiles, lo: nat, hi: nat, k: nat, i: nat)
    requires Tiled(ts, lo, hi) && hi <= |m| && hi < U64 && k + 1 < |ts| && ts[k + 1].free
    requires us == ReleaseTile(ts, k) && k < i < |us| && i + 1 < |ts| && HeaderOk(m, ts, i + 1)
    ensures ts[k].Payload() <= |m|
    ensures HeaderOk(MergeStores(m, ts[k].addr, NextFree(ts, k), ts[k].size + HEADER + ts[k + 1].size,
                                 NextFree(ts, k + 2)), us, i)
  {
    hide MergeStores, NextFree, SizeAt, NextAt, ReleaseTile, HeaderOk, Tiled;
    MergedTile(ts, us, k, i);
    TileOrder(ts, lo, hi, k, k + 1);
    TileOrder(ts, lo, hi, k, i + 1);
    TileOrder(ts, lo, hi, i + 1, i + 1);
    NextFreeBelow(ts, lo, hi, k);
    NextFreeBelow(ts, lo, hi, k + 2);
    var b, next, size, after := ts[k].addr, NextFree(ts, k), ts[k].size + HEADER + ts[k + 1].size, NextFree(ts, k + 2);
    MergeHeaders(m, b, next, size, after, ts[i + 1].addr);
    HeaderMoved(m, MergeStores(m, b, next, size, after), ts, i + 1, us, i);
  }

  lemma MergeOwned(m: Memory, ts: Tiles, lo: nat, hi: nat, prev: nat, j: nat, k: nat, next: nat, size: nat, after: nat)
    requires 0 < lo && Tiled(ts, lo, hi) && hi <= |m| && k < |ts|
    requires if j == 0 then prev == 0 else j <= |ts| && ts[j - 1].addr == prev
    ensures ts[k].Payload() <= |m| && (prev > 0 ==> prev + HEADER <= |m|)
    ensures var m1 := MergeStores(m, ts[k].addr, next, size, after);
            |m1| == |m| && OwnedKept(m, SetLink(m1, prev, ts[k].addr), ts, lo, hi)
  {
    hide PutWord, OwnedKept;
    TileOrder(ts, lo, hi, k, k);
    var b := ts[k].addr;
    OwnedSelf(m, ts, lo, hi);
    PutOwned(m, m, ts, lo, hi, k, b + 8, next);
    var x := PutWord(m, b + 8, next);
    PutOwned(x, m, ts, lo, hi, k, b, size);
    var y := PutWord(x, b, size);
    PutOwned(y, m, ts, lo, hi, k, b + 8, after);
    LinkOwned(PutWord(y, b + 8, after), m, ts, lo, hi, prev, j, b);
  }

  // ---------------------------------------------------------------- the free list itself

  /** The addresses of the free tiles from index i on. */
  function FreeAddrs(ts: Tiles, i: nat): seq<nat>
    requires i <= |ts|
    decreases |ts| - i
  {
    if i == |ts| then [] else if ts[i].free then [ts[i].addr] + FreeAddrs(ts, i + 1) else FreeAddrs(ts, i + 1)
  }

  /** Following next pointers from a visits addrs and then ends in NULL. */
  ghost predicate IsList(m: Memory, a: nat, addrs: seq<nat>)
    decreases |addrs|
  {
    if |addrs| == 0 then a == 0
    else a == addrs[0] && a != 0 && a + HEADER <= |m| && IsList(m, NextAt(m, a), addrs[1..])
  }

  ghost predicate StrictlyOrdered(s: seq<nat>) {
    forall i, j :: 0 <= i < j < |s| ==> s[i] < s[j]
  }

  lemma {:induction false} ListFromTile(m: Memory, head: nat, ts: Tiles, lo: nat, hi: nat, i: nat)
    requires Rep(m, head, ts, lo, hi) && i <= |ts|
    ensures IsList(m, NextFree(ts, i), FreeAddrs(ts, i))
    decreases |ts| - i
  {
    if i < |ts| {
      ListFromTile(m, head, ts, lo, hi, i + 1);
      TileOrder(ts, lo, hi, i, i);
      assert HeaderOk(m, ts, i);
      if ts[i].free {
        FirstIsFree(ts, i);
        assert FreeAddrs(ts, i)[1..] == FreeAddrs(ts, i + 1);
      } else {
        TakenNotFree(ts, i);
      }
    }
  }

  lemma {:induction false} FreeAddrsOrdered(ts: Tiles, lo: nat, hi: nat, i: nat)
    requires Tiled(ts, lo, hi) && i <= |ts|
    ensures StrictlyOrdered(FreeAddrs(ts, i))
    decreases |ts| - i
  {
    if i < |ts| {
      FreeAddrsOrdered(ts, lo, hi, i + 1);
      var rest := FreeAddrs(ts, i + 1);
      forall a | a in rest ensures ts[i].addr < a {
        FreeAddrsAre(ts, i + 1, a);
        var k :| i + 1 <= k < |ts| && ts[k].free && ts[k].addr == a;
        TileOrder(ts, lo, hi, i, k);
      }
      if ts[i].free { OrderedCons(ts[i].addr, rest); }
    }
  }

  lemma OrderedCons(a: nat, s: seq<nat>)
    requires StrictlyOrdered(s) && forall x :: x in s ==> a < x
    ensures StrictlyOrdered([a] + s)
  {
    var r := [a] + s;
    forall i, j | 0 <= i < j < |r| ensures r[i] < r[j] {
      assert s[j - 1] in s;
    }
  }

  /** The free list in memory is finite, strictly address-ordered and lists exactly the free tiles. */
  lemma FreeListOrdered(m: Memory, head: nat, ts: Tiles, lo: nat, hi: nat)
    requires Rep(m, head, ts, lo, hi)
    ensures IsList(m, head, FreeAddrs(ts, 0)) && StrictlyOrdered(FreeAddrs(ts, 0))
    ensures forall a :: a in FreeAddrs(ts, 0) <==> exists i :: 0 <= i < |ts| && ts[i].free && ts[i].addr == a
  {
    hide FreeAddrs, StrictlyOrdered, IsList;
    ListFromTile(m, head, ts, lo, hi, 0);
    FreeAddrsOrdered(ts, lo, hi, 0);
    forall a ensures a in FreeAddrs(ts, 0) <==> exists i :: 0 <= i < |ts| && ts[i].free && ts[i].addr == a {
      FreeAddrsAre(ts, 0, a);
    }
  }

  lemma {:induction false} FreeAddrsAre(ts: Tiles, i: nat, a: nat)
    requires i <= |ts|
    ensures a in FreeAddrs(ts, i) <==> exists k :: i <= k < |ts| && ts[k].free && ts[k].addr == a
    decreases |ts| - i
  {
    if i < |ts| {
      FreeAddrsAre(ts, i + 1, a);
      assert a in FreeAddrs(ts, i) <==> (ts[i].free && ts[i].addr == a) || a in FreeAddrs(ts, i + 1);
    }
  }

  /** Where the headers stand: the size in the 8 bytes at the block's address, least significant
      first, the next pointer of a free block in the 8 bytes behind it. */
  lemma HeaderBytes(m: Memory, head: nat, ts: Tiles, lo: nat, hi: nat, k: nat)
    requires Rep(m, head, ts, lo, hi) && k < |ts|
    ensures ts[k].addr + 16 + ts[k].size <= |m|
    ensures m[ts[k].addr..ts[k].addr + 8] == LE(ts[k].size, 8)
    ensures ts[k].free ==> m[ts[k].addr + 8..ts[k].addr + 16] == LE(NextFree(ts, k + 1), 8)
  {
    assert HeaderOk(m, ts, k);
    TileHigh(ts, lo, hi, k);
    var a := ts[k].addr;
    FromLERoundTrip(m[a..a + 8]);
    FromLERoundTrip(m[a + 8..a + 16]);
  }

  /** The next pointer names the next free block, and is 0 behind the last one. */
  lemma NextFreeMeans(ts: Tiles, k: nat)
    requires k < |ts|
    ensures (NextFree(ts, k) == 0 && forall j :: k <= j < |ts| ==> !ts[j].free)
            || exists j :: k <= j < |ts| && ts[j].free && ts[j].addr == NextFree(ts, k) && forall i :: k <= i < j ==> !ts[i].free
  {
    var j := NextFreeIndex(ts, k);
    assert forall i :: k <= i < j ==> !ts[i].free;
  }
}
