/** File data along a cluster chain: what the write loop leaves in the data region, what the
    read loop returns from it, and why the two fit together. r is a disk (the FAT region plays
    no part), t the FAT that is followed. */
module FatFiles {
  import opened Bytes
  import opened FatImage
  import opened FatDisk
  import opened Chains

  function Take(s: seq<Byte>, n: nat): seq<Byte> {
    if |s| <= n then s else s[..n]
  }

  function Drop(s: seq<Byte>, n: nat): seq<Byte> {
    if |s| <= n then [] else s[n..]
  }

  function Minus(a: nat, b: nat): nat {
    if a <= b then 0 else a - b
  }

  /** One sector's worth of data, zero-filled. */
  function Pad(s: seq<Byte>): Sector {
    Take(s, SECTOR) + Zeros(SECTOR - |Take(s, SECTOR)|)
  }

  // ---------------------------------------------------------------- one cluster

  /** data spread over at most m sectors from l on. */
  function WriteSectors(r: Disk, l: nat, m: nat, data: seq<Byte>): (w: Disk)
    requires l + m <= |r|
    ensures |w| == |r|
    decreases m
  {
    if m == 0 || |data| == 0 then r
    else WriteSectors(r[l := Pad(data)], l + 1, m - 1, Drop(data, SECTOR))
  }

  /** The first n bytes held by at most m sectors from l on. */
  function ReadSectors(r: Disk, l: nat, m: nat, n: nat): (s: seq<Byte>)
    requires l + m <= |r|
    ensures |s| == if n <= SECTOR * m then n else SECTOR * m
    decreases m
  {
    if m == 0 || n == 0 then []
    else Take(r[l], n) + ReadSectors(r, l + 1, m - 1, Minus(n, SECTOR))
  }

  lemma {:induction false} WriteSectorsFrame(r: Disk, l: nat, m: nat, data: seq<Byte>)
    requires l + m <= |r|
    ensures forall i :: 0 <= i < |r| && !(l <= i < l + m) ==> WriteSectors(r, l, m, data)[i] == r[i]
    decreases m
  {
    if m > 0 && |data| > 0 {
      WriteSectorsFrame(r[l := Pad(data)], l + 1, m - 1, Drop(data, SECTOR));
    }
  }

  lemma {:induction false} ReadSectorsFrame(r: Disk, r': Disk, l: nat, m: nat, n: nat)
    requires l + m <= |r| && |r'| == |r|
    requires forall i :: l <= i < l + m ==> r'[i] == r[i]
    ensures ReadSectors(r', l, m, n) == ReadSectors(r, l, m, n)
    decreases m
  {
    if m > 0 && n > 0 {
      ReadSectorsFrame(r, r', l + 1, m - 1, Minus(n, SECTOR));
    }
  }

  lemma {:induction false} SectorsRoundTrip(r: Disk, l: nat, m: nat, data: seq<Byte>)
    requires l + m <= |r|
    ensures ReadSectors(WriteSectors(r, l, m, data), l, m, |data|) == Take(data, SECTOR * m)
    decreases m
  {
    if m > 0 && |data| > 0 {
      var r1 := r[l := Pad(data)];
      var rest := Drop(data, SECTOR);
      SectorsRoundTrip(r1, l + 1, m - 1, rest);
      WriteSectorsFrame(r1, l + 1, m - 1, rest);
      TakePad(data);
      TakeOn(data, SECTOR * (m - 1));
      hide Take, Drop, Pad;
    }
  }

  lemma TakePad(data: seq<Byte>)
    ensures Take(Pad(data), |data|) == Take(data, SECTOR)
  {
  }

  lemma TakeOn(data: seq<Byte>, n: nat)
    ensures Take(data, SECTOR) + Take(Drop(data, SECTOR), n) == Take(data, SECTOR + n)
  {
  }

  // ---------------------------------------------------------------- a whole walk

  /** Following t from c, data is laid out cluster by cluster until it or the walk ends. */
  function WriteWalk(r: Disk, g: Geometry, t: Table, c: nat, data: seq<Byte>): (w: Disk)
    requires g.Valid() && g.Fits(r) && g.Top() <= |t|
    ensures |w| == |r|
    decreases |data|
  {
    if |data| == 0 || !Live(c, g.Eoc()) || c >= g.Top() then r
    else
      LbaRoom(g, c);
      WriteWalk(WriteSectors(r, g.Lba(c), g.spc, data), g, t, t[c], Drop(data, g.ClusterBytes()))
  }

  /** The bytes of n that find no cluster on the walk from c. */
  function Unplaced(g: Geometry, t: Table, c: nat, n: nat): (u: nat)
    requires g.Valid() && g.Top() <= |t|
    ensures u <= n
    decreases n
  {
    if n == 0 || !Live(c, g.Eoc()) || c >= g.Top() then n
    else Unplaced(g, t, t[c], Minus(n, g.ClusterBytes()))
  }

  function ReadWalk(r: Disk, g: Geometry, t: Table, c: nat, n: nat): (s: seq<Byte>)
    requires g.Valid() && g.Fits(r) && g.Top() <= |t|
    ensures |s| <= n
    decreases n
  {
    if n == 0 || !Live(c, g.Eoc()) || c >= g.Top() then []
    else
      LbaRoom(g, c);
      ReadSectors(r, g.Lba(c), g.spc, n) + ReadWalk(r, g, t, t[c], Minus(n, g.ClusterBytes()))
  }

  lemma LbaRoom(g: Geometry, c: nat)
    requires g.Valid() && 2 <= c < g.Top()
    ensures g.dataStart <= g.Lba(c) && g.Lba(c) + g.spc <= g.Lba(g.Top())
  {
    SpanOrder(c - 2, g.Top() - 2, g.spc);
  }

  /** Distinct clusters own distinct sectors. */
  lemma ClustersApart(g: Geometry, c: nat, d: nat)
    requires 2 <= c && 2 <= d && c != d
    ensures g.Lba(c) + g.spc <= g.Lba(d) || g.Lba(d) + g.spc <= g.Lba(c)
  {
    if c < d { SpanOrder(c - 2, d - 2, g.spc); } else { SpanOrder(d - 2, c - 2, g.spc); }
  }

  /** Sector l belongs to a cluster of chain. */
  ghost predicate InChain(g: Geometry, chain: seq<nat>, l: nat) {
    exists i :: 0 <= i < |chain| && chain[i] >= 2 && g.Lba(chain[i]) <= l < g.Lba(chain[i]) + g.spc
  }

  lemma ChainTail(t: Table, top: nat, eoc: nat, chain: seq<nat>)
    requires top <= |t| && IsChain(t, top, eoc, chain) && |chain| > 1
    ensures IsChain(t, top, eoc, chain[1..])
    ensures chain[0] !in chain[1..] && t[chain[0]] == chain[1] == chain[1..][0]
  {
  }

  /** Writing a file changes no sector outside its own chain. */
  lemma {:induction false} WriteWalkFrame(r: Disk, g: Geometry, t: Table, chain: seq<nat>, data: seq<Byte>, l: nat)
    requires g.Valid() && g.Fits(r) && g.Top() <= |t|
    requires IsChain(t, g.Top(), g.Eoc(), chain)
    requires l < |r| && !InChain(g, chain, l)
    ensures WriteWalk(r, g, t, chain[0], data)[l] == r[l]
    decreases |chain|
  {
    var c := chain[0];
    if |data| > 0 {
      LbaRoom(g, c);
      WriteSectorsFrame(r, g.Lba(c), g.spc, data);
      if |chain| > 1 {
        ChainTail(t, g.Top(), g.Eoc(), chain);
        assert forall i :: 0 <= i < |chain[1..]| ==> chain[1..][i] == chain[i + 1];
        WriteWalkFrame(WriteSectors(r, g.Lba(c), g.spc, data), g, t, chain[1..], Drop(data, g.ClusterBytes()), l);
      }
    }
  }

  /** Reading a chain depends on that chain's sectors and links only. */
  lemma {:induction false} ReadWalkFrame(r: Disk, r': Disk, g: Geometry, t: Table, t': Table, chain: seq<nat>, n: nat)
    requires g.Valid() && g.Fits(r) && g.Top() <= |t| && |r'| == |r| && |t'| == |t|
    requires IsChain(t, g.Top(), g.Eoc(), chain) && IsChain(t', g.Top(), g.Eoc(), chain)
    requires forall l: nat :: l < |r| && InChain(g, chain, l) ==> r'[l] == r[l]
    ensures ReadWalk(r', g, t', chain[0], n) == ReadWalk(r, g, t, chain[0], n)
    decreases |chain|
  {
    var c := chain[0];
    if n > 0 {
      LbaRoom(g, c);
      forall i | g.Lba(c) <= i < g.Lba(c) + g.spc ensures r'[i] == r[i] {
        assert InChain(g, chain, i);
      }
      ReadSectorsFrame(r, r', g.Lba(c), g.spc, n);
      if |chain| > 1 {
        ChainTail(t, g.Top(), g.Eoc(), chain);
        ChainTail(t', g.Top(), g.Eoc(), chain);
        forall l: nat | l < |r| && InChain(g, chain[1..], l) ensures InChain(g, chain, l) {
          var i :| 0 <= i < |chain[1..]| && g.Lba(chain[1..][i]) <= l < g.Lba(chain[1..][i]) + g.spc;
          assert chain[i + 1] == chain[1..][i];
        }
        ReadWalkFrame(r, r', g, t, t', chain[1..], Minus(n, g.ClusterBytes()));
      }
    }
  }

  /** Bytes a chain of k clusters can hold. */
  function Room(g: Geometry, k: nat): nat {
    Span(k, g.ClusterBytes())
  }

  /** A write completes exactly when the chain is long enough. */
  lemma {:induction false} PlacedIff(g: Geometry, t: Table, chain: seq<nat>, n: nat)
    requires g.Valid() && g.Top() <= |t|
    requires IsChain(t, g.Top(), g.Eoc(), chain)
    ensures Unplaced(g, t, chain[0], n) == Minus(n, Room(g, |chain|))
    decreases |chain|
  {
    if n > 0 && |chain| > 1 {
      ChainTail(t, g.Top(), g.Eoc(), chain);
      PlacedIff(g, t, chain[1..], Minus(n, g.ClusterBytes()));
    } else if n > 0 {
      assert Room(g, 1) == Span(0, g.ClusterBytes()) + g.ClusterBytes();
    }
  }

  /** What was written to a long enough chain is what is read back, for every size. */
  lemma {:induction false} FileRoundTrip(r: Disk, g: Geometry, t: Table, chain: seq<nat>, data: seq<Byte>)
    requires g.Valid() && g.Fits(r) && g.Top() <= |t|
    requires IsChain(t, g.Top(), g.Eoc(), chain)
    requires |data| <= Room(g, |chain|)
    ensures ReadWalk(WriteWalk(r, g, t, chain[0], data), g, t, chain[0], |data|) == data
    decreases |chain|
  {
    var c, cb := chain[0], g.ClusterBytes();
    if |data| > 0 {
      LbaRoom(g, c);
      var rest := Drop(data, cb);
      WalkStep(r, g, t, chain, data, |data|);
      if |chain| > 1 {
        ChainTail(t, g.Top(), g.Eoc(), chain);
      }
      RoomStep(g, |chain|);
      Split(data, cb);
      hide WriteSectors, ReadSectors, WriteWalk, ReadWalk, IsChain, InChain, Geometry.Valid, Geometry.Lba, Room;
      hide Take, Drop, Geometry.Fits;
      var r1 := WriteSectors(r, g.Lba(c), g.spc, data);
      var w := WriteWalk(r1, g, t, t[c], rest);
      WalkStep(w, g, t, chain, data, |data|);
      SectorsRoundTrip(r, g.Lba(c), g.spc, data);
      FirstClusterKept(r1, g, t, chain, rest, |data|);
      if |chain| > 1 {
        FileRoundTrip(r1, g, t, chain[1..], rest);
      }
    }
  }

  lemma Split(s: seq<Byte>, n: nat)
    ensures Take(s, n) + Drop(s, n) == s && |Drop(s, n)| == Minus(|s|, n)
  {
  }

  lemma RoomStep(g: Geometry, k: nat)
    requires k > 0
    ensures Room(g, k) == Room(g, k - 1) + g.ClusterBytes() && Room(g, 0) == 0
  {
  }

  /** One round of both loops on a chain. */
  lemma WalkStep(r: Disk, g: Geometry, t: Table, chain: seq<nat>, data: seq<Byte>, n: nat)
    requires g.Valid() && g.Fits(r) && g.Top() <= |t|
    requires IsChain(t, g.Top(), g.Eoc(), chain) && |data| > 0 && n > 0
    ensures g.Lba(chain[0]) + g.spc <= |r|
    ensures WriteWalk(r, g, t, chain[0], data)
         == WriteWalk(WriteSectors(r, g.Lba(chain[0]), g.spc, data), g, t, t[chain[0]], Drop(data, g.ClusterBytes()))
    ensures ReadWalk(r, g, t, chain[0], n)
         == ReadSectors(r, g.Lba(chain[0]), g.spc, n) + ReadWalk(r, g, t, t[chain[0]], Minus(n, g.ClusterBytes()))
    ensures |chain| == 1 ==> ReadWalk(r, g, t, t[chain[0]], Minus(n, g.ClusterBytes())) == []
  {
    hide WriteSectors, ReadSectors, Geometry.Lba, Span, Distinct;
    LbaRoom(g, chain[0]);
    LiveHead(g, t, chain);
    hide IsChain;
    WriteStepped(r, g, t, chain[0], data);
  }

  lemma LiveHead(g: Geometry, t: Table, chain: seq<nat>)
    requires g.Valid() && g.Top() <= |t| && IsChain(t, g.Top(), g.Eoc(), chain)
    ensures Live(chain[0], g.Eoc()) && chain[0] < g.Top() && (|chain| == 1 ==> t[chain[0]] >= g.Eoc())
  {
  }

  lemma ReadStepped(r: Disk, g: Geometry, t: Table, c: nat, n: nat)
    requires g.Valid() && g.Fits(r) && g.Top() <= |t| && n > 0 && Live(c, g.Eoc()) && c < g.Top()
    ensures g.Lba(c) + g.spc <= |r|
    ensures ReadWalk(r, g, t, c, n)
         == ReadSectors(r, g.Lba(c), g.spc, n) + ReadWalk(r, g, t, t[c], Minus(n, g.ClusterBytes()))
  {
    hide ReadSectors, Span;
    LbaRoom(g, c);
  }

  lemma WriteStepped(r: Disk, g: Geometry, t: Table, c: nat, data: seq<Byte>)
    requires g.Valid() && g.Fits(r) && g.Top() <= |t| && |data| > 0 && Live(c, g.Eoc()) && c < g.Top()
    ensures g.Lba(c) + g.spc <= |r|
    ensures WriteWalk(r, g, t, c, data)
         == WriteWalk(WriteSectors(r, g.Lba(c), g.spc, data), g, t, t[c], Drop(data, g.ClusterBytes()))
  {
    hide WriteSectors, Span;
    LbaRoom(g, c);
  }

  /** Writing on along the chain does not disturb its first cluster. */
  lemma FirstClusterKept(r1: Disk, g: Geometry, t: Table, chain: seq<nat>, rest: seq<Byte>, n: nat)
    requires g.Valid() && g.Fits(r1) && g.Top() <= |t|
    requires IsChain(t, g.Top(), g.Eoc(), chain)
    ensures g.Lba(chain[0]) + g.spc <= |r1|
    ensures var w := WriteWalk(r1, g, t, t[chain[0]], rest);
            ReadSectors(w, g.Lba(chain[0]), g.spc, n) == ReadSectors(r1, g.Lba(chain[0]), g.spc, n)
  {
    hide WriteSectors, ReadSectors, Distinct, InChain;
    var c := chain[0];
    LbaRoom(g, c);
    var w := WriteWalk(r1, g, t, t[c], rest);
    forall i | g.Lba(c) <= i < g.Lba(c) + g.spc ensures w[i] == r1[i] {
      if |chain| > 1 {
        ChainTail(t, g.Top(), g.Eoc(), chain);
        NotInTail(g, chain, i);
        WriteWalkFrame(r1, g, t, chain[1..], rest, i);
      }
    }
    ReadSectorsFrame(r1, w, g.Lba(c), g.spc, n);
  }

  lemma NotInTail(g: Geometry, chain: seq<nat>, i: nat)
    requires |chain| > 0 && Distinct(chain) && forall j :: 0 <= j < |chain| ==> chain[j] >= 2
    requires g.Lba(chain[0]) <= i < g.Lba(chain[0]) + g.spc
    ensures !InChain(g, chain[1..], i)
  {
    if j :| 0 <= j < |chain[1..]| && g.Lba(chain[1..][j]) <= i < g.Lba(chain[1..][j]) + g.spc {
      ClustersApart(g, chain[0], chain[j + 1]);
    }
  }

  /** Writing one file leaves every file with a disjoint chain as it was. */
  lemma OtherFileUntouched(r: Disk, g: Geometry, t: Table, chain: seq<nat>, data: seq<Byte>, other: seq<nat>, n: nat)
    requires g.Valid() && g.Fits(r) && g.Top() <= |t|
    requires IsChain(t, g.Top(), g.Eoc(), chain) && IsChain(t, g.Top(), g.Eoc(), other)
    requires Apart(other, chain)
    ensures ReadWalk(WriteWalk(r, g, t, chain[0], data), g, t, other[0], n) == ReadWalk(r, g, t, other[0], n)
  {
    var w := WriteWalk(r, g, t, chain[0], data);
    forall l: nat | l < |r| && InChain(g, other, l) ensures w[l] == r[l] {
      var i :| 0 <= i < |other| && g.Lba(other[i]) <= l < g.Lba(other[i]) + g.spc;
      if InChain(g, chain, l) {
        var j :| 0 <= j < |chain| && g.Lba(chain[j]) <= l < g.Lba(chain[j]) + g.spc;
        assert other[i] in other && chain[j] in chain;
        ClustersApart(g, other[i], chain[j]);
      }
      WriteWalkFrame(r, g, t, chain, data, l);
    }
    ReadWalkFrame(r, w, g, t, t, other, n);
  }

  // ---------------------------------------------------------------- walks the code can follow

  /** The walk from c stays inside the volume and stands only on entries the reader sees whole. */
  ghost predicate Walkable(g: Geometry, t: Table, c: nat)
    requires g.Top() <= |t|
  {
    forall x: nat :: Reaches(t, g.Top(), g.Eoc(), c, x) ==> x < g.Top() && g.Readable(x)
  }

  /** Following a link, and freeing along it, keep a walk walkable. */
  lemma WalkableStep(g: Geometry, t: Table, c: nat)
    requires g.Top() <= |t| && Live(c, g.Eoc()) && Walkable(g, t, c)
    ensures c < g.Top() && g.Readable(c)
    ensures Walkable(g, t, t[c]) && Walkable(g, t[c := 0], t[c])
  {
    hide Geometry.Readable;
    var top, eoc := g.Top(), g.Eoc();
    assert Iter(t, top, eoc, c, 0) == c;
    assert Reaches(t, top, eoc, c, c);
    var t1, next := t[c := 0], t[c];
    forall x: nat | Reaches(t1, top, eoc, next, x) ensures Reaches(t, top, eoc, c, x) {
      ReachStep(t, top, eoc, c, x);
    }
    forall x: nat | Reaches(t, top, eoc, next, x) ensures Reaches(t, top, eoc, c, x) {
      var k: nat :| Iter(t, top, eoc, next, k) == x;
      assert Iter(t, top, eoc, c, k + 1) == x;
    }
  }

  lemma NothingToFollow(g: Geometry, t: Table, c: nat)
    requires g.Top() <= |t| && !Live(c, g.Eoc())
    ensures Walkable(g, t, c)
  {
  }

  lemma ChainWalkable(g: Geometry, t: Table, chain: seq<nat>)
    requires g.Top() <= |t| && g.Top() <= g.Eoc() && IsChain(t, g.Top(), g.Eoc(), chain)
    requires forall i :: 0 <= i < |chain| ==> g.Readable(chain[i])
    ensures Walkable(g, t, chain[0])
  {
    hide IsChain, Geometry.Readable, Reaches;
    ChainWalkInRange(t, g.Top(), g.Eoc(), chain);
  }

  /** n bytes from c on need only links inside the volume that the reader sees whole; what lies
      behind the last cluster needed does not matter. */
  predicate Covered(g: Geometry, t: Table, c: nat, n: nat)
    requires g.Valid() && g.Top() <= |t|
    decreases n
  {
    || n == 0 || !Live(c, g.Eoc())
    || (c < g.Top() && (n > g.ClusterBytes() ==> g.Readable(c)) && Covered(g, t, t[c], Minus(n, g.ClusterBytes())))
  }

  lemma CoveredStep(g: Geometry, t: Table, c: nat, n: nat)
    requires g.Valid() && g.Top() <= |t| && Covered(g, t, c, n) && n > 0 && Live(c, g.Eoc())
    ensures c < g.Top() && (n > g.ClusterBytes() ==> g.Readable(c)) && Covered(g, t, t[c], Minus(n, g.ClusterBytes()))
    ensures Unplaced(g, t, c, n) == Unplaced(g, t, t[c], Minus(n, g.ClusterBytes()))
  {
  }

  lemma WriteStops(r: Disk, g: Geometry, t: Table, c: nat, data: seq<Byte>)
    requires g.Valid() && g.Fits(r) && g.Top() <= |t| && (|data| == 0 || !Live(c, g.Eoc()))
    ensures WriteWalk(r, g, t, c, data) == r && Unplaced(g, t, c, |data|) == |data| && Covered(g, t, c, |data|)
  {
  }

  lemma ReadStops(r: Disk, g: Geometry, t: Table, c: nat, n: nat)
    requires g.Valid() && g.Fits(r) && g.Top() <= |t| && (n == 0 || !Live(c, g.Eoc()))
    ensures ReadWalk(r, g, t, c, n) == [] && Unplaced(g, t, c, n) == n && Covered(g, t, c, n)
  {
  }

  /** On a chain, the clusters in front of the last one needed must be readable. */
  lemma {:induction false} ChainCovered(g: Geometry, t: Table, chain: seq<nat>, n: nat)
    requires g.Valid() && g.Top() <= |t| && IsChain(t, g.Top(), g.Eoc(), chain)
    requires forall i {:trigger chain[i]} :: 0 <= i < |chain| && n > Room(g, i + 1) ==> g.Readable(chain[i])
    ensures Covered(g, t, chain[0], n)
    decreases |chain|
  {
    hide Geometry.Readable, Geometry.Valid, Geometry.Eoc;
    if n > 0 {
      RoomStep(g, 1);
      if n > g.ClusterBytes() { assert g.Readable(chain[0]); }
      if |chain| > 1 {
        ChainTail(t, g.Top(), g.Eoc(), chain);
        var rest, m := chain[1..], Minus(n, g.ClusterBytes());
        forall i {:trigger rest[i]} | 0 <= i < |rest| && m > Room(g, i + 1) ensures g.Readable(rest[i]) {
          RoomStep(g, i + 2);
          assert rest[i] == chain[i + 1];
        }
        ChainCovered(g, t, rest, m);
      }
    }
  }

  // ---------------------------------------------------------------- the 32-bit byte counter

  /** The bytes of n that find a cluster on the walk from c. */
  function Placed(g: Geometry, t: Table, c: nat, n: nat): nat
    requires g.Valid() && g.Top() <= |t|
  {
    n - Unplaced(g, t, c, n)
  }

  /** How many bytes of a sector the loops handle, from a sum that wraps at 2^32. */
  function Chunk(done: nat, size: nat): nat
    requires done < size
  {
    if (done + SECTOR) % U32 > size then size - done else SECTOR
  }

  /** It is the rest of the data, or a whole sector, exactly while the counter is below
      2^32 - 512. */
  lemma ChunkIff(done: nat, size: nat)
    requires done < size < U32
    ensures Chunk(done, size) == (if size - done < SECTOR then size - done else SECTOR) <==> done < U32 - SECTOR
  {
  }

  /** Every sector of a walk is handled correctly exactly when the walk places at most 2^32 - 512
      bytes. */
  lemma WalkChunksIff(g: Geometry, t: Table, c: nat, size: nat)
    requires g.Valid() && g.Top() <= |t| && size < U32
    ensures (forall done: nat :: done < Placed(g, t, c, size) && done % SECTOR == 0 ==>
               Chunk(done, size) == if size - done < SECTOR then size - done else SECTOR)
            <==> Placed(g, t, c, size) <= U32 - SECTOR
  {
    hide Geometry.Valid, Unplaced, Chunk;
    var p := Placed(g, t, c, size);
    forall done: nat | done < p
      ensures Chunk(done, size) == (if size - done < SECTOR then size - done else SECTOR) <==> done < U32 - SECTOR
    {
      ChunkIff(done, size);
    }
    if p > U32 - SECTOR {
      var last: nat := U32 - SECTOR;
      assert last % SECTOR == 0 && last < p <= size;
      ChunkIff(last, size);
      assert Chunk(last, size) != if size - last < SECTOR then size - last else SECTOR;
    } else {
      forall done: nat | done < p && done % SECTOR == 0 ensures done < U32 - SECTOR { }
    }
  }

  /** On a chain of a FAT12/16 volume that is so for every size. */
  lemma ChainNeverWraps(g: Geometry, t: Table, chain: seq<nat>, n: nat)
    requires g.Valid() && !g.kind.Exfat? && g.Top() <= |t|
    requires IsChain(t, g.Top(), g.Eoc(), chain)
    ensures Placed(g, t, chain[0], n) <= U32 - SECTOR
  {
    PlacedIff(g, t, chain, n);
    hide Room, Geometry.Entries, Span;
    ChainLength(t, g.Top(), g.Eoc(), chain);
    VolumeRoom(g, |chain|);
  }

  lemma ChainLength(t: Table, top: nat, eoc: nat, chain: seq<nat>)
    requires top <= |t| && IsChain(t, top, eoc, chain)
    ensures 2 + |chain| <= top
  {
    IncreasingCard(chain);
    var r := Range(2, top);
    assert Elems(chain) <= r;
    assert r == Elems(chain) + (r - Elems(chain));
  }

  /** A cluster linked to itself takes any number of bytes, so the largest size wraps. */
  lemma {:induction false} LoopPlacesAll(g: Geometry, t: Table, n: nat)
    requires g.Valid() && 2 < g.Top() <= |t| && t[2] == 2
    ensures Placed(g, t, 2, n) == n
    decreases n
  {
    if n > 0 { LoopPlacesAll(g, t, Minus(n, g.ClusterBytes())); }
  }

  // ---------------------------------------------------------------- creating a file

  /** The cluster count computed for size bytes. */
  lemma ClusterCount(g: Geometry, size: nat, k: nat)
    requires g.Valid() && size > 0
    ensures var n := (size + g.ClusterBytes() - 1) / g.ClusterBytes();
            n > 0 && Room(g, n - 1) < size <= Room(g, n) && (size <= Room(g, k) <==> n <= k)
  {
    var cb := g.ClusterBytes();
    var n := (size + cb - 1) / cb;
    var x := size + cb - 1;
    assert cb * n <= x < cb * n + cb;
    SpanIsProduct(n, cb);
    if n == 0 { assert false; }
    assert Room(g, n) == Room(g, n - 1) + cb;
    if n < k { SpanOrder(n, k, cb); }
    if k < n && k < n - 1 { SpanOrder(k, n - 1, cb); }
  }

  /** A FAT12/16 volume holds less than 4 GiB minus one cluster, so no 32-bit sum in the data
      loops wraps for a file that fits. */
  lemma VolumeRoom(g: Geometry, k: nat)
    requires g.Valid() && !g.kind.Exfat? && k <= g.clusters
    ensures Room(g, k) + g.ClusterBytes() < U32 - SECTOR
  {
    var cb := g.ClusterBytes();
    RoomBound(k, cb);
  }

  lemma {:induction false} RoomBound(k: nat, cb: nat)
    requires cb <= 65536
    ensures Span(k, cb) <= 65536 * k
  {
    if k > 0 { RoomBound(k - 1, cb); }
  }

  lemma FreeSetBound(t: Table, top: nat)
    requires 2 <= top <= |t|
    ensures |FreeSet(t, top)| <= top - 2
  {
    var f, r := FreeSet(t, top), Range(2, top);
    assert f <= r;
    assert r == f + (r - f);
  }

  /** A file stored in the lowest free clusters of a table reads back exactly, and every file
      that was there before keeps its chain and its bytes. */
  lemma StoredFileReadsBack(r: Disk, g: Geometry, t: Table, chain: seq<nat>, data: seq<Byte>, other: seq<nat>, n: nat)
    requires g.Valid() && g.Fits(r) && g.Top() <= |t|
    requires |chain| > 0 && LowestFree(t, g.Top(), chain)
    requires |data| <= Room(g, |chain|)
    requires IsChain(t, g.Top(), g.Eoc(), other)
    ensures Linked(t, chain, g.Eoc()) != t
    ensures var t' := Linked(t, chain, g.Eoc());
            var r' := WriteWalk(r, g, t', chain[0], data);
            && ReadWalk(r', g, t', chain[0], |data|) == data
            && IsChain(t', g.Top(), g.Eoc(), other)
            && ReadWalk(r', g, t', other[0], n) == ReadWalk(r, g, t, other[0], n)
  {
    hide WriteWalk, ReadWalk, Linked;
    var t' := Linked(t, chain, g.Eoc());
    LinkedIsChain(t, g.Top(), g.Eoc(), chain);
    FileRoundTrip(r, g, t', chain, data);
    UsedApart(t, g.Top(), g.Eoc(), chain, other);
    LinkedEntries(t, chain, g.Eoc());
    ChainFrame(t, t', g.Top(), g.Eoc(), other);
    OtherFileUntouched(r, g, t', chain, data, other, n);
    ReadWalkFrame(r, r, g, t, t', other, n);
    assert t'[chain[|chain| - 1]] == g.Eoc();
  }

  lemma UsedApart(t: Table, top: nat, eoc: nat, chain: seq<nat>, other: seq<nat>)
    requires top <= |t| && eoc > 0 && LowestFree(t, top, chain) && IsChain(t, top, eoc, other)
    ensures Apart(other, chain)
    ensures forall i :: 0 <= i < |other| ==> other[i] !in chain
  {
    forall i | 0 <= i < |other| ensures t[other[i]] != 0 {
      if i + 1 < |other| { assert t[other[i]] == other[i + 1]; }
    }
  }
}
