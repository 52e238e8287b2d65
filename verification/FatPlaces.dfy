/** Where things lie on the disk, in absolute sectors and bytes: FAT entries of every copy, chains,
    and the bytes of a file. The statements use the numbers of the boot sector only. */
module FatPlaces {
  import opened Bytes
  import opened FatImage
  import opened FatDisk
  import opened FatFiles
  import opened Chains
  import ExfatImage

  // ---------------------------------------------------------------- entries

  /** A disk of this geometry with identical FAT copies. */
  ghost predicate Formatted(d: Disk, g: Geometry) {
    && g.Valid() && g.Fits(d) && g.CopyBase(g.numFats) <= |d| && g.fatStart + g.fatSectors <= |d| && Mirrored(d, g)
  }

  /** The table is read from bytes that stand in the same place of every copy. */
  lemma FatByteAt(d: Disk, g: Geometry, k: nat, base: nat, q: nat)
    requires Formatted(d, g) && k < g.numFats && base == g.fatStart + k * g.fatSectors
    requires q < 512 * g.fatSectors
    ensures View(d, g).table == FatDisk.Entries(FatBytes(d, g), g.kind) && |FatBytes(d, g)| == 512 * g.fatSectors
    ensures base + q / 512 < |d| && FatBytes(d, g)[q] == d[base + q / 512][q % 512]
  {
    FatFits(g, d, k);
    SpanIsProduct(k, g.fatSectors);
    assert q / SECTOR < g.fatSectors;
    assert g.CopySector(k, q / SECTOR) < |d|;
  }

  /** Entry c of a FAT16 is a little-endian word. */
  lemma Fat16EntryAt(f: seq<Byte>, c: nat)
    requires 2 * c + 1 < |f|
    ensures c < |FatDisk.Entries(f, Fat16)|
    ensures var lo: int, hi: int := f[2 * c], f[2 * c + 1];
            FatDisk.Entries(f, Fat16)[c] == lo + 256 * hi
  {
    hide Entry;
    DecodeIsEntry(f, false, c);
  }

  /** Entry c of a FAT12 is one and a half bytes. */
  lemma Fat12EntryAt(f: seq<Byte>, c: nat)
    requires 3 * c + 3 <= 2 * |f|
    ensures c < |FatDisk.Entries(f, Fat12)|
    ensures var lo: int, hi: int := f[3 * c / 2], f[3 * c / 2 + 1];
            FatDisk.Entries(f, Fat12)[c] == if c % 2 == 0 then lo + 256 * (hi % 16) else lo / 16 + 16 * hi
  {
    hide Entry;
    DecodeIsEntry(f, true, c);
    DecodeNibbles(f[3 * c / 2], f[3 * c / 2 + 1]);
  }

  /** A FAT12 entry crosses a sector boundary exactly when its first byte is the last of a sector; a
      FAT16 entry never does. */
  lemma CrossesIff(c: nat)
    ensures Straddles(true, c) <==> 3 * c / 2 % 512 == 511
    ensures !Straddles(false, c)
  {
  }

  /** Entry c of an exFAT FAT is a little-endian double word. */
  lemma ExfatEntryAt(f: seq<Byte>, c: nat)
    requires 4 * c + 3 < |f|
    ensures c < |FatDisk.Entries(f, Exfat)|
    ensures var b0: int, b1: int, b2: int, b3: int := f[4 * c], f[4 * c + 1], f[4 * c + 2], f[4 * c + 3];
            FatDisk.Entries(f, Exfat)[c] == b0 + 256 * b1 + 65536 * b2 + 16777216 * b3
  {
    FourLE(f[4 * c..4 * c + 4]);
  }

  /** Outside the FAT copies the view shows the disk. */
  lemma RestAt(d: Disk, g: Geometry, l: nat)
    requires g.fatStart + g.fatSectors <= |d| && l < |d|
    requires !(g.fatStart <= l < g.fatStart + g.numFats * g.fatSectors)
    ensures View(d, g).rest[l] == d[l]
  {
    SpanIsProduct(g.numFats, g.fatSectors);
  }

  // ---------------------------------------------------------------- chains

  /** A chain runs over distinct clusters from 2 to the cluster count plus 1, each linked to the
      next, and its last link is one of the reserved end marks. */
  lemma ChainMeans(g: Geometry, t: Table, chain: seq<nat>)
    requires g.Top() <= |t| && g.clusters + 2 <= |t|
    ensures IsChain(t, g.Top(), g.Eoc(), chain) <==>
            && |chain| > 0
            && (forall i :: 0 <= i < |chain| ==> 2 <= chain[i] < g.clusters + 2)
            && (forall i, j :: 0 <= i < j < |chain| ==> chain[i] != chain[j])
            && (forall i {:trigger t[chain[i]]} :: 0 <= i < |chain| ==>
                  if i + 1 < |chain| then t[chain[i]] == chain[i + 1]
                  else t[chain[i]] >= match g.kind case Fat12 => 0x0FF8 case Fat16 => 0xFFF8 case Exfat => 0xFFFF_FFF8)
  {
  }

  /** What an allocation stores: each cluster's entry names the next one, the last one holds the end
      mark of the format, and no other entry changes. */
  lemma LinkedMeans(g: Geometry, t: Table, chain: seq<nat>)
    requires !g.kind.Exfat? && forall i :: 0 <= i < |chain| ==> chain[i] < |t|
    requires forall i, j :: 0 <= i < j < |chain| ==> chain[i] != chain[j]
    ensures var w := Linked(t, chain, g.Eoc());
            && |w| == |t| && (forall c :: 0 <= c < |t| && c !in chain ==> w[c] == t[c])
            && forall i {:trigger w[chain[i]]} :: 0 <= i < |chain| ==>
                 w[chain[i]] == if i + 1 < |chain| then chain[i + 1] else if g.kind.Fat12? then 0x0FF8 else 0xFFF8
  {
    LinkedEntries(t, chain, g.Eoc());
  }

  /** The clusters an allocation takes: cluster i of the chain is free and has exactly i free
      clusters below it. */
  lemma {:induction false} LowestFreeIff(t: Table, top: nat, chain: seq<nat>)
    requires top <= |t|
    ensures LowestFree(t, top, chain) <==>
            forall i :: 0 <= i < |chain| ==>
              2 <= chain[i] < top && t[chain[i]] == 0 && |set c | 2 <= c < chain[i] && t[c] == 0| == i
  {
    if LowestFree(t, top, chain) {
      forall i | 0 <= i < |chain| ensures |set c | 2 <= c < chain[i] && t[c] == 0| == i {
        var below := chain[..i];
        assert (set c | 2 <= c < chain[i] && t[c] == 0) == Elems(below) by {
          forall c | 2 <= c < chain[i] && t[c] == 0 ensures c in below {
            assert c <= chain[|chain| - 1];
            var j :| 0 <= j < |chain| && chain[j] == c;
            assert below[j] == c;
          }
        }
        IncreasingCard(below);
      }
    }
    if forall i :: 0 <= i < |chain| ==>
         2 <= chain[i] < top && t[chain[i]] == 0 && |set c | 2 <= c < chain[i] && t[c] == 0| == i {
      RankedIsLowest(t, top, chain);
    }
  }

  lemma RankedIsLowest(t: Table, top: nat, chain: seq<nat>)
    requires top <= |t|
    requires forall i :: 0 <= i < |chain| ==>
               2 <= chain[i] < top && t[chain[i]] == 0 && |set c | 2 <= c < chain[i] && t[c] == 0| == i
    ensures LowestFree(t, top, chain)
  {
    forall i, j | 0 <= i < j < |chain| ensures chain[i] < chain[j] {
      if chain[j] <= chain[i] {
        var a, b := set c | 2 <= c < chain[j] && t[c] == 0, set c | 2 <= c < chain[i] && t[c] == 0;
        assert a <= b;
        SubsetCard(a, b);
      }
    }
    if |chain| > 0 {
      var last := chain[|chain| - 1];
      var front := chain[..|chain| - 1];
      var below := set c | 2 <= c < last && t[c] == 0;
      IncreasingCard(front);
      forall c | c in Elems(front) ensures c in below {
        var i :| 0 <= i < |front| && front[i] == c;
        assert chain[i] < last;
      }
      SameCard(Elems(front), below);
      forall c | 2 <= c <= last && t[c] == 0 ensures c in chain {
        if c < last { assert c in below; }
      }
    }
  }

  lemma SameCard(a: set<nat>, b: set<int>)
    requires (forall x :: x in a ==> x in b) && |a| == |b|
    ensures forall x :: x in b ==> x in a
  {
    if a == {} {
    } else {
      var x :| x in a;
      SameCard(a - {x}, b - {x});
    }
  }

  // ---------------------------------------------------------------- the bytes of a file

  lemma ClusterAt(c: nat, g: Geometry)
    requires c >= 2
    ensures g.Lba(c) == g.dataStart + (c - 2) * g.spc
  {
    SpanIsProduct(c - 2, g.spc);
  }

  /** The sector that holds byte i of a file. */
  function SectorOf(g: Geometry, chain: seq<nat>, i: nat): nat
    decreases |chain|
  {
    if |chain| == 0 || chain[0] < 2 then 0
    else if i < g.ClusterBytes() then g.Lba(chain[0]) + i / SECTOR
    else SectorOf(g, chain[1..], i - g.ClusterBytes())
  }

  lemma {:induction false} SectorAt(g: Geometry, chain: seq<nat>, k: nat, y: nat)
    requires k < |chain| && y < g.ClusterBytes() && forall j :: 0 <= j < |chain| ==> chain[j] >= 2
    ensures SectorOf(g, chain, Room(g, k) + y) == g.Lba(chain[k]) + y / SECTOR
    decreases k
  {
    hide Geometry.Lba;
    RoomStep(g, k + 1);
    if k > 0 {
      RoomStep(g, k);
      SectorAt(g, chain[1..], k - 1, y);
    }
  }

  /** In absolute sectors: byte y of cluster k of the chain, 512 * spc bytes to a cluster, clusters
      counted from 2 at the first data sector. */
  lemma SectorIs(g: Geometry, chain: seq<nat>, k: nat, y: nat, i: nat)
    requires k < |chain| && y < g.spc * 512 && forall j :: 0 <= j < |chain| ==> chain[j] >= 2
    requires i == k * (g.spc * 512) + y
    ensures SectorOf(g, chain, i) == g.dataStart + (chain[k] - 2) * g.spc + y / 512
  {
    SpanIsProduct(k, g.spc * SECTOR);
    ClusterAt(chain[k], g);
    hide Geometry.Lba;
    SectorAt(g, chain, k, y);
  }

  /** Which byte of which sector of which cluster. */
  lemma Spot(g: Geometry, chain: seq<nat>, i: nat) returns (k: nat, s: nat)
    requires i < Room(g, |chain|) && forall j :: 0 <= j < |chain| ==> chain[j] >= 2
    ensures k < |chain| && s < g.spc && i == Room(g, k) + SECTOR * s + i % SECTOR
    ensures SectorOf(g, chain, i) == g.Lba(chain[k]) + s
  {
    var y;
    k, y := ClusterOf(g, i, |chain|);
    hide SectorOf, Room, Geometry.Lba;
    s := y / SECTOR;
    DivMod(y, SECTOR, s, y % SECTOR);
    SectorAt(g, chain, k, y);
    RoomSectors(g, k);
  }

  lemma ClusterOf(g: Geometry, i: nat, n: nat) returns (k: nat, y: nat)
    requires i < Room(g, n)
    ensures k < n && y < SECTOR * g.spc && y < g.ClusterBytes() && i == Room(g, k) + y
  {
    k, y := SpanLocate(i, n, g.ClusterBytes());
  }

  lemma {:induction false} RoomSectors(g: Geometry, k: nat)
    ensures Room(g, k) % SECTOR == 0
    decreases k
  {
    if k > 0 { RoomSectors(g, k - 1); }
  }

  lemma {:induction false} ReadSectorsAt(r: Disk, l: nat, m: nat, n: nat, s: nat, x: nat)
    requires l + m <= |r| && s < m && x < SECTOR && SECTOR * s + x < n
    ensures SECTOR * s + x < |ReadSectors(r, l, m, n)|
    ensures ReadSectors(r, l, m, n)[SECTOR * s + x] == r[l + s][x]
    decreases m
  {
    if s > 0 {
      ReadSectorsAt(r, l + 1, m - 1, Minus(n, SECTOR), s - 1, x);
    }
  }

  lemma {:induction false} ReadWalkPlace(r: Disk, g: Geometry, t: Table, chain: seq<nat>, n: nat, k: nat, s: nat, x: nat)
    requires g.Valid() && g.Fits(r) && g.Top() <= |t| && IsChain(t, g.Top(), g.Eoc(), chain)
    requires k < |chain| && s < g.spc && x < SECTOR && Room(g, k) + SECTOR * s + x < n
    ensures chain[k] >= 2 && g.Lba(chain[k]) + s < |r|
    ensures Room(g, k) + SECTOR * s + x < |ReadWalk(r, g, t, chain[0], n)|
    ensures ReadWalk(r, g, t, chain[0], n)[Room(g, k) + SECTOR * s + x] == r[g.Lba(chain[k]) + s][x]
    decreases |chain|
  {
    hide ReadSectors, IsChain, Geometry.Valid, Geometry.Fits, ReadWalk, Geometry.Lba, Room;
    ChainWellFormed(g, t, chain);
    WalkStep(r, g, t, chain, [0], n);
    if k == 0 {
      RoomStep(g, 1);
      ReadSectorsAt(r, g.Lba(chain[0]), g.spc, n, s, x);
    } else {
      RoomStep(g, k);
      ChainTail(t, g.Top(), g.Eoc(), chain);
      ReadWalkPlace(r, g, t, chain[1..], Minus(n, g.ClusterBytes()), k - 1, s, x);
    }
  }

  lemma ChainWellFormed(g: Geometry, t: Table, chain: seq<nat>)
    requires g.Valid() && g.Top() <= |t| && IsChain(t, g.Top(), g.Eoc(), chain)
    ensures |chain| > 0 && g.spc > 0 && Distinct(chain) && forall j :: 0 <= j < |chain| ==> 2 <= chain[j] < g.Top()
  {
  }

  /** What the write loop leaves at byte x of sector s of a cluster. */
  lemma {:induction false} WriteSectorsAt(r: Disk, l: nat, m: nat, data: seq<Byte>, s: nat, x: nat)
    requires l + m <= |r| && s < m && x < SECTOR
    ensures WriteSectors(r, l, m, data)[l + s][x] ==
            if SECTOR * s + x < |data| then data[SECTOR * s + x] else if SECTOR * s < |data| then 0 else r[l + s][x]
    decreases m
  {
    if |data| > 0 {
      var r1 := r[l := Pad(data)];
      if s == 0 {
        WriteSectorsFrame(r1, l + 1, m - 1, Drop(data, SECTOR));
      } else {
        WriteSectorsAt(r1, l + 1, m - 1, Drop(data, SECTOR), s - 1, x);
      }
    }
  }

  lemma {:induction false} WriteWalkPlace(r: Disk, g: Geometry, t: Table, chain: seq<nat>, data: seq<Byte>, k: nat, s: nat, x: nat)
    requires g.Valid() && g.Fits(r) && g.Top() <= |t| && IsChain(t, g.Top(), g.Eoc(), chain)
    requires k < |chain| && s < g.spc && x < SECTOR
    ensures chain[k] >= 2 && g.Lba(chain[k]) + s < |r|
    ensures WriteWalk(r, g, t, chain[0], data)[g.Lba(chain[k]) + s][x] ==
            var q := Room(g, k) + SECTOR * s;
            if q + x < |data| then data[q + x] else if q < |data| then 0 else r[g.Lba(chain[k]) + s][x]
    decreases |chain|
  {
    hide WriteSectors, IsChain, Geometry.Valid, Geometry.Fits, WriteWalk, Geometry.Lba, Room;
    ChainWellFormed(g, t, chain);
    LbaRoom(g, chain[k]);
    ChainFits(r, g);
    var c := chain[0];
    if |data| == 0 {
      NothingWritten(r, g, t, c);
    } else {
      WalkStep(r, g, t, chain, data, 1);
      var r1, rest := WriteSectors(r, g.Lba(c), g.spc, data), Drop(data, g.ClusterBytes());
      if k == 0 {
        RoomStep(g, 1);
        WriteSectorsAt(r, g.Lba(c), g.spc, data, s, x);
        FirstSectorsKept(r1, g, t, chain, rest, g.Lba(c) + s);
      } else {
        RoomStep(g, k);
        ChainTail(t, g.Top(), g.Eoc(), chain);
        SameFits(r, r1, g);
        WriteWalkPlace(r1, g, t, chain[1..], rest, k - 1, s, x);
        OtherCluster(r, g, chain, k, g.Lba(chain[k]) + s, data);
      }
    }
  }

  lemma ChainFits(r: Disk, g: Geometry)
    requires g.Fits(r)
    ensures g.Lba(g.Top()) <= |r|
  {
  }

  lemma SameFits(r: Disk, r1: Disk, g: Geometry)
    requires g.Fits(r) && |r1| == |r|
    ensures g.Fits(r1)
  {
  }

  lemma NothingWritten(r: Disk, g: Geometry, t: Table, c: nat)
    requires g.Valid() && g.Fits(r) && g.Top() <= |t|
    ensures WriteWalk(r, g, t, c, []) == r
  {
  }

  lemma FirstSectorsKept(r1: Disk, g: Geometry, t: Table, chain: seq<nat>, rest: seq<Byte>, l: nat)
    requires g.Valid() && g.Fits(r1) && g.Top() <= |t| && IsChain(t, g.Top(), g.Eoc(), chain)
    requires g.Lba(chain[0]) <= l < g.Lba(chain[0]) + g.spc && l < |r1|
    ensures WriteWalk(r1, g, t, t[chain[0]], rest)[l] == r1[l]
  {
    if |chain| > 1 {
      ChainTail(t, g.Top(), g.Eoc(), chain);
      NotInTail(g, chain, l);
      WriteWalkFrame(r1, g, t, chain[1..], rest, l);
    }
  }

  lemma OtherCluster(r: Disk, g: Geometry, chain: seq<nat>, k: nat, l: nat, data: seq<Byte>)
    requires 0 < k < |chain| && Distinct(chain) && chain[0] >= 2 && chain[k] >= 2
    requires g.Lba(chain[0]) + g.spc <= |r| && l < |r| && g.Lba(chain[k]) <= l < g.Lba(chain[k]) + g.spc
    ensures WriteSectors(r, g.Lba(chain[0]), g.spc, data)[l] == r[l]
  {
    ClustersApart(g, chain[0], chain[k]);
    WriteSectorsFrame(r, g.Lba(chain[0]), g.spc, data);
  }

  // ---------------------------------------------------------------- reading and writing a file

  /** chain is the file that starts at first, and it has room for n bytes. */
  ghost predicate FileChain(g: Geometry, t: Table, chain: seq<nat>, first: nat, n: nat)
    requires g.Top() <= |t|
  {
    IsChain(t, g.Top(), g.Eoc(), chain) && chain[0] == first && n <= Room(g, |chain|)
  }

  /** The room of a chain in bytes. */
  lemma RoomIs(g: Geometry, k: nat)
    ensures Room(g, k) == k * (g.spc * 512)
  {
    SpanIsProduct(k, g.spc * SECTOR);
  }

  /** The bytes s are the first |s| bytes of the file chain, sector by sector. */
  ghost predicate Holding(d: Disk, g: Geometry, chain: seq<nat>, s: seq<Byte>) {
    forall i :: 0 <= i < |s| ==> SectorOf(g, chain, i) < |d| && s[i] == d[SectorOf(g, chain, i)][i % SECTOR]
  }

  /** What a write leaves on the disk: the data in its place, zeros behind it to the end of its last
      sector, and every other sector of the disk as it was. */
  ghost predicate Laid(d: Disk, w: Disk, g: Geometry, chain: seq<nat>, data: seq<Byte>) {
    && |w| == |d| && Holding(w, g, chain, data)
    && (|data| > 0 ==>
          && SectorOf(g, chain, |data| - 1) < |w|
          && var last := w[SectorOf(g, chain, |data| - 1)];
             forall x :: (|data| - 1) % SECTOR < x < SECTOR ==> last[x] == 0)
    && (forall l: nat :: l < |w| && (forall i: nat :: i < |data| ==> SectorOf(g, chain, i) != l) ==> w[l] == d[l])
  }

  /** In absolute sectors, for byte x of sector y of cluster k. */
  lemma HoldingMeans(d: Disk, g: Geometry, chain: seq<nat>, s: seq<Byte>, k: nat, y: nat, x: nat, i: nat, l: nat)
    requires Holding(d, g, chain, s)
    requires k < |chain| && y < g.spc && x < 512 && forall j :: 0 <= j < |chain| ==> chain[j] >= 2
    requires i == k * (g.spc * 512) + 512 * y + x < |s| && l == g.dataStart + (chain[k] - 2) * g.spc + y
    ensures l < |d| && s[i] == d[l][x]
  {
    hide Holding;
    BytePlace(g, chain, k, y, x, i, l);
    HoldingAt(d, g, chain, s, i);
  }

  lemma HoldingAt(d: Disk, g: Geometry, chain: seq<nat>, s: seq<Byte>, i: nat)
    requires Holding(d, g, chain, s) && i < |s|
    ensures SectorOf(g, chain, i) < |d| && s[i] == d[SectorOf(g, chain, i)][i % SECTOR]
  {
  }

  lemma BytePlace(g: Geometry, chain: seq<nat>, k: nat, y: nat, x: nat, i: nat, l: nat)
    requires k < |chain| && y < g.spc && x < 512 && forall j :: 0 <= j < |chain| ==> chain[j] >= 2
    requires i == k * (g.spc * 512) + 512 * y + x && l == g.dataStart + (chain[k] - 2) * g.spc + y
    ensures SectorOf(g, chain, i) == l && i % 512 == x && i == Room(g, k) + 512 * y + x && l == g.Lba(chain[k]) + y
  {
    RoomIs(g, k);
    ClusterAt(chain[k], g);
    hide IsChain, ReadWalk, WriteWalk, SectorOf, Room, Geometry.Lba, Geometry.Valid, Geometry.Fits, FatDisk.View, Mirrored,
         Formatted, FileChain, Holding;
    RoomPlace(g, chain, k, y, x);
  }

  lemma RoomPlace(g: Geometry, chain: seq<nat>, k: nat, y: nat, x: nat)
    requires k < |chain| && y < g.spc && x < 512 && forall j :: 0 <= j < |chain| ==> chain[j] >= 2
    ensures (Room(g, k) + 512 * y + x) % 512 == x
    ensures SectorOf(g, chain, Room(g, k) + 512 * y + x) == g.Lba(chain[k]) + y
  {
    hide SectorOf, Room, Geometry.Lba;
    RoomSectors(g, k);
    SectorAt(g, chain, k, 512 * y + x);
  }

  /** The same after a write, with zeros behind the data and everything else as before. */
  lemma LaidMeans(d: Disk, w: Disk, g: Geometry, chain: seq<nat>, data: seq<Byte>, k: nat, y: nat, x: nat, i: nat, l: nat)
    requires Laid(d, w, g, chain, data) && |data| <= |chain| * (g.spc * 512)
    requires k < |chain| && y < g.spc && x < 512 && forall j :: 0 <= j < |chain| ==> chain[j] >= 2
    requires forall a, b :: 0 <= a < b < |chain| ==> chain[a] != chain[b]
    requires i == k * (g.spc * 512) + 512 * y + x && l == g.dataStart + (chain[k] - 2) * g.spc + y < |w|
    ensures w[l][x] == if i < |data| then data[i] else if i - x < |data| then 0 else d[l][x]
  {
    BytePlace(g, chain, k, y, x, i, l);
    RoomIs(g, |chain|);
    hide IsChain, ReadWalk, WriteWalk, SectorOf, Room, Geometry.Lba, Geometry.Valid, Geometry.Fits, FatDisk.View, Mirrored,
         Formatted, FileChain, Holding, Laid;
    LaidAt(d, w, g, chain, data, k, y, x, i);
  }

  lemma LaidAt(d: Disk, w: Disk, g: Geometry, chain: seq<nat>, data: seq<Byte>, k: nat, y: nat, x: nat, i: nat)
    requires Laid(d, w, g, chain, data) && |data| <= Room(g, |chain|)
    requires k < |chain| && y < g.spc && x < 512 && forall j :: 0 <= j < |chain| ==> chain[j] >= 2
    requires forall a, b :: 0 <= a < b < |chain| ==> chain[a] != chain[b]
    requires i == Room(g, k) + 512 * y + x && g.Lba(chain[k]) + y < |w|
    ensures w[g.Lba(chain[k]) + y][x] == if i < |data| then data[i] else if i - x < |data| then 0 else d[g.Lba(chain[k]) + y][x]
  {
    hide Holding, SectorOf, Room, Geometry.Lba;
    var l := g.Lba(chain[k]) + y;
    RoomSectors(g, k);
    SectorAt(g, chain, k, 512 * y + x);
    if i < |data| {
      HoldingAt(w, g, chain, data, i);
    } else if i - x < |data| {
      SectorAt(g, chain, k, 512 * y + (|data| - 1 - (i - x)));
    } else {
      forall j: nat | j < |data| ensures SectorOf(g, chain, j) != l {
        var m, z := Spot(g, chain, j);
        if SectorOf(g, chain, j) == l {
          if m != k { ClustersApart(g, chain[m], chain[k]); }
        }
      }
    }
  }

  /** The file chain's bytes, as the read loop returns them from the disk. */
  lemma FileRead(d: Disk, g: Geometry, chain: seq<nat>, first: nat, n: nat)
    requires Formatted(d, g) && FileChain(g, View(d, g).table, chain, first, n)
    ensures g.Fits(View(d, g).rest)
    ensures var s := ReadWalk(View(d, g).rest, g, View(d, g).table, first, n); |s| == n && Holding(d, g, chain, s)
  {
    var v := View(d, g);
    assert g.Fits(v.rest);
    var s := ReadWalk(v.rest, g, v.table, first, n);
    hide IsChain, ReadWalk, WriteWalk, SectorOf, Room, Geometry.Lba, Geometry.Valid, Geometry.Fits, FatDisk.View, Mirrored,
         Formatted, FileChain, Holding;
    forall i: nat | i < n
      ensures i < |s| && SectorOf(g, chain, i) < |d| && s[i] == d[SectorOf(g, chain, i)][i % SECTOR]
    {
      FileByteAt(d, g, chain, first, n, i);
    }
    if |s| < n {
      FileByteAt(d, g, chain, first, n, |s|);
      assert false;
    }
    AllHolding(d, g, chain, s);
  }

  lemma FilesRead(d: Disk, g: Geometry, first: nat, n: nat)
    requires Formatted(d, g) && g.Fits(View(d, g).rest)
    ensures var s := ReadWalk(View(d, g).rest, g, View(d, g).table, first, n);
            forall chain :: FileChain(g, View(d, g).table, chain, first, n) ==> |s| == n && Holding(d, g, chain, s)
  {
    var v := View(d, g);
    hide ReadWalk, Holding, FileChain, FatDisk.View, Mirrored;
    forall chain | FileChain(g, v.table, chain, first, n)
      ensures var s := ReadWalk(v.rest, g, v.table, first, n); |s| == n && Holding(d, g, chain, s)
    {
      FileRead(d, g, chain, first, n);
    }
  }

  lemma AllHolding(d: Disk, g: Geometry, chain: seq<nat>, s: seq<Byte>)
    requires forall i: nat :: i < |s| ==> SectorOf(g, chain, i) < |d| && s[i] == d[SectorOf(g, chain, i)][i % SECTOR]
    ensures Holding(d, g, chain, s)
  {
    hide SectorOf;
  }

  lemma Unpacked(d: Disk, g: Geometry, chain: seq<nat>, first: nat, n: nat)
    requires Formatted(d, g) && FileChain(g, View(d, g).table, chain, first, n)
    ensures g.fatStart + g.fatSectors <= |d| && g.Valid() && g.Fits(View(d, g).rest)
    ensures IsChain(View(d, g).table, g.Top(), g.Eoc(), chain) && n <= Room(g, |chain|) && chain[0] == first
    ensures forall j :: 0 <= j < |chain| ==> 2 <= chain[j] < g.Top()
  {
    hide FatDisk.View, Mirrored, Geometry.Entries, Room;
  }

  lemma FileByteAt(d: Disk, g: Geometry, chain: seq<nat>, first: nat, n: nat, i: nat)
    requires Formatted(d, g) && FileChain(g, View(d, g).table, chain, first, n) && i < n
    ensures g.Fits(View(d, g).rest)
    ensures var s := ReadWalk(View(d, g).rest, g, View(d, g).table, first, n);
            i < |s| && SectorOf(g, chain, i) < |d| && s[i] == d[SectorOf(g, chain, i)][i % SECTOR]
  {
    var v := View(d, g);
    hide IsChain, ReadWalk, WriteWalk, SectorOf, Room, Geometry.Lba, Geometry.Valid, Geometry.Fits, FatDisk.View, Mirrored,
         Formatted, FileChain, Holding;
    Unpacked(d, g, chain, first, n);
    ReadByteAt(v.rest, g, v.table, chain, n, i);
    SectorSeen(d, g, chain, i);
  }

  lemma ReadByteAt(r: Disk, g: Geometry, t: Table, chain: seq<nat>, n: nat, i: nat)
    requires g.Valid() && g.Fits(r) && g.Top() <= |t| && IsChain(t, g.Top(), g.Eoc(), chain)
    requires i < n && i < Room(g, |chain|) && forall j :: 0 <= j < |chain| ==> chain[j] >= 2
    ensures i < |ReadWalk(r, g, t, chain[0], n)| && SectorOf(g, chain, i) < |r|
    ensures ReadWalk(r, g, t, chain[0], n)[i] == r[SectorOf(g, chain, i)][i % SECTOR]
  {
    hide IsChain, ReadWalk, WriteWalk, SectorOf, Room, Geometry.Lba, Geometry.Valid, Geometry.Fits, FatDisk.View, Mirrored,
         Formatted, FileChain, Holding;
    var x := i % SECTOR;
    var k, s := Spot(g, chain, i);
    ReadWalkPlace(r, g, t, chain, n, k, s, x);
  }

  lemma SectorSeen(d: Disk, g: Geometry, chain: seq<nat>, i: nat)
    requires Formatted(d, g) && i < Room(g, |chain|) && forall j :: 0 <= j < |chain| ==> 2 <= chain[j] < g.Top()
    ensures g.fatStart + g.fatSectors <= |d|
    ensures SectorOf(g, chain, i) < |d| && View(d, g).rest[SectorOf(g, chain, i)] == d[SectorOf(g, chain, i)]
  {
    hide SectorOf, Room, Geometry.Lba, FatDisk.View, Mirrored, Geometry.Valid, Geometry.Fits;
    var k, s := Spot(g, chain, i);
    DataSector(d, g, chain[k], s);
  }

  lemma DataSector(d: Disk, g: Geometry, c: nat, s: nat)
    requires Formatted(d, g) && 2 <= c < g.Top() && s < g.spc
    ensures g.Lba(c) + s < |d| && View(d, g).rest[g.Lba(c) + s] == d[g.Lba(c) + s]
  {
    LbaRoom(g, c);
    assert !g.InFat(g.Lba(c) + s);
  }

  lemma FileWritten(d: Disk, w: Disk, g: Geometry, chain: seq<nat>, first: nat, data: seq<Byte>)
    requires Formatted(d, g) && Formatted(w, g) && |w| == |d| && FileChain(g, View(d, g).table, chain, first, |data|)
    requires g.Fits(View(d, g).rest)
    requires View(w, g) == View(d, g).(rest := WriteWalk(View(d, g).rest, g, View(d, g).table, first, data))
    ensures Laid(d, w, g, chain, data)
  {
    var n := |data|;
    hide WriteWalk, IsChain, Geometry.Valid, SectorOf, FatDisk.View, Mirrored, Holding, FileChain, Geometry.Fits, Formatted;
    hide Laid;
    forall i: nat | i < n
      ensures SectorOf(g, chain, i) < |w| && data[i] == w[SectorOf(g, chain, i)][i % SECTOR]
    {
      DataLaid(d, w, g, chain, first, data, i, i % SECTOR);
    }
    AllHolding(w, g, chain, data);
    if n > 0 {
      var last := w[SectorOf(g, chain, n - 1)];
      forall x | (n - 1) % SECTOR < x < SECTOR ensures last[x] == 0 {
        DataLaid(d, w, g, chain, first, data, n - 1, x);
      }
    }
    forall l: nat | l < |w| && (forall i: nat :: i < n ==> SectorOf(g, chain, i) != l) ensures w[l] == d[l] {
      RestLaid(d, w, g, chain, first, data, l);
    }
    AllLaid(d, w, g, chain, data);
  }

  lemma AllLaid(d: Disk, w: Disk, g: Geometry, chain: seq<nat>, data: seq<Byte>)
    requires |w| == |d| && Holding(w, g, chain, data)
    requires |data| > 0 ==>
               && SectorOf(g, chain, |data| - 1) < |w|
               && var last := w[SectorOf(g, chain, |data| - 1)];
                  forall x :: (|data| - 1) % SECTOR < x < SECTOR ==> last[x] == 0
    requires forall l: nat :: l < |w| && (forall i: nat :: i < |data| ==> SectorOf(g, chain, i) != l) ==> w[l] == d[l]
    ensures Laid(d, w, g, chain, data)
  {
    hide Holding, SectorOf;
  }

  lemma FilesWritten(d: Disk, w: Disk, g: Geometry, first: nat, data: seq<Byte>)
    requires Formatted(d, g) && Formatted(w, g) && |w| == |d| && g.Fits(View(d, g).rest)
    requires View(w, g) == View(d, g).(rest := WriteWalk(View(d, g).rest, g, View(d, g).table, first, data))
    ensures forall chain :: FileChain(g, View(d, g).table, chain, first, |data|) ==>
              Unplaced(g, View(d, g).table, first, |data|) == 0 && Laid(d, w, g, chain, data)
  {
    hide WriteWalk, Laid, FileChain, FatDisk.View, Mirrored, Unplaced;
    forall chain | FileChain(g, View(d, g).table, chain, first, |data|)
      ensures Unplaced(g, View(d, g).table, first, |data|) == 0 && Laid(d, w, g, chain, data)
    {
      WholeFile(g, View(d, g).table, chain, first, |data|);
      FileWritten(d, w, g, chain, first, data);
    }
  }

  /** Byte x of the sector that holds byte i of the data. */
  lemma DataLaid(d: Disk, w: Disk, g: Geometry, chain: seq<nat>, first: nat, data: seq<Byte>, i: nat, x: nat)
    requires Formatted(d, g) && Formatted(w, g) && |w| == |d| && FileChain(g, View(d, g).table, chain, first, |data|)
    requires g.Fits(View(d, g).rest) && i < |data| && x < SECTOR
    requires View(w, g) == View(d, g).(rest := WriteWalk(View(d, g).rest, g, View(d, g).table, first, data))
    ensures SectorOf(g, chain, i) < |w|
    ensures w[SectorOf(g, chain, i)][x] ==
            if i - i % SECTOR + x < |data| then data[i - i % SECTOR + x] else 0
  {
    var v := View(d, g);
    hide IsChain, ReadWalk, WriteWalk, SectorOf, Room, Geometry.Lba, Geometry.Valid, Geometry.Fits, FatDisk.View, Mirrored,
         Formatted, FileChain, Holding;
    Unpacked(d, g, chain, first, |data|);
    WriteByteAt(v.rest, g, v.table, chain, data, i, x);
    SectorSeen(w, g, chain, i);
  }

  lemma WriteByteAt(r: Disk, g: Geometry, t: Table, chain: seq<nat>, data: seq<Byte>, i: nat, x: nat)
    requires g.Valid() && g.Fits(r) && g.Top() <= |t| && IsChain(t, g.Top(), g.Eoc(), chain)
    requires i < |data| && i < Room(g, |chain|) && x < SECTOR && forall j :: 0 <= j < |chain| ==> chain[j] >= 2
    ensures SectorOf(g, chain, i) < |r|
    ensures WriteWalk(r, g, t, chain[0], data)[SectorOf(g, chain, i)][x] ==
            if i - i % SECTOR + x < |data| then data[i - i % SECTOR + x] else 0
  {
    hide IsChain, ReadWalk, WriteWalk, SectorOf, Room, Geometry.Lba, Geometry.Valid, Geometry.Fits, FatDisk.View, Mirrored,
         Formatted, FileChain, Holding;
    var k, s := Spot(g, chain, i);
    WriteWalkPlace(r, g, t, chain, data, k, s, x);
  }

  lemma RestLaid(d: Disk, w: Disk, g: Geometry, chain: seq<nat>, first: nat, data: seq<Byte>, l: nat)
    requires Formatted(d, g) && Formatted(w, g) && |w| == |d| && FileChain(g, View(d, g).table, chain, first, |data|)
    requires g.Fits(View(d, g).rest) && l < |w| && forall i: nat :: i < |data| ==> SectorOf(g, chain, i) != l
    requires View(w, g) == View(d, g).(rest := WriteWalk(View(d, g).rest, g, View(d, g).table, first, data))
    ensures w[l] == d[l]
  {
    var v := View(d, g);
    hide WriteWalk, IsChain, SectorOf, FatDisk.View, Mirrored, Geometry.Lba, Room, FileChain, Geometry.Valid, Geometry.Fits;
    Unpacked(d, g, chain, first, |data|);
    var x := WriteWalk(v.rest, g, v.table, chain[0], data);
    if InChain(g, chain, l) {
      var k :| 0 <= k < |chain| && g.Lba(chain[k]) <= l < g.Lba(chain[k]) + g.spc;
      var s := l - g.Lba(chain[k]);
      SectorAt(g, chain, k, SECTOR * s);
      forall b | 0 <= b < SECTOR ensures x[l][b] == v.rest[l][b] {
        WriteWalkPlace(v.rest, g, v.table, chain, data, k, s, b);
      }
      assert x[l] == v.rest[l];
    } else {
      WriteWalkFrame(v.rest, g, v.table, chain, data, l);
    }
    SectorDetermined(w, d, g, l);
  }

  lemma WholeFile(g: Geometry, t: Table, chain: seq<nat>, first: nat, n: nat)
    requires g.Valid() && g.Top() <= |t| && FileChain(g, t, chain, first, n)
    ensures Unplaced(g, t, first, n) == 0
  {
    PlacedIff(g, t, chain, n);
  }
}
