/** fat.c on a mounted volume: FAT entries of all three kinds, file data, and the FAT12/16
    allocator. ATA transfers never fail here. */
module FatVolume {
  import opened Bytes
  import opened FatImage
  import opened FatDisk
  import opened FatFiles
  import opened FatSearch
  import opened FatPlaces
  import opened Chains

  class Volume {
    const g: Geometry
    var disk: Disk
    const sectorBuf: array<Byte>
    const fatSectorBuf: array<Byte>
    const fat12Buf: array<Byte>

    ghost predicate Valid()
      reads this
    {
      && g.Valid() && g.Fits(disk)
      && g.CopyBase(g.numFats) <= |disk| && g.fatStart + g.fatSectors <= |disk|
      && Mirrored(disk, g)
      && sectorBuf.Length == SECTOR && fatSectorBuf.Length == SECTOR && fat12Buf.Length == 2 * SECTOR
      && sectorBuf != fatSectorBuf && sectorBuf != fat12Buf && fatSectorBuf != fat12Buf
    }

    ghost function View(): Contents
      requires Valid()
      reads this
    {
      FatDisk.View(disk, g)
    }

    /** Mounting leaves the disk as it is; the geometry is what the boot sector describes. */
    constructor (geometry: Geometry, sectors: Disk)
      requires geometry.Valid() && geometry.Fits(sectors)
      requires geometry.CopyBase(geometry.numFats) <= |sectors| && Mirrored(sectors, geometry)
      ensures Valid() && g == geometry && disk == sectors
      ensures fresh(sectorBuf) && fresh(fatSectorBuf) && fresh(fat12Buf)
    {
      g, disk := geometry, sectors;
      sectorBuf := new Byte[SECTOR];
      fatSectorBuf := new Byte[SECTOR];
      fat12Buf := new Byte[2 * SECTOR];
      FatFits(geometry, sectors, 0);
    }

    // -------------------------------------------------------------- ATA

    method AtaReadSector(lba: nat, buf: array<Byte>, at: nat)
      requires lba < |disk| && at + SECTOR <= buf.Length
      modifies buf
      ensures buf[at..at + SECTOR] == disk[lba]
      ensures forall i :: 0 <= i < buf.Length && !(at <= i < at + SECTOR) ==> buf[i] == old(buf[i])
    {
      for i := 0 to SECTOR
        invariant forall j :: 0 <= j < i ==> buf[at + j] == disk[lba][j]
        invariant forall j :: 0 <= j < buf.Length && !(at <= j < at + i) ==> buf[j] == old(buf[j])
      {
        buf[at + i] := disk[lba][i];
      }
    }

    method AtaWriteSector(lba: nat, buf: array<Byte>, at: nat)
      requires lba < |disk| && at + SECTOR <= buf.Length
      modifies this`disk
      ensures disk == old(disk)[lba := buf[at..at + SECTOR]]
    {
      disk := disk[lba := buf[at..at + SECTOR]];
    }

    // -------------------------------------------------------------- FAT entries

    /** Copies the FAT sector buffer to sector idx of every FAT copy. */
    method SyncFatSectorIndex(idx: nat) returns (ok: bool)
      requires Valid()
      modifies this`disk
      ensures ok <==> idx < g.fatSectors
      ensures |disk| == |old(disk)|
      ensures !ok ==> disk == old(disk)
      ensures ok ==> disk == PutCopies(old(disk), g, idx, [fatSectorBuf[..]], g.numFats)
    {
      if idx >= g.fatSectors {
        return false;
      }
      for c := 0 to g.numFats
        invariant |disk| == |old(disk)|
        invariant g.CopyBase(c) <= |disk|
        invariant disk == PutCopies(old(disk), g, idx, [fatSectorBuf[..]], c)
      {
        var lba := g.fatStart + c * g.fatSectors + idx;
        SpanIsProduct(c, g.fatSectors);
        FatFits(g, old(disk), c);
        CopyOrder(g, c, c + 1);
        assert fatSectorBuf[0..SECTOR] == fatSectorBuf[..];
        AtaWriteSector(lba, fatSectorBuf, 0);
      }
      return true;
    }

    method Fat16SetEntry(cluster: nat, val: nat)
      requires Valid() && g.kind.Fat16?
      requires cluster < g.Entries() && val < Limit(false)
      modifies this`disk, fatSectorBuf
      ensures Valid() && |disk| == |old(disk)|
      ensures View() == old(View()).(table := old(View()).table[cluster := val])
    {
      var offset := cluster * 2;
      var sec := offset / SECTOR;
      var off := offset % SECTOR;
      AtaReadSector(g.fatStart + sec, fatSectorBuf, 0);
      ghost var was := fatSectorBuf[..];
      assert was == fatSectorBuf[0..SECTOR];
      fatSectorBuf[off], fatSectorBuf[off + 1] := val % 256, val / 256;
      Fat16Patches(disk, g, cluster, val, was, fatSectorBuf[..]);
      hide Mirrored, FatDisk.View, PutEntry, Patches, PutCopies;
      var ok := SyncFatSectorIndex(sec);
      EntryWriteView(old(disk), g, sec, [fatSectorBuf[..]], cluster, val);
    }

    method Fat12SetEntry(cluster: nat, value: nat)
      requires Valid() && g.kind.Fat12?
      requires cluster < g.Entries()
      modifies this`disk, fat12Buf
      ensures Valid() && |disk| == |old(disk)|
      ensures View() == old(View()).(table := old(View()).table[cluster := value % 0x1000])
    {
      hide Mirrored, FatDisk.View, PutEntry, Patches, PutCopies, FatBytes, Geometry.Lba, Geometry.CopyBase;
      var val := value % 0x1000;
      var o := cluster * 3 / 2;
      var sec0 := o / SECTOR;
      var rel := o % SECTOR;
      var span := rel + 1 >= SECTOR;
      AtaReadSector(g.fatStart + sec0, fat12Buf, 0);
      if span {
        AtaReadSector(g.fatStart + sec0 + 1, fat12Buf, SECTOR);
      }
      ghost var was := fat12Buf[..];
      assert was[..SECTOR] == fat12Buf[0..SECTOR];
      assert was[SECTOR..] == fat12Buf[SECTOR..2 * SECTOR];
      PatchEntry(cluster, val, rel);
      ghost var lo: Sector := fat12Buf[0..SECTOR];
      ghost var hi: Sector := fat12Buf[SECTOR..2 * SECTOR];
      ghost var ss := if span then [lo, hi] else [lo];
      Fat12Patches(disk, g, cluster, val, was, fat12Buf[..]);
      WriteCopies(sec0, span, ss);
      EntryWriteView(old(disk), g, sec0, ss, cluster, val);
    }

    /** Splices the 12 bits of val into the two bytes at rel of the FAT12 buffer. */
    method PatchEntry(cluster: nat, val: nat, rel: nat)
      requires rel + 1 < fat12Buf.Length && val < 0x1000
      modifies fat12Buf
      ensures fat12Buf[..] == old(fat12Buf[..])[rel := PatchLo(true, cluster, val, old(fat12Buf[rel]))]
                              [rel + 1 := PatchHi(true, cluster, val, old(fat12Buf[rel + 1]))]
    {
      if cluster % 2 == 0 {
        fat12Buf[rel], fat12Buf[rel + 1] := val % 256, fat12Buf[rel + 1] / 16 * 16 + val / 256;
      } else {
        fat12Buf[rel], fat12Buf[rel + 1] := fat12Buf[rel] % 16 + 16 * (val % 16), val / 16;
      }
    }

    /** Writes the one or two sectors held in the FAT12 buffer to every FAT copy. */
    method WriteCopies(sec0: nat, span: bool, ghost ss: seq<Sector>)
      requires Valid()
      requires sec0 + (if span then 2 else 1) <= g.fatSectors
      requires ss == if span then [fat12Buf[0..SECTOR], fat12Buf[SECTOR..2 * SECTOR]] else [fat12Buf[0..SECTOR]]
      modifies this`disk
      ensures |disk| == |old(disk)|
      ensures disk == PutCopies(old(disk), g, sec0, ss, g.numFats)
    {
      hide Mirrored, Capacity, Geometry.Lba, FatDisk.View, PutRun, Geometry.Entries, Geometry.Top;
      FatFits(g, disk, 0);
      FirstCopy(disk, g, sec0, ss);
      WriteRun(g.fatStart + sec0, span, ss);
      for c := 1 to g.numFats
        invariant |disk| == |old(disk)|
        invariant g.CopyBase(c) <= |disk|
        invariant disk == PutCopies(old(disk), g, sec0, ss, c)
      {
        SpanIsProduct(c, g.fatSectors);
        FatFits(g, old(disk), c);
        CopyOrder(g, c, c + 1);
        WriteRun(g.fatStart + c * g.fatSectors + sec0, span, ss);
      }
    }

    /** Writes the one or two buffered sectors at base. */
    method WriteRun(base: nat, span: bool, ghost ss: seq<Sector>)
      requires fat12Buf.Length == 2 * SECTOR && base + (if span then 2 else 1) <= |disk|
      requires ss == if span then [fat12Buf[0..SECTOR], fat12Buf[SECTOR..2 * SECTOR]] else [fat12Buf[0..SECTOR]]
      modifies this`disk
      ensures disk == PutRun(old(disk), base, ss)
    {
      AtaWriteSector(base, fat12Buf, 0);
      if span {
        AtaWriteSector(base + 1, fat12Buf, SECTOR);
      }
    }

    /** Every FAT copy now holds val (masked to the entry width) at cluster; nothing else changed. */
    method SetEntry(cluster: nat, val: nat)
      requires Valid() && !g.kind.Exfat?
      requires cluster < g.Entries() && val < Limit(false)
      modifies this`disk, fatSectorBuf, fat12Buf
      ensures Valid() && |disk| == |old(disk)|
      ensures View() == old(View()).(table := old(View()).table[cluster := val % Limit(g.kind.Fat12?)])
    {
      hide FatDisk.View, Mirrored;
      if g.kind.Fat12? {
        Fat12SetEntry(cluster, val);
      } else {
        Fat16SetEntry(cluster, val);
      }
    }

    /** Patches each FAT copy by itself. An entry never crosses a sector, 512 being a multiple
        of 4. */
    method ExfatSetFatEntry(cluster: nat, val: nat)
      requires Valid() && g.kind.Exfat?
      requires cluster < g.Entries() && val < U32
      modifies this`disk, fatSectorBuf
      ensures Valid() && |disk| == |old(disk)|
      ensures View() == old(View()).(table := old(View()).table[cluster := val])
    {
      hide FatDisk.View, Patches, PutCopies, Mirrored, Geometry.Lba, Patch4, PutEntry;
      var offset := cluster * 4;
      var sec := offset / SECTOR;
      var off := offset % SECTOR;
      ExfatPatches(disk, g, cluster, val);
      FatFits(g, disk, 0);
      ghost var s := Patch4(disk[g.fatStart + sec], off, val);
      NoCopies(disk, g, sec, s);
      for fc := 0 to g.numFats
        invariant |disk| == |old(disk)| && g.CopyBase(fc) <= |disk|
        invariant disk == PutCopies(old(disk), g, sec, [s], fc)
      {
        CopyToPatch(old(disk), g, sec, s, fc);
        PatchSector(g.fatStart + fc * g.fatSectors + sec, off, val);
      }
      EntryWriteView(old(disk), g, sec, [s], cluster, val);
    }

    /** Reads sector base, stores val at off and writes the sector back. */
    method PatchSector(base: nat, off: nat, val: nat)
      requires base < |disk| && fatSectorBuf.Length == SECTOR
      requires off + 4 <= SECTOR && val < U32
      modifies this`disk, fatSectorBuf
      ensures disk == old(disk)[base := Patch4(old(disk)[base], off, val)]
    {
      hide Patch4;
      AtaReadSector(base, fatSectorBuf, 0);
      assert fatSectorBuf[0..SECTOR] == fatSectorBuf[..];
      Wr32(fatSectorBuf, off, val);
      assert fatSectorBuf[0..SECTOR] == fatSectorBuf[..];
      AtaWriteSector(base, fatSectorBuf, 0);
    }

    method GetEntryExfat(cluster: nat) returns (e: nat)
      requires Valid() && g.kind.Exfat?
      requires cluster < g.Entries()
      modifies fatSectorBuf
      ensures e == View().table[cluster]
    {
      hide FatDisk.View, Mirrored, FatBytes, Geometry.Lba, FromLE;
      var offset := cluster * 4;
      var off := offset % SECTOR;
      AtaReadSector(g.fatStart + offset / SECTOR, fatSectorBuf, 0);
      e := Rd32(fatSectorBuf[0..SECTOR], off);
      ExfatReadOneSector(disk, g, cluster, fatSectorBuf[0..SECTOR]);
    }

    /** The link of the cluster, if the reader sees it whole. */
    method GetEntry(cluster: nat) returns (e: nat)
      requires Valid() && cluster < g.Entries()
      modifies fatSectorBuf
      ensures g.kind.Exfat? || !Straddles(g.kind.Fat12?, cluster) ==> e == View().table[cluster]
    {
      hide FatDisk.View, Mirrored;
      if g.kind.Exfat? {
        e := GetEntryExfat(cluster);
      } else {
        e := GetEntryFat1216(cluster);
      }
    }

    /** Reads one sector, whatever the entry needs; the byte behind the buffer is arbitrary. */
    method GetEntryFat1216(cluster: nat) returns (e: nat)
      requires Valid() && !g.kind.Exfat?
      requires cluster < g.Entries()
      modifies fatSectorBuf
      ensures !Straddles(g.kind.Fat12?, cluster) ==> e == View().table[cluster]
      ensures exists past: Byte :: e == ReadBack(FatBytes(disk, g), g.kind.Fat12?, cluster, past)
    {
      hide FatDisk.View, FatBytes, Mirrored, ReadBack;
      var past: Byte :| 0 <= past < 256;
      var offset := if g.kind.Fat12? then cluster * 3 / 2 else cluster * 2;
      var off := offset % SECTOR;
      OffsetFits(g, cluster);
      AtaReadSector(g.fatStart + offset / SECTOR, fatSectorBuf, 0);
      var lo: Byte := fatSectorBuf[off];
      var hi: Byte := if off + 1 < SECTOR then fatSectorBuf[off + 1] else past;
      ReadOneSector(disk, g, cluster, fatSectorBuf[0..SECTOR], past);
      var w := lo + 256 * hi;
      if g.kind.Fat12? {
        if cluster % 2 == 1 { e := w / 16; } else { e := w % 0x1000; }
      } else {
        e := w;
      }
      assert e == Decode(g.kind.Fat12?, cluster, lo, hi);
      assert e == ReadBack(FatBytes(disk, g), g.kind.Fat12?, cluster, past);
    }

    // -------------------------------------------------------------- chains

    /** The first cluster that reads as free, or 0: the lowest free one when the search is sure
        of what it reads. */
    method FindFreeCluster() returns (c: nat)
      requires Valid() && !g.kind.Exfat?
      modifies fatSectorBuf
      ensures exists pasts: seq<Byte> ::
                |pasts| == g.Top() && c == Search(FatBytes(disk, g), g.kind.Fat12?, g.Top(), pasts, 2)
      ensures ScanSure(g, View().table, 1) ==> c == FindFree(View().table, g.Top())
      ensures c != 0 ==> 2 <= c < g.Top()
    {
      hide FatDisk.View, Mirrored, FatBytes, ReadBack, ScanSure, FindFree;
      var bad := if g.kind.Fat12? then 0x0FF7 else 0xFFF7;
      ghost var f := FatBytes(disk, g);
      ghost var pasts: seq<Byte> := [0, 0];
      c := 2;
      while c < 2 + g.clusters
        invariant 2 <= c <= g.Top() && |pasts| == c
        invariant forall k :: 2 <= k < c ==> ReadBack(f, g.kind.Fat12?, k, pasts[k]) != 0
      {
        var e := GetEntryFat1216(c);
        ghost var past: Byte :| e == ReadBack(f, g.kind.Fat12?, c, past);
        pasts := pasts + [past];
        if e != bad && e == 0 {
          Searched(disk, g, pasts, c);
          return;
        }
        c := c + 1;
      }
      Searched(disk, g, pasts, 0);
      c := 0;
    }

    /** Frees along the links from start. The table may be cyclic or cross-linked, as long as
        the walk stays inside the volume and on entries that read back. */
    method FreeChain(start: nat)
      requires Valid() && !g.kind.Exfat? && Walkable(g, View().table, start)
      modifies this`disk, fatSectorBuf, fat12Buf
      ensures Valid() && |disk| == |old(disk)|
      ensures View() == old(View()).(table := FreeWalk(old(View()).table, g.Top(), g.Eoc(), start))
    {
      hide FatDisk.View, Mirrored, Walkable, Geometry.Readable;
      var c: nat := start;
      var eoc := if g.kind.Fat12? then 0x0FF8 else 0xFFF8;
      while 2 <= c < eoc
        invariant Valid() && |disk| == |old(disk)|
        invariant View() == old(View()).(table := View().table)
        invariant Walkable(g, View().table, c)
        invariant FreeWalk(View().table, g.Top(), g.Eoc(), c) == FreeWalk(old(View()).table, g.Top(), g.Eoc(), start)
        decreases NonZero(View().table), if Live(c, eoc) then 1 else 0
      {
        ghost var t := View().table;
        WalkableStep(g, t, c);
        EntryReadable(g, c);
        var next := GetEntryFat1216(c);
        SetEntry(c, 0);
        assert NonZero(t[c := 0]) == NonZero(t) - {c};
        assert t[c] != 0 ==> c in NonZero(t);
        c := next;
      }
    }

    /** n clusters linked into a fresh chain, or nothing changed at all when fewer are free. */
    method AllocChain(n: nat) returns (ok: bool, first: nat, ghost chain: seq<nat>)
      requires Valid() && !g.kind.Exfat? && ScanSure(g, View().table, n)
      modifies this`disk, fatSectorBuf, fat12Buf
      ensures Valid() && |disk| == |old(disk)|
      ensures ok <==> n <= |FreeSet(old(View()).table, g.Top())|
      ensures !ok ==> disk == old(disk)
      ensures n == 0 ==> first == 0 && disk == old(disk)
      ensures ok ==> |chain| == n && LowestFree(old(View()).table, g.Top(), chain)
      ensures ok && n > 0 ==> first == chain[0]
      ensures ok ==> View() == old(View()).(table := Linked(old(View()).table, chain, g.Eoc()))
      ensures ok ==> AllReadable(g, chain)
    {
      hide FatDisk.View, Mirrored, ScanSure, FatBytes, Search, Geometry.Readable, IsChain, FreeWalk, Linked, FindFree;
      hide FreeSet, LowestFree, Elems;
      ghost var t := View().table;
      chain := [];
      LinkedNone(t, g.Eoc());
      if n == 0 {
        return true, 0, [];
      }
      var prev: nat := 0;
      first := 0;
      for i := 0 to n
        invariant Valid() && |disk| == |old(disk)|
        invariant |chain| == i && LowestFree(t, g.Top(), chain) && InTable(t, chain)
        invariant View() == old(View()).(table := Linked(t, chain, g.Eoc()))
        invariant i > 0 ==> first == chain[0] && prev == chain[i - 1]
        invariant AllReadable(g, chain)
      {
        LowestFreeInTable(t, g.Top(), chain);
        AllocRound(t, g.Top(), g.Eoc(), chain);
        RoundSure(g, t, chain, n);
        var c := FindFreeCluster();
        if c == 0 {
          if i > 0 {
            Rollback(first, t, chain);
          }
          ViewDetermines(old(disk), disk, g);
          IncreasingCard(chain);
          return false, first, chain;
        }
        if i == 0 {
          first := c;
        }
        LinkCluster(prev, c, i == 0, t, chain);
        prev := c;
        chain := chain + [c];
      }
      LowestFreeCard(t, g.Top(), chain);
      return true, first, chain;
    }

    /** The table writes of one allocation round. */
    method LinkCluster(prev: nat, c: nat, isFirst: bool, ghost t: Table, ghost chain: seq<nat>)
      requires Valid() && !g.kind.Exfat? && 2 <= c < g.Top()
      requires InTable(t, chain) && c < |t|
      requires View().table == Linked(t, chain, g.Eoc())
      requires isFirst <==> |chain| == 0
      requires !isFirst ==> prev == chain[|chain| - 1] && prev < g.Top()
      modifies this`disk, fatSectorBuf, fat12Buf
      ensures Valid() && |disk| == |old(disk)|
      ensures InTable(t, chain + [c])
      ensures View() == old(View()).(table := Linked(t, chain + [c], g.Eoc()))
    {
      hide FatDisk.View, Mirrored, Linked;
      var eoc := if g.kind.Fat12? then 0x0FF8 else 0xFFF8;
      LinkedExtend(t, chain, c, eoc);
      if !isFirst {
        SetEntry(prev, c);
      } else {
        LinkedNone(t, eoc);
      }
      SetEntry(c, eoc);
    }

    /** Frees the partial chain of a failed allocation. */
    method Rollback(first: nat, ghost t: Table, ghost chain: seq<nat>)
      requires Valid() && !g.kind.Exfat?
      requires |t| == |View().table| && LowestFree(t, g.Top(), chain) && InTable(t, chain)
      requires |chain| > 0 && first == chain[0]
      requires View().table == Linked(t, chain, g.Eoc()) && AllReadable(g, chain)
      modifies this`disk, fatSectorBuf, fat12Buf
      ensures Valid() && |disk| == |old(disk)|
      ensures View() == old(View()).(table := t)
    {
      hide FatDisk.View, Mirrored, Linked, IsChain, Walkable, LowestFree, FreeWalk, Geometry.Readable;
      LinkedIsChain(t, g.Top(), g.Eoc(), chain);
      ChainWalkable(g, Linked(t, chain, g.Eoc()), chain);
      FreeUndoesAlloc(t, g.Top(), g.Eoc(), chain);
      FreeChain(first);
    }

    // -------------------------------------------------------------- file data

    /** Writes data along the chain from first, zero-filling the last sector. */
    method WriteBytes(first: nat, data: seq<Byte>) returns (ok: bool)
      requires Valid()
      requires Covered(g, View().table, first, |data|)
      requires |data| < U32 && Placed(g, View().table, first, |data|) <= U32 - SECTOR
      modifies this`disk, fatSectorBuf, sectorBuf
      ensures Valid() && |disk| == |old(disk)|
      ensures View() == old(View()).(rest := WriteWalk(old(View()).rest, g, old(View()).table, first, data))
      ensures ok <==> Unplaced(g, old(View()).table, first, |data|) == 0
      ensures forall chain :: FileChain(g, View().table, chain, first, |data|) ==> ok && Laid(old(disk), disk, g, chain, data)
    {
      hide FatDisk.View, Mirrored, WriteSectors, Geometry.Readable, WriteWalk, Covered, Unplaced, Geometry.Lba;
      ghost var t := View().table;
      var size := |data|;
      var cluster: nat := first;
      var written := 0;
      var eoc := g.Eoc();
      assert data[0..] == data;
      while written < size && 2 <= cluster < eoc
        invariant Valid() && |disk| == |old(disk)|
        invariant View() == old(View()).(rest := View().rest)
        invariant 0 <= written <= size
        invariant Covered(g, t, cluster, size - written)
        invariant WriteWalk(View().rest, g, t, cluster, data[written..]) == WriteWalk(old(View()).rest, g, t, first, data)
        invariant Unplaced(g, t, cluster, size - written) == Unplaced(g, t, first, size)
        decreases size - written
      {
        CoveredStep(g, t, cluster, size - written);
        LinkReadable(g, cluster, size - written > g.ClusterBytes());
        WriteStepped(View().rest, g, t, cluster, data[written..]);
        ghost var next := t[cluster];
        written := WriteCluster(cluster, data, written);
        cluster := GetEntry(cluster);
        if written == size {
          // What the last link says does not matter.
          WriteStops(View().rest, g, t, next, data[written..]);
          WriteStops(View().rest, g, t, cluster, data[written..]);
        }
      }
      WriteStops(View().rest, g, t, cluster, data[written..]);
      ok := written == size;
      hide *;
      FilesWritten(old(disk), disk, g, first, data);
    }

    /** The first sector of a cluster. */
    method ClusterToLba(cluster: nat) returns (lba: nat)
      requires Valid() && 2 <= cluster < g.Top()
      ensures g.dataStart <= lba == g.Lba(cluster) == g.dataStart + (cluster - 2) * g.spc && lba + g.spc <= |disk|
    {
      LbaRoom(g, cluster);
      SpanIsProduct(cluster - 2, g.spc);
      lba := g.dataStart + (cluster - 2) * g.spc;
    }

    /** The inner loop: fills the sectors of one cluster from data[written..]. */
    method WriteCluster(cluster: nat, data: seq<Byte>, start: nat) returns (written: nat)
      requires Valid() && 2 <= cluster < g.Top()
      requires start < |data| < U32 && |data| - Minus(|data| - start, g.ClusterBytes()) <= U32 - SECTOR
      modifies this`disk, sectorBuf
      ensures Valid() && |disk| == |old(disk)|
      ensures start < written <= |data|
      ensures data[written..] == Drop(data[start..], g.ClusterBytes())
      ensures LbaRoomHolds(cluster)
      ensures View() == old(View()).(rest := WriteSectors(old(View()).rest, g.Lba(cluster), g.spc, data[start..]))
    {
      hide FatDisk.View, Mirrored, WriteSectors, Drop;
      LbaRoom(g, cluster);
      var size := |data|;
      var lba := ClusterToLba(cluster);
      hide Span, Capacity;
      var s := 0;
      written := start;
      while s < g.spc && written < size
        invariant Valid() && |disk| == |old(disk)|
        invariant 0 <= s <= g.spc && start <= written <= size && (s > 0 ==> start < written)
        invariant View() == old(View()).(rest := View().rest)
        invariant WriteSectors(View().rest, lba + s, g.spc - s, data[written..])
               == WriteSectors(old(View()).rest, lba, g.spc, data[start..])
        invariant Drop(data[written..], SECTOR * (g.spc - s)) == Drop(data[start..], SECTOR * g.spc)
        invariant Minus(size - written, SECTOR * (g.spc - s)) == Minus(size - start, SECTOR * g.spc)
      {
        ghost var was := written;
        WriteStep(View().rest, lba + s, g.spc - s, data[written..]);
        written := WriteOne(lba + s, data, written);
        DropTwice(data[was..], data[written..], SECTOR * (g.spc - s));
        s := s + 1;
      }
      WriteDone(View().rest, lba + s, g.spc - s, data[written..]);
    }

    /** Fills one sector from data[from..], zero-filled past its end. */
    method WriteOne(lba: nat, data: seq<Byte>, from: nat) returns (written: nat)
      requires Valid() && g.dataStart <= lba < |disk|
      requires from < |data| < U32 && from < U32 - SECTOR
      modifies this`disk, sectorBuf
      ensures Valid() && |disk| == |old(disk)|
      ensures from < written <= |data| && data[written..] == Drop(data[from..], SECTOR)
      ensures |data| - written == Minus(|data| - from, SECTOR)
      ensures View() == old(View()).(rest := old(View()).rest[lba := Pad(data[from..])])
    {
      hide FatDisk.View, Mirrored;
      var size := |data|;
      var chunk := SECTOR;
      if (from + chunk) % U32 > size {
        chunk := size - from;
      }
      for i := 0 to chunk
        modifies sectorBuf
        invariant forall j :: 0 <= j < i ==> sectorBuf[j] == data[from + j]
      {
        sectorBuf[i] := data[from + i];
      }
      for i := chunk to SECTOR
        modifies sectorBuf
        invariant forall j :: 0 <= j < chunk ==> sectorBuf[j] == data[from + j]
        invariant forall j :: chunk <= j < i ==> sectorBuf[j] == 0
      {
        sectorBuf[i] := 0;
      }
      assert sectorBuf[0..SECTOR] == Pad(data[from..]);
      DataWriteView(disk, g, lba, Pad(data[from..]));
      AtaWriteSector(lba, sectorBuf, 0);
      written := from + chunk;
    }

    ghost predicate LbaRoomHolds(cluster: nat)
      reads this
    {
      2 <= cluster && g.Lba(cluster) + g.spc <= |disk|
    }

    /** Fills p with the first size bytes found along the chain from start. */
    method ReadFile(start: nat, size: nat, p: array<Byte>) returns (read: nat)
      requires Valid()
      requires Covered(g, View().table, start, size)
      requires size <= p.Length && size < U32 && Placed(g, View().table, start, size) <= U32 - SECTOR
      requires p != sectorBuf && p != fatSectorBuf && p != fat12Buf
      modifies fatSectorBuf, sectorBuf, p
      ensures read <= size
      ensures p[..read] == ReadWalk(View().rest, g, View().table, start, size)
      ensures forall i :: read <= i < p.Length ==> p[i] == old(p[i])
      ensures forall chain :: FileChain(g, View().table, chain, start, size) ==> read == size && Holding(disk, g, chain, p[..size])
    {
      hide FatDisk.View, Mirrored, ReadSectors, Geometry.Readable, ReadWalk, Covered, Unplaced, Geometry.Lba;
      ghost var t := View().table;
      ghost var r := View().rest;
      var cluster: nat := start;
      read := 0;
      while read < size && cluster >= 2
        invariant 0 <= read <= size
        invariant Covered(g, t, cluster, size - read)
        invariant Unplaced(g, t, cluster, size - read) == Unplaced(g, t, start, size)
        invariant p[..read] + ReadWalk(r, g, t, cluster, size - read) == ReadWalk(r, g, t, start, size)
        invariant forall i :: read <= i < p.Length ==> p[i] == old(p[i])
        decreases size - read
      {
        var eocMin := g.Eoc();
        if cluster >= eocMin {
          break;
        }
        CoveredStep(g, t, cluster, size - read);
        LinkReadable(g, cluster, size - read > g.ClusterBytes());
        ReadStepped(r, g, t, cluster, size - read);
        ghost var next := t[cluster];
        ghost var was := p[..read];
        ghost var from := read;
        read := ReadCluster(cluster, size, p, read);
        Regroup(was, ReadSectors(r, g.Lba(cluster), g.spc, size - from), ReadWalk(r, g, t, t[cluster], size - read));
        cluster := GetEntry(cluster);
        if read == size {
          // What the last link says does not matter.
          ReadStops(r, g, t, next, size - read);
          ReadStops(r, g, t, cluster, size - read);
        }
      }
      ReadStops(r, g, t, cluster, size - read);
      hide *;
      FilesRead(disk, g, start, size);
    }

    /** The inner loop: appends the sectors of one cluster to p[..from]. */
    method ReadCluster(cluster: nat, size: nat, p: array<Byte>, from: nat) returns (read: nat)
      requires Valid() && 2 <= cluster < g.Top()
      requires from < size <= p.Length && size < U32
      requires size - Minus(size - from, g.ClusterBytes()) <= U32 - SECTOR
      requires p != sectorBuf
      modifies sectorBuf, p
      ensures from < read <= size
      ensures size - read == Minus(size - from, g.ClusterBytes())
      ensures LbaRoomHolds(cluster)
      ensures p[..read] == old(p[..from]) + ReadSectors(View().rest, g.Lba(cluster), g.spc, size - from)
      ensures forall i :: read <= i < p.Length ==> p[i] == old(p[i])
    {
      hide FatDisk.View, Mirrored, ReadSectors;
      LbaRoom(g, cluster);
      ghost var r := View().rest;
      var lba := ClusterToLba(cluster);
      hide Span, Capacity, Take, Geometry.Lba, Geometry.Valid, Geometry.Fits;
      ghost var p0 := p[..from];
      var s := 0;
      read := from;
      ghost var all := ReadSectors(r, lba, g.spc, size - from);
      while s < g.spc && read < size
        invariant 0 <= s <= g.spc && from <= read <= size && (s > 0 ==> from < read)
        invariant Minus(size - read, SECTOR * (g.spc - s)) == Minus(size - from, SECTOR * g.spc)
        invariant p[..read] + ReadSectors(r, lba + s, g.spc - s, size - read) == p0 + all
        invariant forall i :: read <= i < p.Length ==> p[i] == old(p[i])
      {
        ReadStep(r, lba + s, g.spc - s, size - read);
        ghost var was, part := p[..read], Take(r[lba + s], size - read);
        read := ReadOne(lba + s, size, p, read);
        s := s + 1;
        Regroup(was, part, ReadSectors(r, lba + s, g.spc - s, size - read));
      }
      ReadDone(r, lba + s, g.spc - s, size - read);
    }

    /** Appends one sector, or as much of it as size still asks for. */
    method ReadOne(lba: nat, size: nat, p: array<Byte>, from: nat) returns (read: nat)
      requires Valid() && g.dataStart <= lba < |disk|
      requires from < size <= p.Length && size < U32 && from < U32 - SECTOR
      requires p != sectorBuf
      modifies sectorBuf, p
      ensures from < read <= size && size - read == Minus(size - from, SECTOR)
      ensures p[..read] == old(p[..from]) + Take(View().rest[lba], size - from)
      ensures forall i :: read <= i < p.Length ==> p[i] == old(p[i])
    {
      hide FatDisk.View, Mirrored;
      DataSectorView(disk, g, lba);
      AtaReadSector(lba, sectorBuf, 0);
      var chunk := SECTOR;
      if (from + chunk) % U32 > size {
        chunk := size - from;
      }
      assert Take(View().rest[lba], size - from) == sectorBuf[0..chunk];
      CopyOut(p, from, chunk);
      read := from + chunk;
    }

    method CopyOut(p: array<Byte>, at: nat, chunk: nat)
      requires p != sectorBuf && chunk <= sectorBuf.Length && at + chunk <= p.Length
      modifies p
      ensures p[..at + chunk] == old(p[..at]) + sectorBuf[0..chunk]
      ensures forall i :: at + chunk <= i < p.Length ==> p[i] == old(p[i])
    {
      for i := 0 to chunk
        invariant forall j :: 0 <= j < i ==> p[at + j] == sectorBuf[j]
        invariant forall j :: 0 <= j < p.Length && !(at <= j < at + i) ==> p[j] == old(p[j])
      {
        p[at + i] := sectorBuf[i];
      }
    }

    // -------------------------------------------------------------- storing a file

    /** The data half of fat1216_write_root: allocate, write, and free again on failure. */
    method StoreFile(data: seq<Byte>) returns (ok: bool, first: nat, ghost chain: seq<nat>)
      requires Valid() && !g.kind.Exfat? && |data| < U32
      requires ScanSure(g, View().table, ClustersFor(|data|, g.ClusterBytes()))
      modifies this`disk, fatSectorBuf, fat12Buf, sectorBuf
      ensures Valid() && |disk| == |old(disk)|
      ensures ok <==> |data| <= Room(g, |FreeSet(old(View()).table, g.Top())|)
      ensures !ok ==> disk == old(disk)
      ensures ok && |data| == 0 ==> first == 0 && disk == old(disk)
      ensures ok && |data| > 0 ==>
                && |chain| > 0 && first == chain[0]
                && LowestFree(old(View()).table, g.Top(), chain)
                && Room(g, |chain| - 1) < |data| <= Room(g, |chain|)
                && View() == old(View()).(
                     table := Linked(old(View()).table, chain, g.Eoc()),
                     rest := WriteWalk(old(View()).rest, g, Linked(old(View()).table, chain, g.Eoc()), first, data))
    {
      hide FatDisk.View, Mirrored, ScanSure, LowestFree, IsChain, Linked, Room, FreeSet, WriteWalk, FreeWalk;
      hide ClustersFor;
      var size := |data|;
      var cbytes := g.spc * SECTOR;
      var ncl := ClustersFor(size, cbytes);
      StoreArithmetic(g, old(View()).table, size);
      assert g.Top() <= |old(View()).table| && g.Top() < g.Eoc();
      hide Geometry.Valid, Geometry.Fits;
      ok, first, chain := AllocChain(ncl);
      if !ok {
        return false, first, chain;
      }
      if ncl > 0 {
        LinkedIsChain(old(View()).table, g.Top(), g.Eoc(), chain);
      } else {
        LinkedNone(old(View()).table, g.Eoc());
        assert chain == [];
      }
      if size > 0 {
        ok := WriteOrFree(first, data, chain);
        if !ok {
          ViewDetermines(old(disk), disk, g);
        }
      }
    }

    /** Writes data to the chain just allocated; on failure the chain is freed again. The chain
        is empty when the cluster count wrapped to 0. */
    method WriteOrFree(first: nat, data: seq<Byte>, ghost chain: seq<nat>) returns (ok: bool)
      requires Valid() && !g.kind.Exfat? && |data| > 0
      requires |chain| == 0 ==> first == 0
      requires |chain| > 0 ==>
                 && IsChain(View().table, g.Top(), g.Eoc(), chain) && first == chain[0]
                 && |data| <= Room(g, |chain|) && |data| <= U32 - SECTOR && AllReadable(g, chain)
      requires |data| < U32
      modifies this`disk, fatSectorBuf, fat12Buf, sectorBuf
      ensures Valid() && |disk| == |old(disk)|
      ensures ok <==> |chain| > 0
      ensures View() == if ok then old(View()).(rest := WriteWalk(old(View()).rest, g, old(View()).table, first, data))
                        else old(View())
    {
      hide FatDisk.View, Mirrored, Walkable, IsChain, Room, Unplaced, WriteWalk, FreeWalk, Geometry.Readable;
      ghost var t := View().table;
      if |chain| > 0 {
        ChainCovered(g, t, chain, |data|);
        PlacedIff(g, t, chain, |data|);
      } else {
        NothingToFollow(g, t, 0);
        UnplacedAtZero(View().rest, g, t, data);
      }
      ok := WriteBytes(first, data);
      if !ok {
        FreeChain(first);
      }
    }
  }

  lemma FirstCopy(d: Disk, g: Geometry, sec: nat, ss: seq<Sector>)
    requires 1 <= |ss| <= 2 && sec + |ss| <= g.fatSectors && g.CopyBase(1) <= |d|
    ensures PutCopies(d, g, sec, ss, 1) == PutRun(d, g.fatStart + sec, ss)
  {
    assert g.CopyBase(0) == g.fatStart;
  }

  lemma LinkReadable(g: Geometry, c: nat, needed: bool)
    requires g.Valid() && 2 <= c < g.Top() && (needed ==> g.Readable(c))
    ensures c < g.Entries() && (needed ==> g.kind.Exfat? || !Straddles(g.kind.Fat12?, c))
  {
  }

  lemma EntryReadable(g: Geometry, c: nat)
    requires g.Valid() && 2 <= c < g.Top() && g.Readable(c)
    ensures c < g.Entries() && (g.kind.Exfat? || !Straddles(g.kind.Fat12?, c))
  {
  }

  /** A search for n free clusters cannot mistake any entry it reads: those with fewer than n free
      clusters below them. */
  ghost predicate ScanSure(g: Geometry, t: Table, n: nat)
    requires g.Top() <= |t|
  {
    forall c: nat :: 2 <= c < g.Top() && |FreeSet(t, c)| < n ==> Sure(g.kind.Fat12?, t, c)
  }

  predicate AllReadable(g: Geometry, chain: seq<nat>) {
    forall i :: 0 <= i < |chain| ==> g.Readable(chain[i])
  }

  /** The finished search loop, pasts being the bytes it met. */
  lemma Searched(d: Disk, g: Geometry, pasts: seq<Byte>, c: nat)
    requires g.Valid() && !g.kind.Exfat? && g.fatStart + g.fatSectors <= |d| && g.Top() <= g.Entries()
    requires if c == 0 then |pasts| == g.Top() else 2 <= c < g.Top() && |pasts| == c + 1
    requires forall k :: 2 <= k < |pasts| && k != c ==> ReadBack(FatBytes(d, g), g.kind.Fat12?, k, pasts[k]) != 0
    requires c != 0 ==> ReadBack(FatBytes(d, g), g.kind.Fat12?, c, pasts[c]) == 0
    ensures exists all: seq<Byte> ::
              |all| == g.Top() && c == Search(FatBytes(d, g), g.kind.Fat12?, g.Top(), all, 2)
    ensures ScanSure(g, FatDisk.View(d, g).table, 1) ==> c == FindFree(FatDisk.View(d, g).table, g.Top())
  {
    hide FatBytes, ReadBack, FindFree, Sure, Rest;
    var f, t := FatBytes(d, g), FatDisk.View(d, g).table;
    var all := pasts + Zeros(g.Top() - |pasts|);
    assert forall k :: 0 <= k < |pasts| ==> all[k] == pasts[k];
    var s := Search(f, g.kind.Fat12?, g.Top(), all, 2);
    hide Search;
    assert s == c by {
      if c != 0 {
        assert ReadBack(f, g.kind.Fat12?, c, all[c]) == 0;
      }
      if s != 0 && s < |pasts| {
        assert ReadBack(f, g.kind.Fat12?, s, pasts[s]) == 0;
      }
    }
    if ScanSure(g, t, 1) {
      forall k: nat | 2 <= k < g.Top() && AllUsedBelow(t, k) ensures Sure(g.kind.Fat12?, t, k) {
        assert FreeSet(t, k) == {};
      }
      SearchIsSure(f, g.kind.Fat12?, g.Top(), all);
    }
  }

  /** What the next round of an allocation reads was covered, and the cluster it finds reads back. */
  lemma RoundSure(g: Geometry, t: Table, chain: seq<nat>, n: nat)
    requires g.Top() <= |t| && 2 <= g.Top() <= g.Eoc() && |chain| < n
    requires LowestFree(t, g.Top(), chain) && ScanSure(g, t, n) && AllReadable(g, chain)
    ensures ScanSure(g, Linked(t, chain, g.Eoc()), 1)
    ensures var c := FindFree(Linked(t, chain, g.Eoc()), g.Top()); c != 0 ==> g.Readable(c)
  {
    hide Linked, Straddles;
    var l := Linked(t, chain, g.Eoc());
    LinkedEntries(t, chain, g.Eoc());
    forall c: nat | 2 <= c < g.Top() && FreeSet(l, c) == {} ensures Sure(g.kind.Fat12?, l, c) {
      ReadBefore(g, t, chain, c);
      if c !in chain { assert l[c] == t[c]; }
    }
    var c := FindFree(l, g.Top());
    if c != 0 {
      assert FreeSet(l, c) == {};
      assert Sure(g.kind.Fat12?, l, c) && l[c] == 0;
    }
  }

  /** A cluster with no free one below it after linking had fewer than n below it before. */
  lemma ReadBefore(g: Geometry, t: Table, chain: seq<nat>, c: nat)
    requires g.Top() <= |t| && 2 <= g.Top() <= g.Eoc() && LowestFree(t, g.Top(), chain)
    requires 2 <= c < g.Top() && FreeSet(Linked(t, chain, g.Eoc()), c) == {}
    ensures |FreeSet(t, c)| <= |chain|
  {
    hide Linked;
    var l := Linked(t, chain, g.Eoc());
    forall x | x in FreeSet(t, c) ensures x in Elems(chain) {
      LinkedFree(t, g.Top(), g.Eoc(), chain, x);
      assert x !in FreeSet(l, c);
    }
    IncreasingCard(chain);
    SubsetCard(FreeSet(t, c), Elems(chain));
  }

  lemma OffsetFits(g: Geometry, c: nat)
    requires !g.kind.Exfat? && c < g.Entries()
    ensures Offset(g.kind.Fat12?, c) / SECTOR < g.fatSectors
    ensures Straddles(g.kind.Fat12?, c) ==> Offset(g.kind.Fat12?, c) / SECTOR + 1 < g.fatSectors
  {
  }

  /** What the readers compute from one loaded sector s and the byte past behind it. */
  lemma ReadOneSector(d: Disk, g: Geometry, c: nat, s: Sector, past: Byte)
    requires g.fatStart + g.fatSectors <= |d|
    requires !g.kind.Exfat? && c < g.Entries()
    requires Offset(g.kind.Fat12?, c) / SECTOR < g.fatSectors
    requires s == d[g.fatStart + Offset(g.kind.Fat12?, c) / SECTOR]
    ensures var off := Offset(g.kind.Fat12?, c) % SECTOR;
            var e := Decode(g.kind.Fat12?, c, s[off], if off + 1 < SECTOR then s[off + 1] else past);
            && e == ReadBack(FatBytes(d, g), g.kind.Fat12?, c, past)
            && (!Straddles(g.kind.Fat12?, c) ==> e == FatDisk.View(d, g).table[c])
  {
    hide Decode, Entry;
    DecodeIsEntry(FatBytes(d, g), g.kind.Fat12?, c);
  }

  /** The patched sector buffer of fat16_set_entry is the patched image. */
  lemma Fat16Patches(d: Disk, g: Geometry, cluster: nat, val: nat, was: seq<Byte>, buf: seq<Byte>)
    requires g.Valid() && g.kind.Fat16? && g.fatStart + g.fatSectors <= |d|
    requires cluster < g.Entries() && val < Limit(false)
    requires was == d[g.fatStart + Offset(false, cluster) / SECTOR]
    requires var rel := Offset(false, cluster) % SECTOR;
             rel + 1 < SECTOR && buf == was[rel := val % 256][rel + 1 := val / 256]
    ensures |buf| == SECTOR
    ensures Patches(d, g, Offset(false, cluster) / SECTOR, [buf], PutEntry(FatBytes(d, g), g, cluster, val))
  {
    var o := Offset(false, cluster);
    var sec, rel, f := o / SECTOR, o % SECTOR, PutEntry(FatBytes(d, g), g, cluster, val);
    assert o + 1 < g.FatBytesLen() && f == FatBytes(d, g)[o := val % 256][o + 1 := val / 256];
    hide PutEntry, Offset, Capacity;
    EvenOffset(o);
    forall q {:trigger f[q]} | 0 <= q < |f|
      ensures f[q] == if sec <= q / SECTOR < sec + 1 then buf[q % SECTOR] else FatBytes(d, g)[q]
    {
      if q / SECTOR == sec {
        assert q - o == q % SECTOR - rel;
      }
    }
  }

  lemma EvenOffset(o: nat)
    requires o % 2 == 0
    ensures o == SECTOR * (o / SECTOR) + o % SECTOR && o % SECTOR <= SECTOR - 2
  {
    DivMod(o % SECTOR, 2, o / 2 - 256 * (o / SECTOR), 0);
  }

  /** The patched two-sector buffer of fat12_set_entry is the patched image. */
  lemma Fat12Patches(d: Disk, g: Geometry, cluster: nat, val: nat, was: seq<Byte>, buf: seq<Byte>)
    requires g.Valid() && g.kind.Fat12? && g.fatStart + g.fatSectors <= |d|
    requires cluster < g.Entries() && val < 0x1000
    requires |was| == 2 * SECTOR
    requires was[..SECTOR] == d[g.fatStart + Offset(true, cluster) / SECTOR]
    requires Straddles(true, cluster) ==>
               was[SECTOR..] == d[g.fatStart + Offset(true, cluster) / SECTOR + 1]
    requires var rel := Offset(true, cluster) % SECTOR;
             buf == was[rel := PatchLo(true, cluster, val, was[rel])]
                       [rel + 1 := PatchHi(true, cluster, val, was[rel + 1])]
    ensures |buf| == 2 * SECTOR
    ensures var lo: Sector := buf[0..SECTOR];
            var hi: Sector := buf[SECTOR..2 * SECTOR];
            Patches(d, g, Offset(true, cluster) / SECTOR, if Straddles(true, cluster) then [lo, hi] else [lo],
                    PutEntry(FatBytes(d, g), g, cluster, val))
  {
    var o := Offset(true, cluster);
    var f := FatBytes(d, g);
    var rel := o % SECTOR;
    assert f[o] == was[..SECTOR][rel];
    if Straddles(true, cluster) {
      assert f[o + 1] == was[SECTOR..][0];
    } else {
      assert f[o + 1] == was[..SECTOR][rel + 1];
    }
  }

  // ---------------------------------------------------------------- 32-bit fields

  function Rd32(s: seq<Byte>, at: nat): (v: nat)
    requires at + 4 <= |s|
    ensures v < U32 && v == FromLE(s[at..at + 4])
  {
    FourBytes(s[at..at + 4]);
    Word(s[at], s[at + 1], s[at + 2], s[at + 3])
  }

  function Word(b0: int, b1: int, b2: int, b3: int): int {
    b0 + 256 * b1 + 65536 * b2 + 16777216 * b3
  }

  lemma FourBytes(s: seq<Byte>)
    requires |s| == 4
    ensures FromLE(s) == Word(s[0], s[1], s[2], s[3]) < U32
  {
    assert s[1..][1..] == s[2..] && s[2..][1..] == s[3..] && s[3..][1..] == [];
    assert FromLE(s[3..]) == s[3] && FromLE(s[2..]) == Word(s[2], s[3], 0, 0);
  }

  method Wr32(p: array<Byte>, at: nat, v: nat)
    requires at + 4 <= p.Length && v < U32
    modifies p
    ensures p[..] == Patch4(old(p[..]), at, v)
  {
    FourOf(v);
    p[at] := v % 256;
    p[at + 1] := v / 256 % 256;
    p[at + 2] := v / 65536 % 256;
    p[at + 3] := v / 16777216 % 256;
  }

  lemma FourOf(v: nat)
    ensures LE(v, 4) == [v % 256, v / 256 % 256, v / 65536 % 256, v / 16777216 % 256]
  {
    assert LE(v, 4) == [v % 256] + LE(v / 256, 3);
    assert LE(v / 256, 3) == [v / 256 % 256] + LE(v / 65536, 2);
    assert LE(v / 65536, 2) == [v / 65536 % 256] + LE(v / 16777216, 1);
  }

  /** s with v stored in the four bytes at at. */
  function Patch4(s: seq<Byte>, at: nat, v: nat): (r: seq<Byte>)
    requires at + 4 <= |s|
    ensures |r| == |s|
  {
    s[..at] + LE(v, 4) + s[at + 4..]
  }

  lemma NoCopies(d: Disk, g: Geometry, sec: nat, s: Sector)
    requires sec < g.fatSectors && g.CopyBase(0) <= |d|
    ensures PutCopies(d, g, sec, [s], 0) == d
  {
  }

  /** While the first fc copies are patched, copy fc still holds what copy 0 held. */
  lemma CopyToPatch(d: Disk, g: Geometry, sec: nat, s: Sector, fc: nat)
    requires g.Valid() && g.Fits(d) && g.CopyBase(g.numFats) <= |d| && g.fatStart + g.fatSectors <= |d|
    requires Mirrored(d, g) && fc < g.numFats && sec < g.fatSectors && g.CopyBase(fc) <= |d|
    ensures g.fatStart + fc * g.fatSectors + sec == g.CopySector(fc, sec) < |d|
    ensures g.CopyBase(fc + 1) <= |d|
    ensures PutCopies(d, g, sec, [s], fc)[g.CopySector(fc, sec)] == d[g.fatStart + sec]
    ensures PutCopies(d, g, sec, [s], fc + 1) == PutCopies(d, g, sec, [s], fc)[g.CopySector(fc, sec) := s]
  {
    SpanIsProduct(fc, g.fatSectors);
    FatFits(g, d, fc);
    CopyOrder(g, fc, fc + 1);
    PutCopiesMiss(d, g, sec, [s], fc, g.CopySector(fc, sec));
    assert d[g.CopySector(fc, sec)] == d[g.fatStart + sec];
  }

  lemma ExfatPatches(d: Disk, g: Geometry, cluster: nat, val: nat)
    requires g.Valid() && g.kind.Exfat? && g.fatStart + g.fatSectors <= |d|
    requires cluster < g.Entries() && val < U32
    ensures 4 * cluster / SECTOR < g.fatSectors && 4 * cluster % SECTOR <= SECTOR - 4
    ensures var sec := 4 * cluster / SECTOR;
            Patches(d, g, sec, [Patch4(d[g.fatStart + sec], 4 * cluster % SECTOR, val)],
                    PutEntry(FatBytes(d, g), g, cluster, val))
  {
    ExfatEntryFits(g, cluster);
    AlignedOffset(4 * cluster);
    hide LE;
    var sec, rel, f := 4 * cluster / SECTOR, 4 * cluster % SECTOR, PutEntry(FatBytes(d, g), g, cluster, val);
    var s: Sector := Patch4(d[g.fatStart + sec], rel, val);
    forall q {:trigger f[q]} | 0 <= q < |f|
      ensures f[q] == if sec <= q / SECTOR < sec + 1 then s[q % SECTOR] else FatBytes(d, g)[q]
    {
      if q / SECTOR == sec {
        assert q - 4 * cluster == q % SECTOR - rel;
      }
    }
  }

  lemma ExfatReadOneSector(d: Disk, g: Geometry, cluster: nat, s: Sector)
    requires g.fatStart + g.fatSectors <= |d|
    requires g.kind.Exfat? && cluster < g.Entries()
    requires 4 * cluster / SECTOR < g.fatSectors && s == d[g.fatStart + 4 * cluster / SECTOR]
    ensures 4 * cluster % SECTOR <= SECTOR - 4
    ensures FromLE(s[4 * cluster % SECTOR..4 * cluster % SECTOR + 4]) == FatDisk.View(d, g).table[cluster]
  {
    hide FromLE, FatBytes, FatDisk.View, Geometry.Entries;
    ExfatEntryFits(g, cluster);
    ExfatEntryAt(d, g, cluster);
    DivMod(4 * cluster, 4, cluster, 0);
    AlignedWord(d, g, 4 * cluster);
  }

  lemma ExfatEntryFits(g: Geometry, c: nat)
    requires g.kind.Exfat? && c < g.Entries()
    ensures 4 * c + 4 <= g.FatBytesLen()
  {
  }

  lemma ExfatEntryAt(d: Disk, g: Geometry, c: nat)
    requires g.fatStart + g.fatSectors <= |d|
    requires g.kind.Exfat? && c < g.Entries() && 4 * c + 4 <= g.FatBytesLen()
    ensures FatDisk.View(d, g).table[c] == FromLE(FatBytes(d, g)[4 * c..4 * c + 4])
  {
    hide FromLE, FatBytes, Rest;
  }

  /** The four bytes of an aligned entry share a sector. */
  lemma AlignedWord(d: Disk, g: Geometry, q: nat)
    requires g.fatStart + g.fatSectors <= |d|
    requires q % 4 == 0 && q + 4 <= g.FatBytesLen()
    ensures q / SECTOR < g.fatSectors && q % SECTOR <= SECTOR - 4
    ensures FatBytes(d, g)[q..q + 4] == d[g.fatStart + q / SECTOR][q % SECTOR..q % SECTOR + 4]
  {
    var n, k := q / SECTOR, q % SECTOR;
    AlignedOffset(q);
    hide FatBytes;
    WordAt(d, g, n, k);
  }

  lemma AlignedOffset(q: nat)
    requires q % 4 == 0
    ensures q == SECTOR * (q / SECTOR) + q % SECTOR && q % SECTOR <= SECTOR - 4
  {
    DivMod(q % SECTOR, 4, q / 4 - 128 * (q / SECTOR), 0);
  }

  lemma WordAt(d: Disk, g: Geometry, n: nat, k: nat)
    requires g.fatStart + g.fatSectors <= |d| && n < g.fatSectors && k + 4 <= SECTOR
    ensures FatBytes(d, g)[SECTOR * n + k..SECTOR * n + k + 4] == d[g.fatStart + n][k..k + 4]
  {
    FatByteAt(d, g, n, k);
    FatByteAt(d, g, n, k + 1);
    FatByteAt(d, g, n, k + 2);
    FatByteAt(d, g, n, k + 3);
    hide FatBytes;
    assert FatBytes(d, g)[SECTOR * n + k..SECTOR * n + k + 4] == d[g.fatStart + n][k..k + 4];
  }

  lemma FatByteAt(d: Disk, g: Geometry, n: nat, k: nat)
    requires g.fatStart + g.fatSectors <= |d| && n < g.fatSectors && k < SECTOR
    ensures FatBytes(d, g)[SECTOR * n + k] == d[g.fatStart + n][k]
  {
    assert (SECTOR * n + k) / SECTOR == n && (SECTOR * n + k) % SECTOR == k;
  }

  predicate InTable(t: Table, chain: seq<nat>) {
    forall i :: 0 <= i < |chain| ==> chain[i] < |t|
  }

  lemma LowestFreeInTable(t: Table, top: nat, chain: seq<nat>)
    requires top <= |t| && LowestFree(t, top, chain)
    ensures InTable(t, chain)
    ensures forall i :: 0 <= i < |chain| ==> 2 <= chain[i] < top
    ensures Distinct(chain)
  {
  }

  lemma LinkedNone(t: Table, eoc: nat)
    ensures Linked(t, [], eoc) == t
    ensures forall top: nat :: top <= |t| ==> LowestFree(t, top, [])
  {
  }

  lemma LowestFreeCard(t: Table, top: nat, chain: seq<nat>)
    requires top <= |t| && LowestFree(t, top, chain)
    ensures |chain| <= |FreeSet(t, top)|
  {
    IncreasingCard(chain);
    SubsetCard(Elems(chain), FreeSet(t, top));
  }

  /** The data region shows through the view. */
  lemma DataSectorView(d: Disk, g: Geometry, l: nat)
    requires g.Valid() && g.Fits(d) && g.CopyBase(g.numFats) <= |d| && g.fatStart + g.fatSectors <= |d|
    requires g.dataStart <= l < |d|
    ensures FatDisk.View(d, g).rest[l] == d[l]
  {
  }

  /** The 32-bit cluster count computed for size bytes. */
  function ClustersFor(size: nat, cbytes: nat): nat
    requires cbytes > 0
  {
    if size == 0 then 0 else ((size + cbytes - 1) % U32) / cbytes
  }

  /** The cluster count of fat1216_write_root, 32-bit wrap included: it wraps to 0 only for
      sizes no volume can hold. */
  lemma StoreArithmetic(g: Geometry, t: Table, size: nat)
    requires g.Valid() && !g.kind.Exfat? && g.Top() <= |t| && size < U32
    ensures var ncl := ClustersFor(size, g.ClusterBytes());
            var free := |FreeSet(t, g.Top())|;
            && (ncl > 0 ==> Room(g, ncl - 1) < size <= Room(g, ncl) && (size <= Room(g, free) <==> ncl <= free))
            && (ncl > 0 && ncl <= free ==> size <= U32 - SECTOR)
            && (ncl == 0 && size > 0 ==> size > Room(g, free))
  {
    hide Room, FreeSet, Capacity;
    var free := |FreeSet(t, g.Top())|;
    FreeSetBound(t, g.Top());
    VolumeRoom(g, free);
    if size > 0 {
      ClusterCount(g, size, free);
      WrappedCount(size + g.ClusterBytes() - 1, g.ClusterBytes());
    }
  }

  lemma WrappedCount(x: nat, cb: nat)
    requires 0 < cb <= U32 && x < U32 + cb
    ensures (x % U32) / cb == if x < U32 then x / cb else 0
  {
    if x >= U32 {
      assert x % U32 == x - U32 < cb;
    }
  }

  lemma UnplacedAtZero(r: Disk, g: Geometry, t: Table, data: seq<Byte>)
    requires g.Valid() && g.Fits(r) && g.Top() <= |t|
    ensures Unplaced(g, t, 0, |data|) == |data|
    ensures WriteWalk(r, g, t, 0, data) == r
    ensures FreeWalk(t, g.Top(), g.Eoc(), 0) == t
    ensures Linked(t, [], g.Eoc()) == t
  {
  }

  lemma Regroup(a: seq<Byte>, b: seq<Byte>, c: seq<Byte>)
    ensures (a + b) + c == a + (b + c)
  {
  }

  lemma ReadStep(r: Disk, l: nat, m: nat, n: nat)
    requires l + m <= |r| && m > 0 && n > 0
    ensures ReadSectors(r, l, m, n) == Take(r[l], n) + ReadSectors(r, l + 1, m - 1, Minus(n, SECTOR))
  {
  }

  lemma ReadDone(r: Disk, l: nat, m: nat, n: nat)
    requires l + m <= |r| && (m == 0 || n == 0)
    ensures ReadSectors(r, l, m, n) == []
  {
  }

  lemma WriteStep(r: Disk, l: nat, m: nat, data: seq<Byte>)
    requires l + m <= |r| && m > 0 && |data| > 0
    ensures WriteSectors(r, l, m, data) == WriteSectors(r[l := Pad(data)], l + 1, m - 1, Drop(data, SECTOR))
  {
  }

  lemma WriteDone(r: Disk, l: nat, m: nat, data: seq<Byte>)
    requires l + m <= |r| && (m == 0 || |data| == 0)
    ensures WriteSectors(r, l, m, data) == r
    ensures Drop(data, SECTOR * m) == data
  {
  }

  lemma DropTwice(s: seq<Byte>, t: seq<Byte>, n: nat)
    requires t == Drop(s, SECTOR) && n >= SECTOR
    ensures Drop(t, n - SECTOR) == Drop(s, n)
  {
  }
}
