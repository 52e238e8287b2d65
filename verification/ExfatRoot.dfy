/** fat.c on the root directory of an exFAT volume: searching it, adding files and overwriting
    them. */
module ExfatRoot {
  import opened Bytes
  import opened FatImage
  import opened FatDisk
  import opened FatFiles
  import opened FatPlaces
  import opened FatVolume
  import opened Chains
  import opened ExfatChains
  import opened ExfatBitmap
  import opened ExfatVolume
  import opened ExfatDirectory
  import opened ExfatPrint
  import opened ExfatFrame

  // ---------------------------------------------------------------- slots on the disk

  /** Slot k counted from sector l; past the end of the disk reads give zeros. */
  function SlotAt(r: Disk, l: nat, k: nat): Slot {
    if l + k / 16 < |r| then r[l + k / 16][32 * (k % 16)..32 * (k % 16) + 32] else Zeros(SLOT)
  }

  /** The slots of a directory cluster and the few behind it a search can run into. */
  function DirAt(r: Disk, l: nat, cap: nat): (d: seq<Slot>)
    ensures |d| == cap + OVERRUN
  {
    seq(cap + OVERRUN, k requires 0 <= k < cap + OVERRUN => SlotAt(r, l, k))
  }

  function PutSlot(r: Disk, l: nat, k: nat, s: Slot): (w: Disk)
    requires l + k / 16 < |r|
    ensures |w| == |r|
  {
    r[l + k / 16 := Patched(r[l + k / 16], 32 * (k % 16), s)]
  }

  function Patched(sec: Sector, at: nat, s: Slot): Sector
    requires at + 32 <= SECTOR
  {
    sec[..at] + s + sec[at + 32..]
  }

  lemma PutSlotAt(r: Disk, l: nat, k: nat, s: Slot, j: nat)
    requires l + k / 16 < |r|
    ensures SlotAt(PutSlot(r, l, k, s), l, j) == if j == k then s else SlotAt(r, l, j)
  {
    if j / 16 == k / 16 {
      PatchedAt(r[l + k / 16], k % 16, s, j % 16);
      assert j == 16 * (j / 16) + j % 16 && k == 16 * (k / 16) + k % 16;
    }
  }

  lemma PatchedAt(sec: Sector, a: nat, s: Slot, b: nat)
    requires a < 16 && b < 16
    ensures Patched(sec, 32 * a, s)[32 * b..32 * b + 32] == if a == b then s else sec[32 * b..32 * b + 32]
  {
  }

  // ---------------------------------------------------------------- searching a chain of clusters

  datatype Lookup = Missing | Present(dirClu: nat, hit: Hit)

  function Cap(g: Geometry): nat { 16 * g.spc }

  predicate Clusters(chain: seq<nat>) {
    forall i :: 0 <= i < |chain| ==> chain[i] >= 2
  }

  function DirOf(r: Disk, g: Geometry, c: nat): (d: seq<Slot>)
    requires c >= 2
    ensures |d| == Cap(g) + OVERRUN
  {
    DirAt(r, g.Lba(c), Cap(g))
  }

  function LookIn(r: Disk, g: Geometry, chain: seq<nat>, e: seq<Byte>): Lookup
    requires Clusters(chain)
  {
    if |chain| == 0 then Missing
    else
      match Scan(DirOf(r, g, chain[0]), Cap(g), 0, e)
      case Found(h) => Present(chain[0], h)
      case Stop => Missing
      case Past => LookIn(r, g, chain[1..], e)
  }

  /** The first slot from k on that starts with a zero, cap if there is none. */
  function FirstZero(d: seq<Slot>, cap: nat, k: nat): (z: nat)
    requires k <= cap <= |d|
    ensures k <= z <= cap
    ensures forall j :: k <= j < z ==> d[j][0] != 0
    ensures z < cap ==> d[z][0] == 0
    decreases cap - k
  {
    if k == cap || d[k][0] == 0 then k else FirstZero(d, cap, k + 1)
  }

  datatype Place = Nowhere | At(clu: nat, slot: nat)

  /** Where need slots and an end marker go. */
  function PlaceFor(r: Disk, g: Geometry, chain: seq<nat>, need: nat): (p: Place)
    requires Clusters(chain)
    ensures p.At? ==> p.clu in chain && p.slot + need + 1 <= Cap(g) && DirOf(r, g, p.clu)[p.slot][0] == 0
  {
    if |chain| == 0 then Nowhere
    else
      var z := FirstZero(DirOf(r, g, chain[0]), Cap(g), 0);
      if z < Cap(g) && z + need + 1 <= Cap(g) then At(chain[0], z)
      else PlaceFor(r, g, chain[1..], need)
  }

  /** Where a file's set goes: over the old one if that is as long, else to the end marker. */
  function Target(l: Lookup, r: Disk, g: Geometry, root: seq<nat>): Place
    requires Clusters(root)
  {
    match l
    case Missing => PlaceFor(r, g, root, 3)
    case Present(clu, h) => if h.secCount == 2 then At(clu, h.slot) else Nowhere
  }

  /** What an allocation for name e starts from: an existing file's chain is given back first. */
  ghost function Base(s: Space, g: Geometry, l: Lookup): (b: Space)
    requires g.Top() <= |s.fat|
    ensures |b.fat| == |s.fat|
  {
    match l
    case Missing => s
    case Present(_, h) => Freed(s, g.Top(), h.cluster)
  }

  /** The chain of an existing file stays inside the volume and away from the root directory and
      the bitmap. */
  ghost predicate Releasable(s: Space, g: Geometry, m: Bitmap, root: seq<nat>, l: Lookup)
    requires g.Top() <= |s.fat|
  {
    l.Present? ==>
      && WalkInRange(s.fat, g.Top(), EOC, l.hit.cluster)
      && forall x: nat :: Reaches(s.fat, g.Top(), EOC, l.hit.cluster, x) ==> x !in root && ClearOf(g, m, {x})
  }

  class ExfatRoot {
    const fs: ExfatVolume
    const rootCluster: nat

    ghost predicate Valid()
      reads this, fs, fs.vol
    {
      fs.Valid()
    }

    ghost predicate RootIs(chain: seq<nat>)
      requires Valid()
      reads this, fs, fs.vol
    {
      IsChain(fs.Space().fat, fs.vol.g.Top(), EOC, chain) && chain[0] == rootCluster
    }

    /** path follows the links from the root cluster; it may stop anywhere. */
    ghost predicate RootPath(path: seq<nat>)
      requires Valid()
      reads this, fs, fs.vol
    {
      |path| > 0 && path[0] == rootCluster && Follows(fs.Space().fat, fs.vol.g.Top(), path)
    }

    /** The walk ends behind path. */
    ghost predicate Ends(path: seq<nat>)
      requires Valid() && RootPath(path)
      reads this, fs, fs.vol
    {
      !Live(fs.Space().fat[path[|path| - 1]], EOC)
    }

    constructor (volume: ExfatVolume, cluster: nat)
      requires volume.Valid()
      ensures Valid() && fs == volume && rootCluster == cluster
    {
      fs, rootCluster := volume, cluster;
    }

    // -------------------------------------------------------------- one slot

    /** Slots never cross a sector: 512 is a multiple of 32. Past the disk the read fails and
        the slot is taken as zeros. */
    method CopyDentryAt(lba: nat, off: nat, d: array<Byte>, ghost k: nat)
      requires Valid() && fs.vol.g.dataStart <= lba && off == 32 * k
      requires d.Length == 32 && d != fs.vol.sectorBuf
      modifies fs.vol.sectorBuf, d
      ensures d[..] == SlotAt(fs.vol.View().rest, lba, k)
    {
      hide FatDisk.View, Mirrored, Geometry.Valid, Geometry.Fits, Bitmap.Fits;
      var vol := fs.vol;
      var sec, rel := off / SECTOR, off % SECTOR;
      SlotPlace(off, k);
      assert |vol.View().rest| == |vol.disk|;
      if lba + sec >= |vol.disk| {
        for i := 0 to 32
          invariant forall j :: 0 <= j < i ==> d[j] == 0
        {
          d[i] := 0;
        }
        assert d[..] == Zeros(SLOT);
        return;
      }
      RestSector(vol, lba + sec);
      vol.AtaReadSector(lba + sec, vol.sectorBuf, 0);
      ghost var s := vol.sectorBuf[0..SECTOR];
      for i := 0 to 32
        modifies d
        invariant forall j :: 0 <= j < i ==> d[j] == s[rel + j]
      {
        d[i] := vol.sectorBuf[rel + i];
      }
      assert d[..] == s[rel..rel + 32];
    }

    // -------------------------------------------------------------- searching

    /** Collects the name_len characters of the set at off; bad when an entry is no name entry. */
    method ReadName(lba0: nat, off: nat, nameLen: nat, dn: array<Byte>, wname: array<nat>, ghost d: seq<Slot>, ghost i: nat)
      returns (bad: bool)
      requires Valid() && fs.vol.g.dataStart <= lba0 && off == 32 * i && 0 < nameLen < 256
      requires i < Cap(fs.vol.g) && d == DirAt(fs.vol.View().rest, lba0, Cap(fs.vol.g))
      requires dn.Length == 32 && wname.Length == 256 && dn != fs.vol.sectorBuf
      modifies fs.vol.sectorBuf, dn, wname
      ensures !bad <==> forall j :: i + 2 <= j < i + 2 + NameEntries(nameLen) ==> d[j][0] == 0xC1
      ensures !bad ==> wname[..nameLen] == Name(d, i, nameLen)
    {
      hide FatDisk.View, Mirrored, Geometry.Valid, Geometry.Fits, Bitmap.Fits, SlotAt;
      var ni := 0;
      var entries := (nameLen + 14) / 15;
      for ne := 0 to entries
        invariant ni == if ne == entries then nameLen else 15 * ne
        invariant forall j :: i + 2 <= j < i + 2 + ne ==> d[j][0] == 0xC1
        invariant forall k :: 0 <= k < ni ==> wname[k] == Name(d, i, nameLen)[k]
      {
        CopyDentryAt(lba0, off + (2 + ne) * 32, dn, i + 2 + ne);
        assert dn[..] == d[i + 2 + ne];
        if dn[0] != 0xC1 {
          return true;
        }
        var inThis := if ne == entries - 1 then nameLen - ne * 15 else 15;
        ni := CopyName(dn, inThis, wname, ni, d, i, nameLen, ne);
      }
      assert wname[..nameLen] == Name(d, i, nameLen);
      return false;
    }

    /** Appends the inThis characters of name entry ne. */
    method CopyName(dn: array<Byte>, inThis: nat, wname: array<nat>, at: nat,
                    ghost d: seq<Slot>, ghost i: nat, ghost nameLen: nat, ghost ne: nat)
      returns (ni: nat)
      requires dn.Length == 32 && wname.Length == 256 && nameLen < 256 && i + OVERRUN < |d|
      requires ne < NameEntries(nameLen) && dn[..] == d[i + 2 + ne]
      requires at == 15 * ne && inThis <= 15 && at + inThis <= nameLen
      requires forall k :: 0 <= k < at ==> wname[k] == Name(d, i, nameLen)[k]
      modifies wname
      ensures ni == at + inThis
      ensures forall k :: 0 <= k < ni ==> wname[k] == Name(d, i, nameLen)[k]
    {
      ni := at;
      for j := 0 to inThis
        invariant ni == at + j
        invariant forall k :: 0 <= k < ni ==> wname[k] == Name(d, i, nameLen)[k]
      {
        assert (at + j) / 15 == ne && (at + j) % 15 == j;
        wname[ni] := Rd16(dn[..], 2 + j * 2);
        ni := ni + 1;
      }
    }

    /** The search through one directory cluster. */
    method FindInCluster(lba0: nat, expected: array<Byte>) returns (out: Outcome)
      requires Valid() && fs.vol.g.dataStart <= lba0
      requires expected.Length == 64 && |Until(expected[..], 0)| < 64 && expected != fs.vol.sectorBuf
      modifies fs.vol.sectorBuf
      ensures out == Scan(DirAt(fs.vol.View().rest, lba0, Cap(fs.vol.g)), Cap(fs.vol.g), 0, Until(expected[..], 0))
    {
      hide FatDisk.View, Mirrored, Geometry.Valid, Geometry.Fits, Bitmap.Fits, SlotAt, Until, HitAt, HitOf, Advance;
      hide Overruns, IsFile;
      ghost var cap := Cap(fs.vol.g);
      ghost var d := DirAt(fs.vol.View().rest, lba0, cap);
      ghost var e := Until(expected[..], 0);
      var clusterBytes := fs.vol.g.spc * SECTOR;
      var off: nat := 0;
      ghost var i: nat := 0;
      while off + 32 <= clusterBytes
        invariant off == 32 * i && Scan(d, cap, i, e) == Scan(d, cap, 0, e)
        decreases clusterBytes - off
      {
        var done;
        done, out, off, i := Visit(lba0, off, expected, d, i);
        if done {
          return;
        }
      }
      out := Past;
    }

    /** One slot of the search: the outcome when it ends here, otherwise where to go on. */
    method Visit(lba0: nat, off: nat, expected: array<Byte>, ghost d: seq<Slot>, ghost i: nat)
      returns (done: bool, out: Outcome, next: nat, ghost ni: nat)
      requires Valid() && fs.vol.g.dataStart <= lba0 && off == 32 * i
      requires expected.Length == 64 && |Until(expected[..], 0)| < 64 && expected != fs.vol.sectorBuf
      requires i < Cap(fs.vol.g) && d == DirAt(fs.vol.View().rest, lba0, Cap(fs.vol.g))
      modifies fs.vol.sectorBuf
      ensures next == 32 * ni && next > off
      ensures var e := Until(expected[..], 0);
              if done then Scan(d, Cap(fs.vol.g), i, e) == out
              else Scan(d, Cap(fs.vol.g), i, e) == Scan(d, Cap(fs.vol.g), ni, e)
    {
      hide FatDisk.View, Mirrored, Geometry.Valid, Geometry.Fits, Bitmap.Fits, SlotAt, Until, Scan, Matches;
      hide Geometry.Lba, Geometry.CopyBase, Geometry.Entries, Bits, Besides;
      ghost var cap, e := Cap(fs.vol.g), Until(expected[..], 0);
      var clusterBytes := fs.vol.g.spc * SECTOR;
      var d0 := new Byte[32];
      CopyDentryAt(lba0, off, d0, i);
      assert d0[..] == d[i];
      ScanStep(d, cap, i, e);
      out, next, ni := Stop, off + 32, i + 1;
      if d0[0] == 0 {
        return true, Stop, next, ni;
      }
      if d0[0] < 0x80 || d0[0] != 0x85 {
        return false, out, next, ni;
      }
      var secCount: nat := d0[1];
      var attr := Rd16(d0[..], 4);
      var over := off + (1 + secCount) * 32;
      if attr / 16 % 2 == 1 {
        return false, out, over, i + 1 + secCount;
      }
      if over > clusterBytes {
        return true, Stop, next, ni;
      }
      var ds := new Byte[32];
      CopyDentryAt(lba0, off + 32, ds, i + 1);
      assert ds[..] == d[i + 1];
      if ds[0] != 0xC0 {
        return false, out, next, ni;
      }
      var nameLen: nat := ds[3];
      if nameLen == 0 {
        return false, out, over, i + 1 + secCount;
      }
      var hit := Hit(Rd32(ds[..], 20), Rd64(ds[..], 24) % U32, off / 32, secCount, ds[1] / 2 % 2 == 1);
      var matches := CheckName(lba0, off, nameLen, expected, d, i);
      if matches {
        return true, Found(hit), next, ni;
      }
      return false, out, over, i + 1 + secCount;
    }

    method CheckName(lba0: nat, off: nat, nameLen: nat, expected: array<Byte>, ghost d: seq<Slot>, ghost i: nat)
      returns (b: bool)
      requires Valid() && fs.vol.g.dataStart <= lba0 && off == 32 * i && 0 < nameLen < 256
      requires expected.Length == 64 && |Until(expected[..], 0)| < 64 && expected != fs.vol.sectorBuf
      requires i < Cap(fs.vol.g) && d == DirAt(fs.vol.View().rest, lba0, Cap(fs.vol.g))
      modifies fs.vol.sectorBuf
      ensures b <==>
        && (forall j :: i + 2 <= j < i + 2 + NameEntries(nameLen) ==> d[j][0] == 0xC1)
        && Matches(Until(expected[..], 0), Name(d, i, nameLen))
    {
      hide FatDisk.View, Mirrored, Geometry.Valid, Geometry.Fits, Bitmap.Fits, SlotAt, Until, Matches, DirAt;
      var wname := new nat[256];
      var dn := new Byte[32];
      var bad := ReadName(lba0, off, nameLen, dn, wname, d, i);
      if bad {
        return false;
      }
      b := NameMatches(expected, wname, nameLen);
    }

    /** The first sector of a cluster, as the C code computes it. */
    method ClusterToLba(c: nat) returns (lba: nat)
      requires Valid() && 2 <= c < fs.vol.g.Top()
      ensures lba == fs.vol.g.Lba(c) >= fs.vol.g.dataStart
      ensures lba + fs.vol.g.spc <= |fs.vol.disk|
    {
      LbaRoom(fs.vol.g, c);
      SpanIsProduct(c - 2, fs.vol.g.spc);
      lba := fs.vol.g.dataStart + (c - 2) * fs.vol.g.spc;
    }

    lemma PathClusters(path: seq<nat>)
      requires Valid() && RootPath(path)
      ensures |path| > 0 && path[0] == rootCluster
      ensures forall i :: 0 <= i < |path| ==> 2 <= path[i] < fs.vol.g.Top() && Live(path[i], EOC)
    {
    }

    /** The next cluster of the directory. */
    method NextDir(dirClu: nat, ghost path: seq<nat>, ghost k: nat) returns (next: nat)
      requires Valid() && RootPath(path) && k < |path| && dirClu == path[k]
      modifies fs.vol.fatSectorBuf
      ensures k + 1 < |path| ==> next == path[k + 1]
      ensures k + 1 == |path| && Ends(path) ==> !Live(next, EOC)
    {
      hide FatDisk.View, Mirrored, Geometry.Fits, Bitmap.Fits, Bits, Follows, Geometry.Lba;
      PathAt(fs.vol.View().table, fs.vol.g.Top(), path, k);
      EntryReadable(fs.vol.g, dirClu);
      next := fs.vol.GetEntryExfat(dirClu);
    }

    /** Looks the 8.3 name up in the root directory. The links may form a cycle, as long as the
        search is decided before it repeats. */
    method FindRoot(name83: seq<Byte>, ghost chain: seq<nat>) returns (res: Lookup)
      requires Valid() && RootPath(chain) && |name83| == 11
      requires Ends(chain) || Decides(fs.vol.View().rest, fs.vol.g, chain, Expected(name83))
      modifies fs.vol.sectorBuf, fs.vol.fatSectorBuf
      ensures res == LookIn(fs.vol.View().rest, fs.vol.g, chain, Expected(name83))
      ensures res.Present? ==> res.dirClu in chain && NamesFile(fs.vol.disk, fs.vol.g, res.dirClu, res.hit.slot)
    {
      hide FatDisk.View, Mirrored, Geometry.Valid, Geometry.Fits, Bitmap.Fits, Until, Follows, Expected, LookIn, Decides;
      hide NamesFile;
      var expected := new Byte[64];
      BuildExpected(name83, expected);
      res := SearchChain(expected, chain);
      if res.Present? {
        PathClusters(chain);
        FoundOnDisk(fs.vol, chain, Expected(name83), res.dirClu, res.hit);
      }
    }

    method SearchChain(expected: array<Byte>, ghost chain: seq<nat>) returns (res: Lookup)
      requires Valid() && RootPath(chain)
      requires expected.Length == 64 && |Until(expected[..], 0)| < 64
      requires Ends(chain) || Decides(fs.vol.View().rest, fs.vol.g, chain, Until(expected[..], 0))
      requires expected != fs.vol.sectorBuf && expected != fs.vol.fatSectorBuf
      modifies fs.vol.sectorBuf, fs.vol.fatSectorBuf
      ensures res == LookIn(fs.vol.View().rest, fs.vol.g, chain, Until(expected[..], 0))
    {
      hide FatDisk.View, Mirrored, Geometry.Valid, Geometry.Fits, Bitmap.Fits, Until, Scan, DirAt, RootPath, Ends;
      hide Geometry.Lba, Geometry.Entries, LookIn, LookFrom, Bits, Besides, Geometry.CopyBase, Cap;
      ghost var e := Until(expected[..], 0);
      ghost var r := fs.vol.View().rest;
      var dirClu := rootCluster;
      ghost var k := 0;
      PathClusters(chain);
      LookStart(r, fs.vol.g, chain, e);
      while 2 <= dirClu < 0xFFFF_FFF8
        invariant 0 <= k <= |chain| && (if k < |chain| then dirClu == chain[k] else !Live(dirClu, EOC))
        invariant LookFrom(r, fs.vol.g, chain, k, e) == LookIn(r, fs.vol.g, chain, e)
        decreases |chain| - k
      {
        var lba0 := ClusterToLba(dirClu);
        var out := FindInCluster(lba0, expected);
        LookStep(r, fs.vol.g, chain, k, e);
        match out {
          case Found(h) => return Present(dirClu, h);
          case Stop => return Missing;
          case Past =>
        }
        dirClu := NextDir(dirClu, chain, k);
        k := k + 1;
      }
      res := Missing;
    }

    // -------------------------------------------------------------- adding a file

    /** The root directory is a chain of used clusters, and the bitmap's sectors lie in no root
        cluster and in no unused one. */
    ghost predicate Formatted(root: seq<nat>)
      requires Valid()
      reads this, fs, fs.vol
    {
      RootIs(root) && BitmapAway(fs.Space().used, fs.vol.g, fs.Map(), root)
    }

    /** Where need bytes go: the first end marker with room behind it in its cluster. */
    method FindInsert(need: nat, ghost n: nat, ghost chain: seq<nat>) returns (place: Place)
      requires Valid() && RootPath(chain) && need == 32 * n
      requires Ends(chain) || HasRoom(fs.vol.View().rest, fs.vol.g, chain, n)
      modifies fs.vol.sectorBuf, fs.vol.fatSectorBuf
      ensures place == PlaceFor(fs.vol.View().rest, fs.vol.g, chain, n)
    {
      hide FatDisk.View, Mirrored, Geometry.Valid, Geometry.Fits, Bitmap.Fits, DirAt, RootPath, Ends;
      hide Geometry.Lba, Geometry.Entries, PlaceFor, PlaceFrom, FirstZero, HasRoom, Bits, Besides, Geometry.CopyBase, Cap;
      ghost var r := fs.vol.View().rest;
      var dirClu := rootCluster;
      ghost var k := 0;
      PathClusters(chain);
      PlaceStart(r, fs.vol.g, chain, n);
      while 2 <= dirClu < 0xFFFF_FFF8
        invariant 0 <= k <= |chain| && (if k < |chain| then dirClu == chain[k] else !Live(dirClu, EOC))
        invariant PlaceFrom(r, fs.vol.g, chain, k, n) == PlaceFor(r, fs.vol.g, chain, n)
        decreases |chain| - k
      {
        var fits, slot := RoomIn(dirClu, need, n);
        PlaceStep(r, fs.vol.g, chain, k, n);
        if fits {
          return At(dirClu, slot);
        }
        NoRoomThere(r, fs.vol.g, chain, k, n, slot);
        dirClu := NextDir(dirClu, chain, k);
        k := k + 1;
      }
      place := Nowhere;
    }

    /** The first end marker of one cluster, and whether need bytes and a new marker fit there. */
    method RoomIn(dirClu: nat, need: nat, ghost n: nat) returns (fits: bool, slot: nat)
      requires Valid() && 2 <= dirClu < fs.vol.g.Top() && need == 32 * n
      modifies fs.vol.sectorBuf
      ensures slot == FirstZero(DirAt(fs.vol.View().rest, fs.vol.g.Lba(dirClu), Cap(fs.vol.g)), Cap(fs.vol.g), 0)
      ensures fits <==> slot < Cap(fs.vol.g) && slot + n + 1 <= Cap(fs.vol.g)
    {
      hide FatDisk.View, Mirrored, Geometry.Valid, Geometry.Fits, Bitmap.Fits, DirAt, FirstZero;
      var cb := fs.vol.g.spc * SECTOR;
      var lba0 := ClusterToLba(dirClu);
      var off, z := FirstMarker(lba0);
      slot := off / 32;
      fits := off + 32 <= cb && off + need + 32 <= cb;
    }

    /** Offset of the first slot starting with a zero, the cluster's size if there is none. */
    method FirstMarker(lba0: nat) returns (off: nat, ghost z: nat)
      requires Valid() && fs.vol.g.dataStart <= lba0
      modifies fs.vol.sectorBuf
      ensures off == 32 * z && z == FirstZero(DirAt(fs.vol.View().rest, lba0, Cap(fs.vol.g)), Cap(fs.vol.g), 0)
    {
      hide FatDisk.View, Mirrored, Geometry.Valid, Geometry.Fits, Bitmap.Fits, SlotAt;
      ghost var cap := Cap(fs.vol.g);
      ghost var dir := DirAt(fs.vol.View().rest, lba0, cap);
      var cb := fs.vol.g.spc * SECTOR;
      var d := new Byte[32];
      off, z := 0, 0;
      while off + 32 <= cb
        invariant off == 32 * z && z <= cap
        invariant FirstZero(dir, cap, z) == FirstZero(dir, cap, 0)
      {
        CopyDentryAt(lba0, off, d, z);
        assert d[..] == dir[z];
        if d[0] == 0 {
          return;
        }
        off, z := off + 32, z + 1;
      }
    }

    /** Stores 32 bytes at a slot by rewriting its sector. */
    method WriteDentryAt(lba: nat, off: nat, src: array<Byte>, from: nat)
      requires Valid() && fs.vol.g.dataStart <= lba && off % 32 == 0
      requires lba + off / 32 / 16 < |fs.vol.disk|
      requires from + 32 <= src.Length && src != fs.vol.sectorBuf
      modifies fs.vol`disk, fs.vol.sectorBuf
      ensures Valid() && |fs.vol.disk| == |old(fs.vol.disk)|
      ensures fs.vol.View() == old(fs.vol.View()).(
                rest := PutSlot(old(fs.vol.View()).rest, lba, off / 32, src[from..from + 32]))
    {
      hide FatDisk.View, Mirrored, Geometry.Valid;
      var vol := fs.vol;
      var sec, rel := off / SECTOR, off % SECTOR;
      SlotPlace(off, off / 32);
      RestSector(vol, lba + sec);
      vol.AtaReadSector(lba + sec, vol.sectorBuf, 0);
      ghost var was: Sector := vol.sectorBuf[0..SECTOR];
      for i := 0 to 32
        modifies vol.sectorBuf
        invariant forall j :: rel <= j < rel + i ==> vol.sectorBuf[j] == src[from + (j - rel)]
        invariant forall j :: 0 <= j < SECTOR && !(rel <= j < rel + i) ==> vol.sectorBuf[j] == was[j]
      {
        vol.sectorBuf[rel + i] := src[from + i];
      }
      ghost var bytes: seq<Byte> := src[from..from + 32];
      assert |bytes| == SLOT;
      ghost var piece: Slot := bytes;
      assert vol.sectorBuf[0..SECTOR] == Patched(was, rel, piece);
      DataWriteView(vol.disk, vol.g, lba + sec, vol.sectorBuf[0..SECTOR]);
      vol.AtaWriteSector(lba + sec, vol.sectorBuf, 0);
    }

    /** Stores the entry set held in buf from slot m of cluster clu on, and for a new file a fresh
        end marker behind it. */
    method InsertSet(clu: nat, m: nat, buf: array<Byte>, existed: bool, ghost ents: seq<Slot>)
      requires Valid() && 2 <= clu < fs.vol.g.Top() && m + (if existed then 3 else 4) <= Cap(fs.vol.g)
      requires ClearOf(fs.vol.g, fs.Map(), {clu})
      requires buf.Length == 768 && buf != fs.vol.sectorBuf
      requires |ents| == 3 && buf[0..32] == ents[0] && buf[32..64] == ents[1] && buf[64..96] == ents[2]
      modifies fs.vol`disk, fs.vol.sectorBuf
      ensures Valid() && |fs.vol.disk| == |old(fs.vol.disk)|
      ensures fs.Space() == old(fs.Space())
      ensures fs.vol.View() == old(fs.vol.View()).(rest := fs.vol.View().rest)
      ensures Undisturbed(old(fs.vol.View()).rest, fs.vol.View().rest, fs.vol.g, fs.Map(), {clu})
      ensures Written(existed, DirOf(old(fs.vol.View()).rest, fs.vol.g, clu), DirOf(fs.vol.View().rest, fs.vol.g, clu),
                      Cap(fs.vol.g), m, ents)
    {
      hide FatDisk.View, Mirrored, Geometry.Valid, Bits, PutSlot, DirOf, Geometry.Lba, Partly, Written, ClearOf;
      ghost var r, g := fs.vol.View().rest, fs.vol.g;
      ghost var d := DirOf(r, g, clu);
      NothingYet(d, m);
      var lba0 := ClusterToLba(clu);
      BitsKept(r, r, g, fs.Map(), {clu});
      for i := 0 to 3
        invariant Valid() && |fs.vol.disk| == |r|
        invariant fs.Space() == old(fs.Space())
        invariant fs.vol.View() == old(fs.vol.View()).(rest := fs.vol.View().rest)
        invariant Undisturbed(r, fs.vol.View().rest, g, fs.Map(), {clu})
        invariant Partly(d, DirOf(fs.vol.View().rest, g, clu), m, ents[..i])
        invariant buf[0..32] == ents[0] && buf[32..64] == ents[1] && buf[64..96] == ents[2]
      {
        ghost var r1 := fs.vol.View().rest;
        var off := m * 32 + i * 32;
        assert off / 32 == m + i;
        assert buf[32 * i..32 * i + 32] == ents[i];
        WriteDentryAt(lba0, off, buf, i * 32);
        SlotWritten(r, r1, g, fs.Map(), clu, m + i, ents[i]);
        OneMore(d, DirOf(r1, g, clu), m, ents, i);
      }
      assert ents[..3] == ents;
      AllThere(d, DirOf(fs.vol.View().rest, g, clu), Cap(g), m, ents);
      if existed {
        return;
      }
      var z := new Byte[32];
      for i := 0 to 32
        modifies z
        invariant forall j :: 0 <= j < i ==> z[j] == 0
      {
        z[i] := 0;
      }
      assert z[0..32] == Zeros(SLOT);
      ghost var r1 := fs.vol.View().rest;
      assert (m * 32 + 96) / 32 == m + 3;
      WriteDentryAt(lba0, m * 32 + 96, z, 0);
      SlotWritten(r, r1, g, fs.Map(), clu, m + 3, Zeros(SLOT));
    }

    /** Allocates clusters for data and writes it. */
    method StoreData(data: seq<Byte>, ghost root: seq<nat>) returns (ok: bool, first: nat, ghost chain: seq<nat>)
      requires Valid() && Formatted(root) && |data| < U32
      modifies fs.vol`disk, fs.vol.sectorBuf, fs.vol.fatSectorBuf
      ensures Valid() && |fs.vol.disk| == |old(fs.vol.disk)|
      ensures ok <==> Storable(fs.vol.g, |ClearSet(old(fs.Space()).used, fs.Lim())|, |data|)
      ensures LowestClear(old(fs.Space()).used, fs.Lim(), chain) && InTable(old(fs.Space()).fat, chain)
      ensures !ok ==> fs.Space() == Space(ZeroAll(old(fs.Space()).fat, chain), old(fs.Space()).used)
      ensures ok ==> fs.Space() == Allocated(old(fs.Space()), chain)
      ensures ok ==> |chain| == ClustersFor(|data|, fs.vol.g.ClusterBytes())
      ensures ok ==> first == if |chain| == 0 then 0 else chain[0]
      ensures Undisturbed(old(fs.vol.View()).rest, fs.vol.View().rest, fs.vol.g, fs.Map(), Elems(chain))
      ensures ok && |data| > 0 ==> |chain| > 0 && IsChain(fs.Space().fat, fs.vol.g.Top(), EOC, chain)
      ensures ok ==> ReadWalk(fs.vol.View().rest, fs.vol.g, fs.Space().fat, first, |data|) == data
    {
      hide Storable;
      hide FatDisk.View, Mirrored, Bits, Besides, Linked, IsChain, ZeroAll, Room, ReadWalk, WriteWalk, ClustersFor;
      hide LowestClear, ClearSet, Freed, WalkInRange, Undisturbed, ClearOf;
      ghost var s, r := fs.Space(), fs.vol.View().rest;
      ghost var g, m := fs.vol.g, fs.Map();
      var size := |data|;
      var cbytes := fs.vol.g.spc * SECTOR;
      var ncl := ClustersFor(size, cbytes);
      ClusterArithmetic(g, size, |ClearSet(s.used, fs.Lim())|);
      ok, first, chain := fs.AllocChain(ncl);
      ghost var r1 := fs.vol.View().rest;
      BesidesUndisturbed(r, r1, g, m, Elems(chain));
      if !ok {
        return;
      }
      NoneAllocated(s);
      NothingThere(r1, g, fs.Space(), s.fat);
      if size > 0 {
        if ncl > 0 {
          Widen(s.used, fs.Lim(), g.Top(), chain);
          AllocatedIsChain(s, g.Top(), chain);
          ChainIsClear(s.used, fs.Lim(), g, m, chain);
        }
        ok := WriteChain(first, data, chain);
        Compose(r, r1, fs.vol.View().rest, g, m, Elems(chain), Elems(chain));
        assert Elems(chain) + Elems(chain) == Elems(chain);
        if !ok {
          ghost var r2 := fs.vol.View().rest;
          Discard(first, s, chain);
          Compose(r, r2, fs.vol.View().rest, g, m, Elems(chain), Elems(chain));
        }
      }
    }

    /** Writes data along the chain just allocated, which is empty when the cluster count wrapped
        to 0. */
    method WriteChain(first: nat, data: seq<Byte>, ghost chain: seq<nat>) returns (ok: bool)
      requires Valid() && 0 < |data| < U32
      requires |chain| == 0 ==> first == 0
      requires |chain| > 0 ==>
                 && IsChain(fs.Space().fat, fs.vol.g.Top(), EOC, chain) && first == chain[0]
                 && |data| <= Room(fs.vol.g, |chain|) && |data| <= U32 - SECTOR
                 && ClearOf(fs.vol.g, fs.Map(), Elems(chain))
      modifies fs.vol`disk, fs.vol.sectorBuf, fs.vol.fatSectorBuf
      ensures Valid() && |fs.vol.disk| == |old(fs.vol.disk)|
      ensures fs.Space() == old(fs.Space())
      ensures ok <==> |chain| > 0
      ensures !ok ==> fs.vol.View() == old(fs.vol.View())
      ensures Undisturbed(old(fs.vol.View()).rest, fs.vol.View().rest, fs.vol.g, fs.Map(), Elems(chain))
      ensures ok ==> ReadWalk(fs.vol.View().rest, fs.vol.g, fs.Space().fat, first, |data|) == data
    {
      hide FatDisk.View, Mirrored, Bits, IsChain, Room, ReadWalk, WriteWalk, Unplaced, WalkInRange, ClearOf;
      ghost var r, t, g, m := fs.vol.View().rest, fs.Space().fat, fs.vol.g, fs.Map();
      if |chain| > 0 {
        ChainCovered(g, t, chain, |data|);
        PlacedIff(g, t, chain, |data|);
        DataWritten(r, g, m, t, chain, data);
      } else {
        UnplacedAtZero(r, g, t, data);
      }
      ok := fs.vol.WriteBytes(first, data);
    }

    /** Stores data under a name. An existing file of that name is given up first, and its entry set
        is overwritten; a new name's set goes to the end marker. A failure touches nothing but
        clusters that were clear by then, and gives their bits back. */
    method WriteRoot(name83: seq<Byte>, data: seq<Byte>, ghost root: seq<nat>)
      returns (ok: bool, first: nat, ghost chain: seq<nat>, place: Place, ghost before: Lookup)
      requires Valid() && Formatted(root) && |name83| == 11 && |data| < U32
      requires |Expected(name83)| > 0 ==>
                 Releasable(fs.Space(), fs.vol.g, fs.Map(), root,
                            LookIn(fs.vol.View().rest, fs.vol.g, root, Expected(name83)))
      modifies fs.vol`disk, fs.vol.sectorBuf, fs.vol.fatSectorBuf
      ensures Valid() && |fs.vol.disk| == |old(fs.vol.disk)| && Formatted(root)
      ensures before == if |Expected(name83)| == 0 then Missing
                        else LookIn(old(fs.vol.View()).rest, fs.vol.g, root, Expected(name83))
      ensures var b := Base(old(fs.Space()), fs.vol.g, before);
              && (ok <==>
                    && |Expected(name83)| > 0
                    && Storable(fs.vol.g, |ClearSet(b.used, fs.Lim())|, |data|)
                    && Target(before, old(fs.vol.View()).rest, fs.vol.g, root).At?)
              && LowestClear(b.used, fs.Lim(), chain) && InTable(b.fat, chain)
              && (!ok ==> fs.Space() == Space(ZeroAll(b.fat, chain), b.used))
              && (ok ==> fs.Space() == Allocated(b, chain))
      ensures !ok ==> Undisturbed(old(fs.vol.View()).rest, fs.vol.View().rest, fs.vol.g, fs.Map(), Elems(chain))
      ensures ok ==>
        && |chain| == ClustersFor(|data|, fs.vol.g.ClusterBytes())
        && first == (if |chain| == 0 then 0 else chain[0])
        && place == Target(before, old(fs.vol.View()).rest, fs.vol.g, root)
        && place.clu in root && place.clu >= 2 && place.slot + (if before.Present? then 3 else 4) <= Cap(fs.vol.g)
        && Undisturbed(old(fs.vol.View()).rest, fs.vol.View().rest, fs.vol.g, fs.Map(), Elems(chain) + {place.clu})
        && Written(before.Present?, DirOf(old(fs.vol.View()).rest, fs.vol.g, place.clu),
                   DirOf(fs.vol.View().rest, fs.vol.g, place.clu), Cap(fs.vol.g), place.slot,
                   EntrySet(Expected(name83), first, |data|))
        && ReadWalk(fs.vol.View().rest, fs.vol.g, fs.Space().fat, first, |data|) == data
      ensures ok ==> forall end: Place :: Ready(old(fs.vol.View()).rest, fs.vol.g, root, before, place, end) ==>
        Settled(old(fs.vol.View()).rest, fs.vol.View().rest, fs.vol.g, root, before, place, end, Expected(name83), first, |data|)
    {
      hide FatDisk.View, Mirrored, Bits, Besides, Linked, IsChain, ZeroAll, ReadWalk, ClustersFor, Ready, Settled;
      hide LowestClear, ClearSet, Freed, WalkInRange, Undisturbed, ClearOf, Storable, LookIn, PlaceFor, DirOf;
      hide EntrySet, Expected, Written, BitmapAway, Follows, InTable, Target, Base, Releasable;
      ghost var s, r, g, m := fs.Space(), fs.vol.View().rest, fs.vol.g, fs.Map();
      first, place, chain, before := 0, Nowhere, [], Missing;
      NoneAllocated(s);
      SameDisk(r, g, m, s.fat);
      NothingFreed(s, g);
      var name := NameOf(name83);
      if |name| == 0 {
        return false, first, chain, place, before;
      }
      ChainFollows(s.fat, g.Top(), root);
      var existing := FindRoot(name83, root);
      before := existing;
      if existing.Present? {
        PresentIn(r, g, root, name);
      }
      GiveUp(existing, root);
      ghost var r0 := fs.vol.View().rest;
      ok, first, chain, place := StoreAs(name, data, existing, root);
      GivenUp(s, r, r0, fs.vol.View().rest, g, m, root, chain, existing, place);
      if ok {
        WrittenSince(DirOf(r, g, place.clu), DirOf(r0, g, place.clu), DirOf(fs.vol.View().rest, g, place.clu),
                     existing.Present?, Cap(g), place.slot, EntrySet(name, first, |data|));
        forall end: Place | Ready(r, g, root, before, place, end)
          ensures Settled(r, fs.vol.View().rest, g, root, before, place, end, name, first, |data|)
        {
          EntryResolves(r, fs.vol.View().rest, g, m, Elems(chain), root, before, place, end, name, first, |data|);
        }
      }
    }

    /** Allocates, stores the data and enters the name; takes the allocation back if there is no
        place for the name. */
    method StoreAs(name: seq<Byte>, data: seq<Byte>, existing: Lookup, ghost root: seq<nat>)
      returns (ok: bool, first: nat, ghost chain: seq<nat>, place: Place)
      requires Valid() && Formatted(root) && |data| < U32 && 0 < |name| <= 15
      requires existing.Present? ==>
                 && existing.dirClu in root && existing.dirClu >= 2
                 && existing.hit.slot + 1 + existing.hit.secCount <= Cap(fs.vol.g)
      modifies fs.vol`disk, fs.vol.sectorBuf, fs.vol.fatSectorBuf
      ensures Valid() && |fs.vol.disk| == |old(fs.vol.disk)| && Formatted(root)
      ensures ok <==>
        && Storable(fs.vol.g, |ClearSet(old(fs.Space()).used, fs.Lim())|, |data|)
        && Target(existing, old(fs.vol.View()).rest, fs.vol.g, root).At?
      ensures LowestClear(old(fs.Space()).used, fs.Lim(), chain) && InTable(old(fs.Space()).fat, chain)
      ensures !ok ==>
        && fs.Space() == Space(ZeroAll(old(fs.Space()).fat, chain), old(fs.Space()).used)
        && Undisturbed(old(fs.vol.View()).rest, fs.vol.View().rest, fs.vol.g, fs.Map(), Elems(chain))
      ensures ok ==>
        && fs.Space() == Allocated(old(fs.Space()), chain)
        && |chain| == ClustersFor(|data|, fs.vol.g.ClusterBytes())
        && first == (if |chain| == 0 then 0 else chain[0]) < U32
        && place == Target(existing, old(fs.vol.View()).rest, fs.vol.g, root)
        && (forall i :: 0 <= i < |root| ==> root[i] !in Elems(chain))
        && place.clu in root && place.clu >= 2 && place.slot + (if existing.Present? then 3 else 4) <= Cap(fs.vol.g)
        && Undisturbed(old(fs.vol.View()).rest, fs.vol.View().rest, fs.vol.g, fs.Map(), Elems(chain) + {place.clu})
        && Written(existing.Present?, DirOf(old(fs.vol.View()).rest, fs.vol.g, place.clu),
                   DirOf(fs.vol.View().rest, fs.vol.g, place.clu), Cap(fs.vol.g), place.slot,
                   EntrySet(name, first, |data|))
        && ReadWalk(fs.vol.View().rest, fs.vol.g, fs.Space().fat, first, |data|) == data
    {
      hide FatDisk.View, Mirrored, Bits, Besides, Linked, IsChain, ZeroAll, ReadWalk, ClustersFor, Freed, WalkInRange;
      hide LowestClear, ClearSet, Undisturbed, ClearOf, Storable, PlaceFor, DirOf, EntrySet, Written, BitmapAway, InTable;
      ghost var s, r, g, m := fs.Space(), fs.vol.View().rest, fs.vol.g, fs.Map();
      ok, first, chain := StoreData(data, root);
      place := Nowhere;
      ghost var r1 := fs.vol.View().rest;
      RootUntouched(s, r, r1, g, m, fs.Lim(), root, chain);
      if !ok {
        return;
      }
      ghost var t := fs.Space().fat;
      place := EnterName(name, first, |data|, existing, root);
      if place.Nowhere? {
        Discard(first, s, chain);
        UnitedFrame(r, r1, fs.vol.View().rest, g, m, Elems(chain));
        return false, first, chain, place;
      }
      Entered(r, r1, fs.vol.View().rest, g, m, place, t, first, chain, existing.Present?, EntrySet(name, first, |data|), |data|);
    }

    /** Gives up the chain of an existing file. */
    method GiveUp(existing: Lookup, ghost root: seq<nat>)
      requires Valid() && Formatted(root) && Releasable(fs.Space(), fs.vol.g, fs.Map(), root, existing)
      modifies fs.vol`disk, fs.vol.sectorBuf, fs.vol.fatSectorBuf
      ensures Valid() && |fs.vol.disk| == |old(fs.vol.disk)| && Formatted(root)
      ensures fs.Space() == Base(old(fs.Space()), fs.vol.g, existing)
      ensures forall cs :: Undisturbed(old(fs.vol.View()).rest, fs.vol.View().rest, fs.vol.g, fs.Map(), cs)
    {
      hide FatDisk.View, Mirrored, Bits, Besides, IsChain, Freed, WalkInRange, Undisturbed, ClearOf, BitmapAway;
      ghost var r := fs.vol.View().rest;
      BaseKept(fs.Space(), fs.vol.g, fs.Map(), root, existing);
      if existing.Present? {
        fs.FreeChain(existing.hit.cluster);
      }
      forall cs ensures Undisturbed(r, fs.vol.View().rest, fs.vol.g, fs.Map(), cs) {
        BesidesUndisturbed(r, fs.vol.View().rest, fs.vol.g, fs.Map(), cs);
      }
    }

    /** Builds the entry set and puts it where it goes, if there is such a place. */
    method EnterName(name: seq<Byte>, first: nat, size: nat, existing: Lookup, ghost root: seq<nat>) returns (place: Place)
      requires Valid() && Formatted(root)
      requires 0 < |name| <= 15 && first < U32 && size < U32
      requires existing.Present? ==>
                 && existing.dirClu in root && existing.dirClu >= 2
                 && existing.hit.slot + 1 + existing.hit.secCount <= Cap(fs.vol.g)
      modifies fs.vol`disk, fs.vol.sectorBuf, fs.vol.fatSectorBuf
      ensures Valid() && |fs.vol.disk| == |old(fs.vol.disk)|
      ensures fs.Space() == old(fs.Space())
      ensures place == Target(existing, old(fs.vol.View()).rest, fs.vol.g, root)
      ensures place.Nowhere? ==> fs.vol.View() == old(fs.vol.View())
      ensures place.At? ==>
        && place.clu in root && place.clu >= 2 && place.slot + (if existing.Present? then 3 else 4) <= Cap(fs.vol.g)
        && Undisturbed(old(fs.vol.View()).rest, fs.vol.View().rest, fs.vol.g, fs.Map(), {place.clu})
        && Written(existing.Present?, DirOf(old(fs.vol.View()).rest, fs.vol.g, place.clu),
                   DirOf(fs.vol.View().rest, fs.vol.g, place.clu), Cap(fs.vol.g), place.slot, EntrySet(name, first, size))
    {
      hide FatDisk.View, Mirrored, Bits, Besides, IsChain, Undisturbed, ClearOf, PlaceFor, DirOf, EntrySet, Written;
      ChainFollows(fs.Space().fat, fs.vol.g.Top(), root);
      var buf := new Byte[768];
      BuildSet(name, first, size, buf);
      if existing.Present? {
        if existing.hit.secCount != 2 {
          return Nowhere;
        }
        place := At(existing.dirClu, existing.hit.slot);
      } else {
        place := FindInsert(96, 3, root);
        if place.Nowhere? {
          return;
        }
      }
      InsertSet(place.clu, place.slot, buf, existing.Present?, EntrySet(name, first, size));
    }

    /** Gives an allocated chain back. */
    method Discard(first: nat, ghost s: Space, ghost chain: seq<nat>)
      requires Valid() && |s.fat| == |fs.Space().fat|
      requires LowestClear(s.used, fs.Lim(), chain) && InTable(s.fat, chain)
      requires fs.Space() == Allocated(s, chain)
      requires first == if |chain| == 0 then 0 else chain[0]
      modifies fs.vol`disk, fs.vol.sectorBuf, fs.vol.fatSectorBuf
      ensures Valid() && |fs.vol.disk| == |old(fs.vol.disk)|
      ensures fs.Space() == Space(ZeroAll(s.fat, chain), s.used)
      ensures Undisturbed(old(fs.vol.View()).rest, fs.vol.View().rest, fs.vol.g, fs.Map(), Elems(chain))
    {
      hide FatDisk.View, Mirrored, Bits, Besides, Linked, IsChain, ZeroAll, Freed, WalkInRange, LowestClear, Undisturbed;
      ghost var r, top := fs.vol.View().rest, fs.vol.g.Top();
      if |chain| > 0 {
        Widen(s.used, fs.Lim(), top, chain);
        RollbackRestoresBits(s, top, chain);
        ChainWalkInRange(fs.Space().fat, top, EOC, chain);
      } else {
        NoneAllocated(s);
        NothingThere(r, fs.vol.g, fs.Space(), s.fat);
      }
      fs.FreeChain(first);
      BesidesUndisturbed(r, fs.vol.View().rest, fs.vol.g, fs.Map(), Elems(chain));
    }
  }

  /** Storing the data (r to r1) and then entering the name (r1 to w), seen together. */
  lemma Entered(r: Disk, r1: Disk, w: Disk, g: Geometry, m: Bitmap, place: Place, t: Table, first: nat, chain: seq<nat>,
                existed: bool, ents: seq<Slot>, n: nat)
    requires g.Valid() && g.Fits(r1) && g.kind.Exfat? && g.Top() <= |t| && |w| == |r1|
    requires place.At? && place.clu >= 2 && place.slot + (if existed then 0 else 1) + |ents| <= Cap(g)
    requires Undisturbed(r, r1, g, m, Elems(chain)) && Undisturbed(r1, w, g, m, {place.clu})
    requires forall k :: 0 <= k < Cap(g) ==> DirOf(r1, g, place.clu)[k] == DirOf(r, g, place.clu)[k]
    requires Written(existed, DirOf(r1, g, place.clu), DirOf(w, g, place.clu), Cap(g), place.slot, ents)
    requires n > 0 ==> |chain| > 0 && first == chain[0] && IsChain(t, g.Top(), EOC, chain)
    requires place.clu !in chain && ClearOf(g, m, Elems(chain))
    ensures Undisturbed(r, w, g, m, Elems(chain) + {place.clu})
    ensures Written(existed, DirOf(r, g, place.clu), DirOf(w, g, place.clu), Cap(g), place.slot, ents)
    ensures ReadWalk(w, g, t, first, n) == ReadWalk(r1, g, t, first, n)
  {
    hide ReadWalk, IsChain, Undisturbed, ClearOf, Written, DirOf, Geometry.Valid;
    Compose(r, r1, w, g, m, Elems(chain), {place.clu});
    WrittenSince(DirOf(r, g, place.clu), DirOf(r1, g, place.clu), DirOf(w, g, place.clu), existed, Cap(g), place.slot, ents);
    if n > 0 {
      assert Elems(chain) !! {place.clu};
      ChainKept(r1, w, g, m, {place.clu}, t, t, chain, n);
    } else {
      NothingRead(w, g, t, first);
      NothingRead(r1, g, t, first);
    }
  }

  lemma UnitedFrame(r: Disk, r0: Disk, r1: Disk, g: Geometry, m: Bitmap, cs: set<nat>)
    requires Undisturbed(r, r0, g, m, cs) && Undisturbed(r0, r1, g, m, cs)
    ensures Undisturbed(r, r1, g, m, cs)
  {
    Compose(r, r0, r1, g, m, cs, cs);
    assert cs + cs == cs;
  }

  /** Giving a chain up (r to r0) and what follows (r0 to w), seen together. */
  lemma GivenUp(s: Space, r: Disk, r0: Disk, w: Disk, g: Geometry, m: Bitmap, root: seq<nat>, chain: seq<nat>,
                l: Lookup, place: Place)
    requires g.Valid() && g.Fits(r) && g.Top() <= |s.fat|
    requires IsChain(s.fat, g.Top(), EOC, root) && BitmapAway(s.used, g, m, root)
    requires forall cs :: Undisturbed(r, r0, g, m, cs)
    ensures Distinct(root)
    ensures forall i :: 0 <= i < |root| ==> 2 <= root[i] < g.Top() && ClearOf(g, m, {root[i]})
    ensures Target(l, r0, g, root) == Target(l, r, g, root)
    ensures forall c, k :: c in root && 0 <= k < Cap(g) ==> DirOf(r0, g, c)[k] == DirOf(r, g, c)[k]
    ensures Undisturbed(r0, w, g, m, Elems(chain)) ==> Undisturbed(r, w, g, m, Elems(chain))
    ensures place.At? && Undisturbed(r0, w, g, m, Elems(chain) + {place.clu}) ==>
              Undisturbed(r, w, g, m, Elems(chain) + {place.clu})
  {
    hide DirOf, Undisturbed, ClearOf, IsChain, PlaceFor, Geometry.Valid;
    RootShape(s.fat, g.Top(), root);
    RootDirsKept(r, r0, g, m, {}, root, 3);
    forall c, k | c in root && 0 <= k < Cap(g) ensures DirOf(r0, g, c)[k] == DirOf(r, g, c)[k] {
      var i :| 0 <= i < |root| && root[i] == c;
    }
    if Undisturbed(r0, w, g, m, Elems(chain)) {
      UnitedFrame(r, r0, w, g, m, Elems(chain));
    }
    if place.At? && Undisturbed(r0, w, g, m, Elems(chain) + {place.clu}) {
      UnitedFrame(r, r0, w, g, m, Elems(chain) + {place.clu});
    }
  }

  lemma NothingFreed(s: Space, g: Geometry)
    requires g.Top() <= |s.fat|
    ensures Base(s, g, Missing) == s
  {
  }

  /** The chain is used, and the bitmap lies neither in its clusters nor in unused ones. */
  ghost predicate BitmapAway(used: set<nat>, g: Geometry, m: Bitmap, root: seq<nat>) {
    && Elems(root) <= used
    && (forall c :: c in root ==> ClearOf(g, m, {c}))
    && (forall c: nat :: 2 <= c < g.Top() && c !in used ==> ClearOf(g, m, {c}))
  }

  lemma BitmapAwayKept(s: Space, lim: nat, g: Geometry, m: Bitmap, root: seq<nat>, chain: seq<nat>)
    requires lim <= g.Top() <= |s.fat| && BitmapAway(s.used, g, m, root) && InTable(s.fat, chain)
    requires LowestClear(s.used, lim, chain)
    ensures BitmapAway(Allocated(s, chain).used, g, m, root)
    ensures ClearOf(g, m, Elems(chain))
  {
    hide ClearOf, InTable;
    ChainIsClear(s.used, lim, g, m, chain);
  }

  /** What storing the data on the clusters of chain leaves of the root directory: all of it. */
  lemma RootUntouched(s: Space, r: Disk, r1: Disk, g: Geometry, m: Bitmap, lim: nat, root: seq<nat>, chain: seq<nat>)
    requires g.Valid() && g.Fits(r) && lim <= g.Top() <= |s.fat|
    requires IsChain(s.fat, g.Top(), EOC, root) && BitmapAway(s.used, g, m, root)
    requires LowestClear(s.used, lim, chain) && InTable(s.fat, chain) && Undisturbed(r, r1, g, m, Elems(chain))
    ensures IsChain(ZeroAll(s.fat, chain), g.Top(), EOC, root)
    ensures IsChain(Allocated(s, chain).fat, g.Top(), EOC, root)
    ensures BitmapAway(Allocated(s, chain).used, g, m, root) && ClearOf(g, m, Elems(chain))
    ensures PlaceFor(r1, g, root, 3) == PlaceFor(r, g, root, 3)
    ensures |root| > 0 && Distinct(root) && (|chain| > 0 ==> chain[0] < g.Top())
    ensures forall i :: 0 <= i < |root| ==> 2 <= root[i] < g.Top() && root[i] !in Elems(chain) && ClearOf(g, m, {root[i]})
    ensures forall i, k :: 0 <= i < |root| && 0 <= k < Cap(g) ==> DirOf(r1, g, root[i])[k] == DirOf(r, g, root[i])[k]
  {
    hide DirOf, Undisturbed, ClearOf, IsChain, PlaceFor, LowestClear, InTable, Geometry.Valid, Allocated;
    ZeroedKept(s, lim, g.Top(), chain, root);
    RootKept(s, lim, g.Top(), root, chain);
    RootShape(s.fat, g.Top(), root);
    BitmapAwayKept(s, lim, g, m, root, chain);
    RootDirsKept(r, r1, g, m, Elems(chain), root, 3);
    Widen(s.used, lim, g.Top(), chain);
  }

  /** Giving an existing file's chain back leaves the root directory alone. */
  lemma BaseKept(s: Space, g: Geometry, m: Bitmap, root: seq<nat>, l: Lookup)
    requires g.Top() <= |s.fat| && IsChain(s.fat, g.Top(), EOC, root) && BitmapAway(s.used, g, m, root)
    requires Releasable(s, g, m, root, l)
    ensures IsChain(Base(s, g, l).fat, g.Top(), EOC, root)
    ensures BitmapAway(Base(s, g, l).used, g, m, root)
  {
    hide ClearOf, Freed, WalkInRange, Reaches;
    if l.Present? {
      var c, b := l.hit.cluster, Base(s, g, l);
      forall x: nat | x < g.Top()
        ensures b.fat[x] == if Reaches(s.fat, g.Top(), EOC, c, x) then 0 else s.fat[x]
        ensures x in b.used <==> x in s.used && !Reaches(s.fat, g.Top(), EOC, c, x)
      {
        FreedExactlyReachable(s, g.Top(), c, x);
        FreeZeroesExactlyReachable(s.fat, g.Top(), EOC, c, x);
      }
      forall i | 0 <= i < |root| ensures root[i] in b.used && b.fat[root[i]] == s.fat[root[i]] {
        assert root[i] in Elems(root) && root[i] in root;
      }
      ChainFrame(s.fat, b.fat, g.Top(), EOC, root);
    }
  }

  lemma RootShape(t: Table, top: nat, root: seq<nat>)
    requires top <= |t| && IsChain(t, top, EOC, root)
    ensures |root| > 0 && Distinct(root) && forall i :: 0 <= i < |root| ==> 2 <= root[i] < top
  {
  }

  lemma Widen(used: set<nat>, lim: nat, top: nat, chain: seq<nat>)
    requires LowestClear(used, lim, chain) && lim <= top
    ensures LowestClear(used, top, chain)
    ensures forall i :: 0 <= i < |chain| ==> chain[i] < top
  {
  }

  lemma NothingRead(r: Disk, g: Geometry, t: Table, c: nat)
    requires g.Valid() && g.Fits(r) && g.Top() <= |t|
    ensures ReadWalk(r, g, t, c, 0) == []
  {
  }

  /** A chain of used clusters is still one after an allocation, and shares nothing with it. */
  lemma RootKept(s: Space, lim: nat, top: nat, root: seq<nat>, chain: seq<nat>)
    requires lim <= top <= |s.fat| && IsChain(s.fat, top, EOC, root) && Elems(root) <= s.used
    requires LowestClear(s.used, lim, chain) && InTable(s.fat, chain)
    ensures IsChain(Allocated(s, chain).fat, top, EOC, root)
    ensures Elems(root) !! Elems(chain)
  {
    LinkedEntries(s.fat, chain, MARK);
    forall i | 0 <= i < |root| ensures root[i] in Elems(root) && root[i] !in chain {
    }
    ChainFrame(s.fat, Allocated(s, chain).fat, top, EOC, root);
  }

  /** Zeroing the links of clear clusters leaves a used chain alone. */
  lemma ZeroedKept(s: Space, lim: nat, top: nat, chain: seq<nat>, other: seq<nat>)
    requires lim <= top <= |s.fat| && LowestClear(s.used, lim, chain)
    requires IsChain(s.fat, top, EOC, other) && Elems(other) <= s.used
    ensures IsChain(ZeroAll(s.fat, chain), top, EOC, other)
    ensures Elems(other) !! Elems(chain)
    ensures forall i :: 0 <= i < |other| ==> other[i] !in Elems(chain)
  {
    forall i | 0 <= i < |other| ensures other[i] in s.used && other[i] !in chain {
      assert other[i] in Elems(other);
    }
    ChainFrame(s.fat, ZeroAll(s.fat, chain), top, EOC, other);
  }

  /** Directory clusters outside cs keep their own slots. */
  lemma DirKept(r: Disk, w: Disk, g: Geometry, m: Bitmap, cs: set<nat>, c: nat)
    requires Undisturbed(r, w, g, m, cs) && c >= 2 && c !in cs && ClearOf(g, m, {c})
    requires g.Lba(c) + g.spc <= |r|
    ensures forall k :: 0 <= k < Cap(g) ==> DirOf(w, g, c)[k] == DirOf(r, g, c)[k]
  {
    forall k | 0 <= k < Cap(g) ensures DirOf(w, g, c)[k] == DirOf(r, g, c)[k] {
      ClusterKept(r, w, g, m, cs, c, g.Lba(c) + k / 16);
    }
  }

  lemma {:induction false} RootDirsKept(r: Disk, w: Disk, g: Geometry, m: Bitmap, cs: set<nat>, root: seq<nat>, need: nat)
    requires g.Valid() && g.Fits(r) && Undisturbed(r, w, g, m, cs)
    requires forall i :: 0 <= i < |root| ==> 2 <= root[i] < g.Top() && root[i] !in cs && ClearOf(g, m, {root[i]})
    ensures PlaceFor(w, g, root, need) == PlaceFor(r, g, root, need)
    ensures forall i, k :: 0 <= i < |root| && 0 <= k < Cap(g) ==> DirOf(w, g, root[i])[k] == DirOf(r, g, root[i])[k]
    decreases |root|
  {
    hide DirOf, Undisturbed, ClearOf, FirstZero, Geometry.Valid;
    if |root| > 0 {
      var c := root[0];
      LbaRoom(g, c);
      DirKept(r, w, g, m, cs, c);
      SameFirstZero(DirOf(r, g, c), DirOf(w, g, c), Cap(g), 0);
      RootDirsKept(r, w, g, m, cs, root[1..], need);
      forall i, k | 0 <= i < |root| && 0 <= k < Cap(g) ensures DirOf(w, g, root[i])[k] == DirOf(r, g, root[i])[k] {
        if i > 0 { assert root[i] == root[1..][i - 1]; }
      }
    }
  }

  lemma {:induction false} SameFirstZero(d: seq<Slot>, r: seq<Slot>, cap: nat, k: nat)
    requires k <= cap <= |d| && cap <= |r| && forall j :: 0 <= j < cap ==> r[j] == d[j]
    ensures FirstZero(r, cap, k) == FirstZero(d, cap, k)
    decreases cap - k
  {
    if k < cap { SameFirstZero(d, r, cap, k + 1); }
  }

  lemma WrittenSince(d0: seq<Slot>, d: seq<Slot>, r: seq<Slot>, existed: bool, cap: nat, m: nat, ents: seq<Slot>)
    requires cap + OVERRUN <= |d| == |d0| == |r| && m + (if existed then 0 else 1) + |ents| <= cap
    requires Written(existed, d, r, cap, m, ents)
    requires forall k :: 0 <= k < cap ==> d[k] == d0[k]
    ensures Written(existed, d0, r, cap, m, ents)
  {
  }

  /** The bytes fit: the rounded-up size does not wrap, and enough clusters are clear. */
  predicate Storable(g: Geometry, clear: nat, size: nat)
    requires g.ClusterBytes() > 0
  {
    size == 0 || (size + g.ClusterBytes() - 1 < U32 && size <= Room(g, clear))
  }

  lemma ClusterArithmetic(g: Geometry, size: nat, clear: nat)
    requires g.Valid() && size < U32
    ensures g.ClusterBytes() > 0
    ensures var n := ClustersFor(size, g.ClusterBytes());
            && (Storable(g, clear, size) <==> n <= clear && (n == 0 ==> size == 0))
            && (n > 0 ==> size <= Room(g, n) && size <= U32 - SECTOR)
  {
    hide Room;
    if size > 0 {
      ClusterCount(g, size, clear);
      WrappedCount(size + g.ClusterBytes() - 1, g.ClusterBytes());
    }
  }

  lemma NothingThere(r: Disk, g: Geometry, s: Space, t: Table)
    requires g.Valid() && g.Fits(r) && g.Top() <= |s.fat|
    ensures ReadWalk(r, g, s.fat, 0, 0) == []
    ensures Freed(s, g.Top(), 0) == s
    ensures WalkInRange(s.fat, g.Top(), EOC, 0)
    ensures ZeroAll(t, []) == t
  {
  }

  /** Newly grabbed clusters hold no bitmap sector. */
  lemma ChainIsClear(used: set<nat>, lim: nat, g: Geometry, m: Bitmap, chain: seq<nat>)
    requires LowestClear(used, lim, chain) && lim <= g.Top()
    requires forall c: nat :: 2 <= c < g.Top() && c !in used ==> ClearOf(g, m, {c})
    ensures ClearOf(g, m, Elems(chain))
  {
    AllClear(g, m, Elems(chain));
  }

  lemma SameDisk(r: Disk, g: Geometry, m: Bitmap, t: Table)
    ensures Undisturbed(r, r, g, m, Elems([])) && ZeroAll(t, []) == t && InTable(t, [])
  {
  }

  /** The first |ents| slots from m on are written. */
  ghost predicate Partly(d: seq<Slot>, r: seq<Slot>, m: nat, ents: seq<Slot>) {
    && |r| == |d| && m + |ents| <= |d|
    && (forall k :: 0 <= k < |d| && !(m <= k < m + |ents|) ==> r[k] == d[k])
    && (forall k :: m <= k < m + |ents| ==> r[k] == ents[k - m])
  }

  lemma NothingYet(d: seq<Slot>, m: nat)
    requires m <= |d|
    ensures Partly(d, d, m, [])
  {
  }

  lemma OneMore(d: seq<Slot>, r: seq<Slot>, m: nat, ents: seq<Slot>, i: nat)
    requires i < |ents| && m + i < |d| && Partly(d, r, m, ents[..i])
    ensures Partly(d, r[m + i := ents[i]], m, ents[..i + 1])
  {
  }

  lemma AllThere(d: seq<Slot>, r: seq<Slot>, cap: nat, m: nat, ents: seq<Slot>)
    requires cap + OVERRUN <= |d| && m + |ents| <= cap && Partly(d, r, m, ents)
    ensures Written(true, d, r, cap, m, ents)
    ensures m + |ents| + 1 <= cap ==> Written(false, d, r[m + |ents| := Zeros(SLOT)], cap, m, ents)
  {
  }

  /** The set ents stands at slot m: over the old one, or at the end marker with a new one behind. */
  ghost predicate Written(existed: bool, d: seq<Slot>, r: seq<Slot>, cap: nat, m: nat, ents: seq<Slot>)
    requires cap + OVERRUN <= |d| == |r| && m + (if existed then 0 else 1) + |ents| <= cap
  {
    && (if existed then Replaced(d, r, cap, m, ents) else Inserted(d, r, m, ents))
    && forall k :: m + |ents| + (if existed then 0 else 1) <= k < cap ==> r[k] == d[k]
  }

  /** Slot by slot: the new set in its place, behind a new one a blank slot, and every other slot of
      the cluster as it was. */
  lemma WrittenMeans(existed: bool, d: seq<Slot>, r: seq<Slot>, cap: nat, m: nat, ents: seq<Slot>)
    requires cap + OVERRUN <= |d| == |r| && m + (if existed then 0 else 1) + |ents| <= cap
    ensures Written(existed, d, r, cap, m, ents) <==>
            forall k :: 0 <= k < cap ==>
              if m <= k < m + |ents| then r[k] == ents[k - m]
              else if !existed && k == m + |ents| then forall x :: 0 <= x < 32 ==> r[k][x] == 0
              else r[k] == d[k]
  {
    if forall k :: 0 <= k < cap ==>
         if m <= k < m + |ents| then r[k] == ents[k - m]
         else if !existed && k == m + |ents| then forall x :: 0 <= x < 32 ==> r[k][x] == 0
         else r[k] == d[k]
    {
      if !existed {
        assert r[m + |ents|] == Zeros(SLOT);
      }
    }
  }

  /** A new set goes to the first end marker of a cluster, if it and a new marker fit behind it in the
      cluster, and to the first such cluster; otherwise nowhere. */
  lemma {:induction false} PlaceMeans(r: Disk, g: Geometry, chain: seq<nat>, need: nat)
    requires Clusters(chain)
    ensures var p := PlaceFor(r, g, chain, need);
            if p.Nowhere? then forall i :: 0 <= i < |chain| ==> NoRoom(r, g, chain[i], need)
            else exists i :: 0 <= i < |chain| && p.clu == chain[i] && RoomAt(r, g, chain[i], p.slot, need)
                             && forall j :: 0 <= j < i ==> NoRoom(r, g, chain[j], need)
    decreases |chain|
  {
    hide DirOf;
    if |chain| > 0 {
      var rest := chain[1..];
      var z := FirstZero(DirOf(r, g, chain[0]), Cap(g), 0);
      if z < Cap(g) && z + need + 1 <= Cap(g) {
        assert RoomAt(r, g, chain[0], z, need);
      } else {
        PlaceMeans(r, g, rest, need);
        assert NoRoom(r, g, chain[0], need);
        var p := PlaceFor(r, g, rest, need);
        if p.Nowhere? {
          forall i | 0 <= i < |chain| ensures NoRoom(r, g, chain[i], need) {
            if i > 0 { assert chain[i] == rest[i - 1]; }
          }
        } else {
          var i :| 0 <= i < |rest| && p.clu == rest[i] && RoomAt(r, g, rest[i], p.slot, need)
                   && forall j :: 0 <= j < i ==> NoRoom(r, g, rest[j], need);
          assert chain[i + 1] == rest[i];
          forall j | 0 <= j < i + 1 ensures NoRoom(r, g, chain[j], need) {
            if j > 0 { assert chain[j] == rest[j - 1]; }
          }
        }
      }
    }
  }

  /** Slot m of cluster c is its first end marker, 16 slots to a sector, with room for need slots and
      a marker behind it. */
  predicate RoomAt(r: Disk, g: Geometry, c: nat, m: nat, need: nat)
    requires c >= 2
  {
    && m + need + 1 <= 16 * g.spc && DirOf(r, g, c)[m][0] == 0
    && forall k :: 0 <= k < m ==> DirOf(r, g, c)[k][0] != 0
  }

  predicate NoRoom(r: Disk, g: Geometry, c: nat, need: nat)
    requires c >= 2
  {
    forall m :: 0 <= m && m + need + 1 <= 16 * g.spc && DirOf(r, g, c)[m][0] == 0 ==>
      exists k :: 0 <= k < m && DirOf(r, g, c)[k][0] == 0
  }

  /** Overwriting first gives up the old chain: its links become zero and its bits clear, nothing
      else does. A set of another length than three slots is not overwritten. */
  lemma OverwriteMeans(s: Space, r: Disk, g: Geometry, root: seq<nat>, l: Lookup, chain: seq<nat>)
    requires Clusters(root) && l.Present? && g.kind.Exfat? && g.Top() <= |s.fat| && g.Top() <= EOC
    requires IsChain(s.fat, g.Top(), EOC, chain) && chain[0] == l.hit.cluster
    ensures var b := Base(s, g, l);
            && |b.fat| == |s.fat| && (forall c :: 0 <= c < |s.fat| ==> b.fat[c] == if c in chain then 0 else s.fat[c])
            && (forall c: nat :: c in b.used <==> c in s.used && c !in chain)
    ensures Target(l, r, g, root) == if l.hit.secCount == 2 then At(l.dirClu, l.hit.slot) else Nowhere
    ensures Target(Missing, r, g, root) == PlaceFor(r, g, root, 3)
  {
    FreedChain(s, g.Top(), chain);
  }

  /** When the data can be stored, in numbers. */
  lemma StorableIff(g: Geometry, clear: nat, size: nat)
    requires g.ClusterBytes() > 0
    ensures Storable(g, clear, size) <==>
            size == 0 || (size + 512 * g.spc - 1 < 0x1_0000_0000 && size <= clear * (g.spc * 512))
  {
    RoomIs(g, clear);
    hide Room;
  }

  /** Rewriting one slot of a directory cluster. */
  lemma SlotWritten(r: Disk, r1: Disk, g: Geometry, m: Bitmap, c: nat, k: nat, s: Slot)
    requires c >= 2 && k < Cap(g) && g.Lba(c) + g.spc <= |r1| && m.Fits(r1)
    requires ClearOf(g, m, {c}) && Undisturbed(r, r1, g, m, {c})
    ensures g.Lba(c) + k / 16 < |r1|
    ensures var w := PutSlot(r1, g.Lba(c), k, s);
            && DirOf(w, g, c) == DirOf(r1, g, c)[k := s]
            && Bits(w, m) == Bits(r1, m) && Undisturbed(r, w, g, m, {c})
  {
    hide Bits, SlotAt, Geometry.Lba;
    var w := PutSlot(r1, g.Lba(c), k, s);
    forall j: nat ensures SlotAt(w, g.Lba(c), j) == if j == k then s else SlotAt(r1, g.Lba(c), j) {
      PutSlotAt(r1, g.Lba(c), k, s, j);
    }
    forall l: nat | l < |r1| && !InClusters(g, {c}, l) ensures w[l] == r1[l] {
      assert c in {c};
    }
    BitsKept(r1, w, g, m, {c});
    Compose(r, r1, w, g, m, {c}, {c});
    assert {c} + {c} == {c};
  }

  /** The place found from cluster k of the chain on. */
  function PlaceFrom(r: Disk, g: Geometry, chain: seq<nat>, k: nat, need: nat): Place
    requires Clusters(chain) && k <= |chain|
  {
    PlaceFor(r, g, chain[k..], need)
  }

  lemma PlaceStart(r: Disk, g: Geometry, chain: seq<nat>, need: nat)
    requires Clusters(chain)
    ensures PlaceFrom(r, g, chain, 0, need) == PlaceFor(r, g, chain, need)
    ensures PlaceFrom(r, g, chain, |chain|, need) == Nowhere
  {
    assert chain[0..] == chain;
  }

  lemma PlaceStep(r: Disk, g: Geometry, chain: seq<nat>, k: nat, need: nat)
    requires Clusters(chain) && k < |chain|
    ensures PlaceFrom(r, g, chain, k, need) ==
            var z := FirstZero(DirAt(r, g.Lba(chain[k]), Cap(g)), Cap(g), 0);
            if z < Cap(g) && z + need + 1 <= Cap(g) then At(chain[k], z) else PlaceFrom(r, g, chain, k + 1, need)
  {
    hide FirstZero, DirAt;
    assert chain[k..][0] == chain[k] && chain[k..][1..] == chain[k + 1..];
  }

  /** The outcome of a lookup from cluster k of the chain on. */
  function LookFrom(r: Disk, g: Geometry, chain: seq<nat>, k: nat, e: seq<Byte>): Lookup
    requires Clusters(chain) && k <= |chain|
  {
    LookIn(r, g, chain[k..], e)
  }

  lemma LookStart(r: Disk, g: Geometry, chain: seq<nat>, e: seq<Byte>)
    requires Clusters(chain)
    ensures LookFrom(r, g, chain, 0, e) == LookIn(r, g, chain, e)
    ensures LookFrom(r, g, chain, |chain|, e) == Missing
  {
    assert chain[0..] == chain;
  }

  lemma LookStep(r: Disk, g: Geometry, chain: seq<nat>, k: nat, e: seq<Byte>)
    requires Clusters(chain) && k < |chain|
    ensures LookFrom(r, g, chain, k, e) ==
            match Scan(DirAt(r, g.Lba(chain[k]), Cap(g)), Cap(g), 0, e)
            case Found(h) => Present(chain[k], h)
            case Stop => Missing
            case Past => LookFrom(r, g, chain, k + 1, e)
  {
    hide Scan, DirAt;
    assert chain[k..][0] == chain[k] && chain[k..][1..] == chain[k + 1..];
  }

  /** path goes along the table's links. */
  ghost predicate Follows(t: Table, top: nat, path: seq<nat>)
    requires top <= |t|
  {
    && (forall i :: 0 <= i < |path| ==> 2 <= path[i] < top)
    && forall i {:trigger t[path[i]]} :: 0 <= i < |path| - 1 ==> t[path[i]] == path[i + 1]
  }

  lemma PathAt(t: Table, top: nat, path: seq<nat>, k: nat)
    requires top <= |t| && Follows(t, top, path) && k < |path|
    ensures forall i :: 0 <= i < |path| ==> 2 <= path[i] < top
    ensures k + 1 < |path| ==> t[path[k]] == path[k + 1]
  {
  }

  lemma ChainFollows(t: Table, top: nat, chain: seq<nat>)
    requires top <= |t| && IsChain(t, top, EOC, chain)
    ensures |chain| > 0 && Follows(t, top, chain) && t[chain[|chain| - 1]] >= EOC
  {
  }

  /** The last cluster of path has room for need slots and an end marker. */
  predicate HasRoom(r: Disk, g: Geometry, path: seq<nat>, need: nat)
    requires Clusters(path) && |path| > 0
  {
    PlaceFrom(r, g, path, |path| - 1, need).At?
  }

  lemma NoRoomThere(r: Disk, g: Geometry, path: seq<nat>, k: nat, need: nat, z: nat)
    requires Clusters(path) && k < |path|
    requires z == FirstZero(DirAt(r, g.Lba(path[k]), Cap(g)), Cap(g), 0)
    requires !(z < Cap(g) && z + need + 1 <= Cap(g))
    ensures k + 1 == |path| ==> !HasRoom(r, g, path, need)
  {
    hide FirstZero, DirAt, PlaceFrom;
    PlaceStep(r, g, path, k, need);
    PlaceStart(r, g, path, need);
  }

  /** The search for e is over in the last cluster of path at the latest. */
  predicate Decides(r: Disk, g: Geometry, path: seq<nat>, e: seq<Byte>)
    requires Clusters(path) && |path| > 0
  {
    Scan(DirOf(r, g, path[|path| - 1]), Cap(g), 0, e) != Past
  }

  /** name_matches_expected. */
  method NameMatches(expected: array<Byte>, w: array<nat>, nchars: nat) returns (b: bool)
    requires nchars <= w.Length && |Until(expected[..], 0)| < expected.Length
    ensures b == Matches(Until(expected[..], 0), w[..nchars])
  {
    hide Until;
    ghost var e := Until(expected[..], 0);
    assert e[0..] == e && w[0..nchars] == w[..nchars];
    for k := 0 to nchars
      invariant k <= |e| && Matches(e[k..], w[k..nchars]) == Matches(e, w[..nchars])
    {
      var c := w[k];
      var ec := expected[k];
      CharAt(expected[..], e, k);
      assert w[k..nchars][1..] == w[k + 1..nchars];
      if c == 0 {
        return ec == 0;
      }
      if c > 127 || ec == 0 || Upper(c) != ec {
        return false;
      }
      assert e[k..][1..] == e[k + 1..];
    }
    CharAt(expected[..], e, nchars);
    return expected[nchars] == 0;
  }

  lemma ScanStep(d: seq<Slot>, cap: nat, i: nat, e: seq<Byte>)
    requires cap + OVERRUN <= |d| && i < cap
    ensures Scan(d, cap, i, e) ==
            if d[i][0] == 0 || Overruns(d, cap, i) then Stop
            else if HitAt(d, i, e) then Found(HitOf(d, i))
            else Scan(d, cap, i + Advance(d, i), e)
  {
  }

  lemma SlotPlace(off: nat, k: nat)
    requires off == 32 * k
    ensures off / SECTOR == k / 16 && off % SECTOR == 32 * (k % 16) <= SECTOR - 32
  {
    assert k == 16 * (k / 16) + k % 16;
  }

  /** Slot i of cluster c is a file's: no directory, and with a stream slot behind it. */
  ghost predicate NamesFile(d: Disk, g: Geometry, c: nat, i: nat) {
    && c >= 2 && g.Lba(c) + (i + 1) / 16 < |d|
    && d[g.Lba(c) + i / 16][32 * (i % 16)] == 0x85
    && d[g.Lba(c) + i / 16][32 * (i % 16) + 4] / 16 % 2 == 0
    && d[g.Lba(c) + (i + 1) / 16][32 * ((i + 1) % 16)] == 0xC0
  }

  lemma FoundOnDisk(vol: Volume, chain: seq<nat>, e: seq<Byte>, c: nat, h: Hit)
    requires vol.Valid() && Clusters(chain) && LookIn(vol.View().rest, vol.g, chain, e) == Present(c, h)
    ensures c in chain && NamesFile(vol.disk, vol.g, c, h.slot)
    ensures c >= 2 && vol.g.Lba(c) + (h.slot + 1) / 16 < |vol.disk|
    ensures vol.disk[vol.g.Lba(c) + h.slot / 16][32 * (h.slot % 16)] == 0x85
    ensures vol.disk[vol.g.Lba(c) + h.slot / 16][32 * (h.slot % 16) + 4] / 16 % 2 == 0
    ensures vol.disk[vol.g.Lba(c) + (h.slot + 1) / 16][32 * ((h.slot + 1) % 16)] == 0xC0
  {
    hide FatDisk.View, Mirrored, LookIn, Geometry.Valid, Geometry.Fits, Geometry.CopyBase;
    FoundInBytes(vol.View().rest, vol.g, chain, e, c, h);
    DataFrom(vol.g, c);
    hide Geometry.Lba;
    RestSector(vol, vol.g.Lba(c) + h.slot / 16);
    RestSector(vol, vol.g.Lba(c) + (h.slot + 1) / 16);
  }

  lemma DataFrom(g: Geometry, c: nat)
    requires c >= 2
    ensures g.dataStart <= g.Lba(c)
  {
  }

  lemma RestSector(vol: Volume, l: nat)
    requires vol.Valid() && vol.g.dataStart <= l < |vol.disk|
    ensures vol.View().rest[l] == vol.disk[l]
  {
    hide FatDisk.View;
    DataSectorView(vol.disk, vol.g, l);
  }

  // ---------------------------------------------------------------- what adding a file achieves

  /** A well-formed root directory for an insertion at place: the clusters in front of it are
      full and hold complete sets, and in its own cluster the sets lead up to the end marker. */
  ghost predicate Searchable(r: Disk, g: Geometry, root: seq<nat>, place: Place)
    requires Clusters(root) && place.At? && place.slot < Cap(g)
  {
    && |root| > 0
    && var d := DirOf(r, g, root[0]);
       if root[0] == place.clu then d[place.slot][0] == 0 && Lands(d, Cap(g), 0, place.slot)
       else Tidy(d, Cap(g)) && Passes(d, Cap(g), 0) && Searchable(r, g, root[1..], place)
  }

  /** Every lookup after the insertion, in terms of the same lookup before it. */
  lemma {:induction false} LookAfter(r: Disk, w: Disk, g: Geometry, m: Bitmap, cs: set<nat>, root: seq<nat>, place: Place,
                                     name: seq<Byte>, first: nat, size: nat, e: seq<Byte>)
    requires g.Valid() && g.Fits(r) && Distinct(root)
    requires forall i :: 0 <= i < |root| ==> 2 <= root[i] < g.Top() && root[i] !in cs && ClearOf(g, m, {root[i]})
    requires place.At? && place.clu >= 2 && place.slot + 4 <= Cap(g) && Searchable(r, g, root, place)
    requires Undisturbed(r, w, g, m, cs + {place.clu})
    requires 0 < |name| <= 15 && IsName(name) && first < U32 && size < U32
    requires Inserted(DirOf(r, g, place.clu), DirOf(w, g, place.clu), place.slot, EntrySet(name, first, size))
    ensures LookIn(w, g, root, e) ==
            if LookIn(r, g, root, e).Present? then LookIn(r, g, root, e)
            else if e == name && Ascii(name) then Present(place.clu, Hit(first, size, place.slot, 2, false))
            else Missing
    decreases |root|
  {
    hide DirOf, EntrySet, Inserted, Undisturbed, ClearOf, Tidy, Passes, Lands, Scan, Geometry.Valid;
    var c := root[0];
    if c == place.clu {
      InsertedFrom(DirOf(r, g, c), DirOf(w, g, c), Cap(g), place.slot, 0, name, first, size, e);
      LandsNotPast(DirOf(r, g, c), Cap(g), 0, place.slot, e);
    } else {
      LbaRoom(g, c);
      DirKept(r, w, g, m, cs + {place.clu}, c);
      ScanTidy(DirOf(r, g, c), DirOf(w, g, c), Cap(g), 0, e);
      PassesNotStop(DirOf(r, g, c), Cap(g), 0, e);
      LookAfter(r, w, g, m, cs, root[1..], place, name, first, size, e);
    }
  }

  /** The sets then lead up to the new end marker, three slots on. */
  lemma {:induction false} SearchableNext(r: Disk, w: Disk, g: Geometry, m: Bitmap, cs: set<nat>, root: seq<nat>, place: Place,
                                          name: seq<Byte>, first: nat, size: nat)
    requires g.Valid() && g.Fits(r) && Distinct(root)
    requires forall i :: 0 <= i < |root| ==> 2 <= root[i] < g.Top() && root[i] !in cs && ClearOf(g, m, {root[i]})
    requires place.At? && place.clu >= 2 && place.slot + 4 <= Cap(g) && Searchable(r, g, root, place)
    requires Undisturbed(r, w, g, m, cs + {place.clu})
    requires 0 < |name| <= 15 && first < U32 && size < U32
    requires Inserted(DirOf(r, g, place.clu), DirOf(w, g, place.clu), place.slot, EntrySet(name, first, size))
    ensures Searchable(w, g, root, At(place.clu, place.slot + 3))
    decreases |root|
  {
    hide DirOf, EntrySet, Inserted, Undisturbed, ClearOf, Tidy, Passes, Lands, Geometry.Valid;
    var c := root[0];
    if c == place.clu {
      LandsNext(DirOf(r, g, c), DirOf(w, g, c), Cap(g), place.slot, 0, name, first, size);
    } else {
      LbaRoom(g, c);
      DirKept(r, w, g, m, cs + {place.clu}, c);
      TidyKept(DirOf(r, g, c), DirOf(w, g, c), Cap(g));
      PassesKept(DirOf(r, g, c), DirOf(w, g, c), Cap(g), 0);
      SearchableNext(r, w, g, m, cs, root[1..], place, name, first, size);
    }
  }

  /** A file added to a well-formed root directory is found with the cluster and size that were
      written exactly when its name is ASCII, and every other name answers as before. */
  lemma AddedFileFound(r: Disk, w: Disk, g: Geometry, m: Bitmap, cs: set<nat>, root: seq<nat>, place: Place,
                       name: seq<Byte>, first: nat, size: nat)
    requires g.Valid() && g.Fits(r) && Distinct(root)
    requires forall i :: 0 <= i < |root| ==> 2 <= root[i] < g.Top() && root[i] !in cs && ClearOf(g, m, {root[i]})
    requires place.At? && place.clu >= 2 && place.slot + 4 <= Cap(g) && Searchable(r, g, root, place)
    requires Undisturbed(r, w, g, m, cs + {place.clu})
    requires 0 < |name| <= 15 && IsName(name) && first < U32 && size < U32
    requires Inserted(DirOf(r, g, place.clu), DirOf(w, g, place.clu), place.slot, EntrySet(name, first, size))
    requires LookIn(r, g, root, name) == Missing
    ensures LookIn(w, g, root, name) == Present(place.clu, Hit(first, size, place.slot, 2, false)) <==> Ascii(name)
    ensures !Ascii(name) ==> LookIn(w, g, root, name) == Missing
    ensures forall e :: e != name ==> LookIn(w, g, root, e) == LookIn(r, g, root, e)
  {
    hide EntrySet, Inserted, Undisturbed, ClearOf, Searchable, LookIn, DirOf, Geometry.Valid;
    LookAfter(r, w, g, m, cs, root, place, name, first, size, name);
    forall e | e != name ensures LookIn(w, g, root, e) == LookIn(r, g, root, e) {
      LookAfter(r, w, g, m, cs, root, place, name, first, size, e);
    }
  }

  /** Lookups and the shape of the directory survive any change elsewhere. */
  lemma {:induction false} SearchKept(r: Disk, w: Disk, g: Geometry, m: Bitmap, cs: set<nat>, root: seq<nat>, place: Place,
                                      e: seq<Byte>)
    requires g.Valid() && g.Fits(r) && Undisturbed(r, w, g, m, cs)
    requires forall i :: 0 <= i < |root| ==> 2 <= root[i] < g.Top() && root[i] !in cs && ClearOf(g, m, {root[i]})
    requires place.At? && place.slot < Cap(g) && Searchable(r, g, root, place)
    ensures Searchable(w, g, root, place) && LookIn(w, g, root, e) == LookIn(r, g, root, e)
    decreases |root|
  {
    hide DirOf, Undisturbed, ClearOf, Tidy, Passes, Lands, Scan, Geometry.Valid;
    var c := root[0];
    LbaRoom(g, c);
    DirKept(r, w, g, m, cs, c);
    var d, d' := DirOf(r, g, c), DirOf(w, g, c);
    if c == place.clu {
      LandsKept(d, d', Cap(g), place.slot, 0, e);
      LandsNotPast(d, Cap(g), 0, place.slot, e);
    } else {
      TidyKept(d, d', Cap(g));
      PassesKept(d, d', Cap(g), 0);
      ScanTidy(d, d', Cap(g), 0, e);
      PassesNotStop(d, Cap(g), 0, e);
      SearchKept(r, w, g, m, cs, root[1..], place, e);
    }
  }

  // ---------------------------------------------------------------- what overwriting a file achieves

  /** What is found is a file, not a directory: its slot starts with 0x85 and has bit 4 of byte 4
      clear, the slot behind it starts with 0xC0, and cluster and size stand there from bytes 20
      and 24 on. */
  lemma {:induction false} FoundInBytes(r: Disk, g: Geometry, root: seq<nat>, e: seq<Byte>, c: nat, h: Hit)
    requires Clusters(root) && LookIn(r, g, root, e) == Present(c, h)
    ensures c in root && c >= 2 && g.Lba(c) + (h.slot + 1) / 16 < |r|
    ensures var a, x := r[g.Lba(c) + h.slot / 16], 32 * (h.slot % 16);
            a[x] == 0x85 && a[x + 1] == h.secCount && a[x + 4] / 16 % 2 == 0
    ensures var b, y := r[g.Lba(c) + (h.slot + 1) / 16], 32 * ((h.slot + 1) % 16);
            && b[y] == 0xC0
            && (var b0: int, b1: int, b2: int, b3: int := b[y + 20], b[y + 21], b[y + 22], b[y + 23];
                h.cluster == b0 + 256 * b1 + 65536 * b2 + 16777216 * b3)
            && (var c0: int, c1: int, c2: int, c3: int := b[y + 24], b[y + 25], b[y + 26], b[y + 27];
                h.size == c0 + 256 * c1 + 65536 * c2 + 16777216 * c3)
    decreases |root|
  {
    hide DirOf, Scan, HitAt, HitOf;
    var d := DirOf(r, g, root[0]);
    if Scan(d, Cap(g), 0, e).Found? {
      FoundAhead(d, Cap(g), 0, e);
      HitAtBytes(d, h.slot, e, d[h.slot + 1][3]);
      HitBytes(d, h.slot);
      SlotBytes(r, g, c, h.slot);
      SlotBytes(r, g, c, h.slot + 1);
    } else {
      FoundInBytes(r, g, root[1..], e, c, h);
    }
  }

  /** A slot that is not empty, or lies on the disk at all, is 32 bytes of a sector of its cluster, 16 slots to a sector. */
  lemma SlotBytes(r: Disk, g: Geometry, c: nat, k: nat)
    requires c >= 2 && k < Cap(g) + OVERRUN && (DirOf(r, g, c)[k][0] != 0 || g.Lba(c) + k / 16 < |r|)
    ensures g.Lba(c) + k / 16 < |r|
    ensures forall x :: 0 <= x < 32 ==> DirOf(r, g, c)[k][x] == r[g.Lba(c) + k / 16][32 * (k % 16) + x]
  {
    hide Geometry.Lba;
  }

  /** A file, a stream and a name entry, none of them an end marker. */
  predicate HasSet(d: seq<Slot>, m: nat) {
    m + 2 < |d| && d[m][0] != 0 && d[m + 1][0] != 0 && d[m + 2][0] != 0
  }

  /** A file is found in a cluster of the directory, with its set inside that cluster. */
  lemma {:induction false} PresentIn(r: Disk, g: Geometry, root: seq<nat>, e: seq<Byte>)
    requires Clusters(root) && LookIn(r, g, root, e).Present?
    ensures var p := LookIn(r, g, root, e);
            && p.dirClu in root && p.dirClu >= 2 && p.hit.slot + 1 + p.hit.secCount <= Cap(g)
            && HasSet(DirOf(r, g, p.dirClu), p.hit.slot)
    ensures Ascii(e)
    decreases |root|
  {
    hide DirOf, Scan, HitOf, Matches, Name, Ascii;
    var d := DirOf(r, g, root[0]);
    if Scan(d, Cap(g), 0, e).Found? {
      FoundAhead(d, Cap(g), 0, e);
      var i := Scan(d, Cap(g), 0, e).hit.slot;
      MatchesOne(e, e, Name(d, i, d[i + 1][3]));
    } else {
      PresentIn(r, g, root[1..], e);
    }
  }

  /** Every lookup after overwriting the set of name: that name has the new cluster and size, every
      other name answers as before, and the directory stays well-formed. */
  lemma {:induction false} LookReplaced(r: Disk, w: Disk, g: Geometry, m: Bitmap, cs: set<nat>, root: seq<nat>, end: Place,
                                        clu: nat, slot: nat, name: seq<Byte>, first: nat, size: nat, e: seq<Byte>)
    requires g.Valid() && g.Fits(r) && Distinct(root)
    requires forall i :: 0 <= i < |root| ==> 2 <= root[i] < g.Top() && root[i] !in cs && ClearOf(g, m, {root[i]})
    requires end.At? && end.slot < Cap(g) && Searchable(r, g, root, end)
    requires clu >= 2 && Undisturbed(r, w, g, m, cs + {clu})
    requires 0 < |name| <= 15 && IsName(name) && first < U32 && size < U32
    requires Holds(LookIn(r, g, root, name), clu, slot)
    requires Replaced(DirOf(r, g, clu), DirOf(w, g, clu), Cap(g), slot, EntrySet(name, first, size))
    ensures LookIn(w, g, root, e) ==
            if e == name then Present(clu, Hit(first, size, slot, 2, false)) else LookIn(r, g, root, e)
    ensures Searchable(w, g, root, end)
    decreases |root|
  {
    hide DirOf, EntrySet, Replaced, Undisturbed, ClearOf, Tidy, Passes, Lands, Scan, Geometry.Valid;
    var c, rest := root[0], root[1..];
    var d, d' := DirOf(r, g, c), DirOf(w, g, c);
    if Scan(d, Cap(g), 0, name).Found? {
      if c == end.clu {
        ReplacedFrom(d, d', Cap(g), slot, end.slot, 0, name, first, size, e);
        LandsNotPast(d, Cap(g), 0, end.slot, e);
      } else {
        ReplacedInFull(d, d', Cap(g), slot, 0, name, first, size, e);
        ReplacedTidy(d, d', Cap(g), slot, name, first, size);
        SearchKept(r, w, g, m, cs + {clu}, rest, end, e);
      }
    } else {
      PresentIn(r, g, rest, name);
      if c == end.clu { LandsNotPast(d, Cap(g), 0, end.slot, name); }
      LbaRoom(g, c);
      DirKept(r, w, g, m, cs + {clu}, c);
      TidyKept(d, d', Cap(g));
      PassesKept(d, d', Cap(g), 0);
      ScanTidy(d, d', Cap(g), 0, e);
      ScanTidy(d, d', Cap(g), 0, name);
      LookReplaced(r, w, g, m, cs, rest, end, clu, slot, name, first, size, e);
    }
  }

  /** The directory is well-formed up to the end marker at end, where a new name goes. */
  ghost predicate Ready(r: Disk, g: Geometry, root: seq<nat>, before: Lookup, place: Place, end: Place) {
    && Clusters(root) && end.At? && end.slot < Cap(g) && Searchable(r, g, root, end)
    && (before.Missing? ==> end == place)
  }

  /** The name resolves to the new file if and only if it is ASCII, every other name answers as
      before, and the directory is well-formed up to its end marker. */
  ghost predicate Settled(r: Disk, w: Disk, g: Geometry, root: seq<nat>, before: Lookup, place: Place, end: Place,
                          name: seq<Byte>, first: nat, size: nat)
  {
    && Clusters(root) && place.At? && end.At? && end.slot + (if before.Missing? then 3 else 0) < Cap(g)
    && (Ascii(name) <==> LookIn(w, g, root, name) == Present(place.clu, Hit(first, size, place.slot, 2, false)))
    && (forall e :: e != name ==> LookIn(w, g, root, e) == LookIn(r, g, root, e))
    && Searchable(w, g, root, if before.Missing? then At(end.clu, end.slot + 3) else end)
  }

  lemma EntryResolves(r: Disk, w: Disk, g: Geometry, m: Bitmap, cs: set<nat>, root: seq<nat>, before: Lookup, place: Place,
                      end: Place, name: seq<Byte>, first: nat, size: nat)
    requires g.Valid() && g.Fits(r) && Distinct(root)
    requires forall i :: 0 <= i < |root| ==> 2 <= root[i] < g.Top() && root[i] !in cs && ClearOf(g, m, {root[i]})
    requires 0 < |name| <= 15 && IsName(name) && first < U32 && size < U32
    requires before == LookIn(r, g, root, name) && place.At? && place == Target(before, r, g, root)
    requires place.clu >= 2 && place.slot + (if before.Present? then 3 else 4) <= Cap(g)
    requires Undisturbed(r, w, g, m, cs + {place.clu})
    requires Written(before.Present?, DirOf(r, g, place.clu), DirOf(w, g, place.clu), Cap(g), place.slot,
                     EntrySet(name, first, size))
    requires Ready(r, g, root, before, place, end)
    ensures Settled(r, w, g, root, before, place, end, name, first, size)
  {
    hide EntrySet, Inserted, Replaced, Undisturbed, ClearOf, Searchable, LookIn, DirOf, Geometry.Valid, PlaceFor;
    if before.Missing? {
      AddedFileFound(r, w, g, m, cs, root, place, name, first, size);
      SearchableNext(r, w, g, m, cs, root, place, name, first, size);
    } else {
      PresentIn(r, g, root, name);
      LookReplaced(r, w, g, m, cs, root, end, place.clu, place.slot, name, first, size, name);
      forall e | e != name ensures LookIn(w, g, root, e) == LookIn(r, g, root, e) {
        LookReplaced(r, w, g, m, cs, root, end, place.clu, place.slot, name, first, size, e);
      }
    }
  }

  /** The file was found at that slot, with one name entry. */
  predicate Holds(l: Lookup, clu: nat, slot: nat) {
    l.Present? && l.dirClu == clu && l.hit.slot == slot && l.hit.secCount == 2
  }

  /** Any other file, a used FAT-linked chain away from the bitmap and the directory, keeps its
      chain and its bytes. */
  lemma OtherFileKept(s: Space, r: Disk, w: Disk, g: Geometry, m: Bitmap, lim: nat, chain: seq<nat>,
                      cs: set<nat>, other: seq<nat>, n: nat)
    requires g.Valid() && g.Fits(r) && g.kind.Exfat? && lim <= g.Top() <= |s.fat|
    requires LowestClear(s.used, lim, chain) && InTable(s.fat, chain)
    requires Undisturbed(r, w, g, m, Elems(chain) + cs)
    requires IsChain(s.fat, g.Top(), EOC, other) && Elems(other) <= s.used
    requires Elems(other) !! cs && ClearOf(g, m, Elems(other))
    ensures IsChain(Allocated(s, chain).fat, g.Top(), EOC, other)
    ensures ReadWalk(w, g, Allocated(s, chain).fat, other[0], n) == ReadWalk(r, g, s.fat, other[0], n)
  {
    hide ReadWalk, IsChain, Undisturbed, ClearOf, LowestClear;
    RootKept(s, lim, g.Top(), other, chain);
    ChainKept(r, w, g, m, Elems(chain) + cs, s.fat, Allocated(s, chain).fat, other, n);
  }
}
