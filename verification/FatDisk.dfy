/** The disk under a FAT12, FAT16 or exFAT volume: 512-byte sectors, several FAT copies, a data
    region. */
module FatDisk {
  import opened Bytes
  import opened FatImage
  import ExfatImage
  import Chains

  type Sector = s: seq<Byte> | |s| == SECTOR witness Zeros(SECTOR)
  type Disk = seq<Sector>

  /** n regions of w sectors each; the products in the C code are turned into this linear form. */
  function Span(n: nat, w: nat): nat {
    if n == 0 then 0 else Span(n - 1, w) + w
  }

  lemma {:induction false} SpanIsProduct(n: nat, w: nat)
    ensures Span(n, w) == n * w
  {
    if n > 0 {
      SpanIsProduct(n - 1, w);
      assert (n - 1) * w == n * w - w;
    }
  }

  lemma {:induction false} SpanOrder(j: nat, k: nat, w: nat)
    requires j < k
    ensures Span(j, w) + w <= Span(k, w)
    decreases k
  {
    if j < k - 1 { SpanOrder(j, k - 1, w); }
  }

  lemma {:induction false} SpanLocate(x: nat, n: nat, w: nat) returns (k: nat, i: nat)
    requires x < Span(n, w)
    ensures k < n && i < w && x == Span(k, w) + i
    decreases n
  {
    if x < Span(n - 1, w) {
      k, i := SpanLocate(x, n - 1, w);
    } else {
      k, i := n - 1, x - Span(n - 1, w);
    }
  }

  datatype Kind = Fat12 | Fat16 | Exfat

  /** The static variables mounting fills in. */
  datatype Geometry = Geometry(
    kind: Kind, fatStart: nat, fatSectors: nat, numFats: nat, dataStart: nat, spc: nat, clusters: nat)
  {
    /** One past the largest cluster number. */
    function Top(): nat { clusters + 2 }

    /** Links at or above this end a chain. */
    function Eoc(): nat {
      match kind
      case Fat12 => 0x0FF8
      case Fat16 => 0xFFF8
      case Exfat => 0xFFFF_FFF8
    }

    function FatBytesLen(): nat { SECTOR * fatSectors }

    /** Whole entries in one FAT copy. */
    function Entries(): nat {
      if kind.Exfat? then FatBytesLen() / 4 else Capacity(kind.Fat12?, FatBytesLen())
    }

    /** First value an entry cannot hold. */
    function EntryLimit(): nat {
      if kind.Exfat? then U32 else Limit(kind.Fat12?)
    }

    /** First sector of FAT copy k. */
    function CopyBase(k: nat): nat { fatStart + Span(k, fatSectors) }

    /** Sector i of FAT copy k. */
    function CopySector(k: nat, i: nat): nat { CopyBase(k) + i }

    function Lba(c: nat): nat
      requires c >= 2
    {
      dataStart + Span(c - 2, spc)
    }

    function ClusterBytes(): nat { spc * SECTOR }

    /** Regions do not overlap, the FAT has an entry for every cluster and no cluster number
        is a bad or end mark. */
    predicate Valid() {
      && 1 <= fatSectors && 1 <= numFats < 256 && 1 <= spc <= 128
      && CopyBase(numFats) <= dataStart
      && Top() <= Entries()
      && Top() < Eoc()
    }

    /** The one-sector reader sees the whole entry of c. */
    predicate Readable(c: nat) {
      kind.Fat12? ==> !Straddles(true, c)
    }

    predicate Fits(d: Disk) {
      Lba(Top()) <= |d|
    }

    predicate InFat(l: nat) { fatStart <= l < CopyBase(numFats) }
  }

  lemma CopyOrder(g: Geometry, j: nat, k: nat)
    requires j < k
    ensures g.CopyBase(j) + g.fatSectors <= g.CopyBase(k)
  {
    SpanOrder(j, k, g.fatSectors);
  }

  lemma FatFits(g: Geometry, d: Disk, k: nat)
    requires g.Valid() && g.Fits(d) && k < g.numFats
    ensures g.fatStart <= g.CopyBase(k) && g.CopyBase(k) + g.fatSectors <= g.CopyBase(g.numFats) <= g.dataStart <= |d|
  {
    CopyOrder(g, k, g.numFats);
  }

  /** FAT copy 0 as flat bytes. */
  function FatBytes(d: Disk, g: Geometry): (f: seq<Byte>)
    requires g.fatStart + g.fatSectors <= |d|
    ensures |f| == g.FatBytesLen()
  {
    seq(g.FatBytesLen(), q requires 0 <= q < g.FatBytesLen() => d[g.fatStart + q / SECTOR][q % SECTOR])
  }

  ghost predicate Mirrored(d: Disk, g: Geometry)
    requires g.CopyBase(g.numFats) <= |d|
  {
    forall k: nat, i: nat :: k < g.numFats && i < g.fatSectors && g.CopySector(k, i) < |d| ==>
      g.fatStart + i < |d| && d[g.CopySector(k, i)] == d[g.fatStart + i]
  }

  /** Everything outside the FAT region; FAT sectors are blanked. */
  function Rest(d: Disk, g: Geometry): (r: Disk)
    ensures |r| == |d|
    ensures forall l :: 0 <= l < |d| && !g.InFat(l) ==> r[l] == d[l]
  {
    seq(|d|, l requires 0 <= l < |d| => if g.InFat(l) then Zeros(SECTOR) else d[l])
  }

  // ---------------------------------------------------------------- the three packings

  function Entries(f: seq<Byte>, kind: Kind): Chains.Table {
    if kind.Exfat? then ExfatImage.Table(f) else Table(f, kind.Fat12?)
  }

  function Leftover(f: seq<Byte>, kind: Kind): seq<int> {
    if kind.Exfat? then [] else Tail(f, kind.Fat12?)
  }

  function PutEntry(f: seq<Byte>, g: Geometry, c: nat, v: nat): (r: seq<Byte>)
    requires |f| == g.FatBytesLen() && c < g.Entries() && v < g.EntryLimit()
    ensures |r| == |f|
  {
    if g.kind.Exfat? then ExfatImage.Put(f, c, v) else Put(f, g.kind.Fat12?, c, v)
  }

  /** Writing entry c changes entry c and no other, in every packing. */
  lemma PutEntryTable(f: seq<Byte>, g: Geometry, c: nat, v: nat)
    requires |f| == g.FatBytesLen() && c < g.Entries() && v < g.EntryLimit()
    ensures |Entries(f, g.kind)| == g.Entries()
    ensures Entries(PutEntry(f, g, c, v), g.kind) == Entries(f, g.kind)[c := v]
    ensures Leftover(PutEntry(f, g, c, v), g.kind) == Leftover(f, g.kind)
  {
    hide Put, Table, Tail, ExfatImage.Put, ExfatImage.Table;
    if g.kind.Exfat? {
      ExfatImage.PutTable(f, c, v);
    } else {
      PutTable(f, g.kind.Fat12?, c, v);
    }
  }

  lemma ByKind(f: seq<Byte>, kind: Kind)
    ensures kind.Exfat? ==> Entries(f, kind) == ExfatImage.Table(f)
    ensures !kind.Exfat? ==> Entries(f, kind) == Table(f, kind.Fat12?) && Leftover(f, kind) == Tail(f, kind.Fat12?)
  {
  }

  lemma EntriesDetermine(f: seq<Byte>, h: seq<Byte>, kind: Kind)
    requires |f| == |h| && |f| % 4 == 0
    requires Entries(f, kind) == Entries(h, kind) && Leftover(f, kind) == Leftover(h, kind)
    ensures f == h
  {
    hide Table, Tail, ExfatImage.Table, Entries, Leftover;
    ByKind(f, kind);
    ByKind(h, kind);
    if kind.Exfat? {
      ExfatImage.TableDetermines(f, h);
    } else {
      TableDetermines(f, h, kind.Fat12?);
    }
  }

  lemma Quarters(n: nat)
    ensures SECTOR * n % 4 == 0
  {
    assert SECTOR * n == 4 * (128 * n);
  }

  /** What a volume holds, copies and packing aside. */
  datatype Contents = Contents(table: Chains.Table, tail: seq<int>, rest: Disk)

  function View(d: Disk, g: Geometry): (v: Contents)
    requires g.fatStart + g.fatSectors <= |d|
    ensures |v.table| == g.Entries() && |v.rest| == |d|
  {
    var f := FatBytes(d, g);
    Contents(Entries(f, g.kind), Leftover(f, g.kind), Rest(d, g))
  }

  /** With identical FAT copies the view determines the disk, sector for sector. */
  lemma ViewDetermines(d: Disk, e: Disk, g: Geometry)
    requires g.Valid() && |d| == |e| && g.Fits(d) && g.CopyBase(g.numFats) <= |d| && g.fatStart + g.fatSectors <= |d|
    requires Mirrored(d, g) && Mirrored(e, g)
    requires View(d, g) == View(e, g)
    ensures d == e
  {
    hide View;
    forall l: nat | l < |d| ensures d[l] == e[l] {
      SectorDetermined(d, e, g, l);
    }
  }

  /** A sector is determined by table and left-over nibbles and by what the view shows of it. */
  lemma SectorDetermined(d: Disk, e: Disk, g: Geometry, l: nat)
    requires g.Valid() && |d| == |e| && g.Fits(d) && g.CopyBase(g.numFats) <= |d| && g.fatStart + g.fatSectors <= |d|
    requires Mirrored(d, g) && Mirrored(e, g) && l < |d|
    requires View(d, g).table == View(e, g).table && View(d, g).tail == View(e, g).tail
    requires View(d, g).rest[l] == View(e, g).rest[l]
    ensures d[l] == e[l]
  {
    if g.InFat(l) {
      Quarters(g.fatSectors);
      EntriesDetermine(FatBytes(d, g), FatBytes(e, g), g.kind);
      var k, i := SpanLocate(l - g.fatStart, g.numFats, g.fatSectors);
      assert l == g.CopySector(k, i);
      assert d[g.CopySector(k, i)] == d[g.fatStart + i];
      assert e[g.CopySector(k, i)] == e[g.fatStart + i];
      SameFatSector(d, e, g, i);
    }
  }

  lemma SameFatSector(d: Disk, e: Disk, g: Geometry, i: nat)
    requires g.fatStart + g.fatSectors <= |d| && |d| == |e| && i < g.fatSectors
    requires FatBytes(d, g) == FatBytes(e, g)
    ensures d[g.fatStart + i] == e[g.fatStart + i]
  {
    var a, b := d[g.fatStart + i], e[g.fatStart + i];
    forall x | 0 <= x < SECTOR ensures a[x] == b[x] {
      var q := SECTOR * i + x;
      assert q / SECTOR == i && q % SECTOR == x;
      assert FatBytes(d, g)[q] == FatBytes(e, g)[q];
    }
  }

  // ---------------------------------------------------------------- writing one FAT entry

  /** One or two consecutive sectors stored at l. */
  function PutRun(d: Disk, l: nat, ss: seq<Sector>): (r: Disk)
    requires 1 <= |ss| <= 2 && l + |ss| <= |d|
    ensures |r| == |d|
    ensures forall m :: 0 <= m < |d| ==> r[m] == if l <= m < l + |ss| then ss[m - l] else d[m]
  {
    if |ss| == 1 then d[l := ss[0]] else d[l := ss[0]][l + 1 := ss[1]]
  }

  /** The same sectors stored at index sec of the first k FAT copies. */
  function PutCopies(d: Disk, g: Geometry, sec: nat, ss: seq<Sector>, k: nat): (r: Disk)
    requires 1 <= |ss| <= 2 && sec + |ss| <= g.fatSectors
    requires g.CopyBase(k) <= |d|
    ensures |r| == |d|
    decreases k
  {
    if k == 0 then d else
      CopyOrder(g, k - 1, k);
      PutRun(PutCopies(d, g, sec, ss, k - 1), g.CopyBase(k - 1) + sec, ss)
  }

  lemma {:induction false} PutCopiesHit(d: Disk, g: Geometry, sec: nat, ss: seq<Sector>, k: nat, j: nat, i: nat)
    requires 1 <= |ss| <= 2 && sec + |ss| <= g.fatSectors
    requires g.CopyBase(k) <= |d| && j < k && i < g.fatSectors
    ensures g.CopySector(j, i) < |d|
    ensures PutCopies(d, g, sec, ss, k)[g.CopySector(j, i)] ==
            if sec <= i < sec + |ss| then ss[i - sec] else d[g.CopySector(j, i)]
    decreases k
  {
    CopyOrder(g, j, k);
    CopyOrder(g, k - 1, k);
    if j < k - 1 {
      CopyOrder(g, j, k - 1);
      PutCopiesHit(d, g, sec, ss, k - 1, j, i);
    } else {
      PutCopiesMiss(d, g, sec, ss, k - 1, g.CopySector(j, i));
    }
  }

  /** Sectors at or past the end of the last written copy, or before the FAT, are untouched. */
  lemma {:induction false} PutCopiesMiss(d: Disk, g: Geometry, sec: nat, ss: seq<Sector>, k: nat, l: nat)
    requires 1 <= |ss| <= 2 && sec + |ss| <= g.fatSectors
    requires g.CopyBase(k) <= |d| && l < |d|
    requires l < g.fatStart || g.CopyBase(k) <= l
    ensures PutCopies(d, g, sec, ss, k)[l] == d[l]
    decreases k
  {
    if k > 0 {
      CopyOrder(g, k - 1, k);
      if k > 1 { CopyOrder(g, 0, k - 1); }
      PutCopiesMiss(d, g, sec, ss, k - 1, l);
    }
  }

  /** ss holds the sectors sec, sec + 1 of the image f, and f is the disk's image elsewhere. */
  ghost predicate Patches(d: Disk, g: Geometry, sec: nat, ss: seq<Sector>, f: seq<Byte>)
    requires g.fatStart + g.fatSectors <= |d|
  {
    && 1 <= |ss| <= 2 && sec + |ss| <= g.fatSectors && |f| == g.FatBytesLen()
    && forall q {:trigger f[q]} :: 0 <= q < |f| ==>
         f[q] == if sec <= q / SECTOR < sec + |ss| then ss[q / SECTOR - sec][q % SECTOR]
                 else FatBytes(d, g)[q]
  }

  /** Storing patched sectors in every copy keeps the copies identical and replaces the image. */
  lemma PutCopiesView(d: Disk, g: Geometry, sec: nat, ss: seq<Sector>, f: seq<Byte>)
    requires g.Valid() && g.Fits(d) && g.CopyBase(g.numFats) <= |d| && g.fatStart + g.fatSectors <= |d|
    requires Mirrored(d, g)
    requires Patches(d, g, sec, ss, f)
    ensures var e := PutCopies(d, g, sec, ss, g.numFats);
            Mirrored(e, g) && FatBytes(e, g) == f && Rest(e, g) == Rest(d, g)
  {
    hide Mirrored, PutCopies;
    var e := PutCopies(d, g, sec, ss, g.numFats);
    PutCopiesMirrored(d, g, sec, ss);
    assert g.CopySector(0, 0) == g.fatStart;
    forall q | 0 <= q < |f| ensures FatBytes(e, g)[q] == f[q] {
      PutCopiesHit(d, g, sec, ss, g.numFats, 0, q / SECTOR);
    }
    forall l: nat | l < |d| && !g.InFat(l) ensures e[l] == d[l] {
      PutCopiesMiss(d, g, sec, ss, g.numFats, l);
    }
  }

  lemma PutCopiesMirrored(d: Disk, g: Geometry, sec: nat, ss: seq<Sector>)
    requires g.Valid() && g.Fits(d) && g.CopyBase(g.numFats) <= |d|
    requires 1 <= |ss| <= 2 && sec + |ss| <= g.fatSectors
    requires Mirrored(d, g)
    ensures Mirrored(PutCopies(d, g, sec, ss, g.numFats), g)
  {
    var e := PutCopies(d, g, sec, ss, g.numFats);
    forall k: nat, i: nat | k < g.numFats && i < g.fatSectors
      ensures g.CopySector(k, i) < |d| && g.fatStart + i < |d| && e[g.CopySector(k, i)] == e[g.fatStart + i]
    {
      PutCopiesHit(d, g, sec, ss, g.numFats, k, i);
      PutCopiesHit(d, g, sec, ss, g.numFats, 0, i);
      assert g.CopySector(0, i) == g.fatStart + i;
    }
  }

  /** Writing a patched entry to every copy is one table update on the view. */
  lemma EntryWriteView(d: Disk, g: Geometry, sec: nat, ss: seq<Sector>, c: nat, v: nat)
    requires g.Valid() && g.Fits(d) && g.CopyBase(g.numFats) <= |d| && g.fatStart + g.fatSectors <= |d|
    requires Mirrored(d, g)
    requires c < g.Entries() && v < g.EntryLimit()
    requires Patches(d, g, sec, ss, PutEntry(FatBytes(d, g), g, c, v))
    ensures var e := PutCopies(d, g, sec, ss, g.numFats);
            Mirrored(e, g) && View(e, g) == View(d, g).(table := View(d, g).table[c := v])
  {
    hide PutEntry, Entries, Leftover, Rest, FatBytes, Patches, Mirrored;
    var f := FatBytes(d, g);
    PutCopiesView(d, g, sec, ss, PutEntry(f, g, c, v));
    PutEntryTable(f, g, c, v);
  }

  // ---------------------------------------------------------------- writing a data sector

  lemma DataWriteView(d: Disk, g: Geometry, l: nat, s: Sector)
    requires g.Valid() && g.Fits(d) && g.CopyBase(g.numFats) <= |d| && g.fatStart + g.fatSectors <= |d|
    requires g.dataStart <= l < |d|
    requires Mirrored(d, g)
    ensures Mirrored(d[l := s], g)
    ensures View(d[l := s], g) == View(d, g).(rest := View(d, g).rest[l := s])
  {
    forall k: nat, i: nat | k < g.numFats && i < g.fatSectors
      ensures g.CopySector(k, i) < g.dataStart && g.fatStart + i < g.dataStart
    {
      FatFits(g, d, k);
      FatFits(g, d, 0);
    }
    assert g.CopySector(0, 0) == g.fatStart;
    assert FatBytes(d[l := s], g) == FatBytes(d, g) by {
      forall q | 0 <= q < g.FatBytesLen() ensures FatBytes(d[l := s], g)[q] == FatBytes(d, g)[q] {
        assert g.CopySector(0, q / SECTOR) == g.fatStart + q / SECTOR;
      }
    }
    assert Rest(d[l := s], g) == Rest(d, g)[l := s];
  }
}
