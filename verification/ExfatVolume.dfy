/** fat.c on a mounted exFAT volume: the allocation bitmap and cluster chains. FAT entries and
    file data are reached through the volume underneath. */
module ExfatVolume {
  import opened Bytes
  import opened FatImage
  import opened FatDisk
  import opened FatFiles
  import opened FatPlaces
  import opened FatVolume
  import opened Chains
  import opened ExfatChains
  import opened ExfatBitmap

  /** The clusters whose bit is set. */
  ghost function Used(bits: seq<bool>): set<nat> {
    set c: nat | 2 <= c < 2 + |bits| && InUse(bits, c)
  }

  predicate InUse(bits: seq<bool>, c: nat)
    requires 2 <= c < 2 + |bits|
  {
    bits[c - 2]
  }

  lemma UsedAfter(bits: seq<bool>, c: nat, v: bool)
    requires 2 <= c < 2 + |bits|
    ensures Used(bits[c - 2 := v]) == if v then Used(bits) + {c} else Used(bits) - {c}
  {
  }

  /** The set of used clusters says what every bit is. */
  lemma UsedDetermines(a: seq<bool>, b: seq<bool>)
    requires |a| == |b| && Used(a) == Used(b)
    ensures a == b
  {
    forall k | 0 <= k < |a| ensures a[k] == b[k] {
      assert InUse(a, k + 2) <==> k + 2 in Used(a);
      assert InUse(b, k + 2) <==> k + 2 in Used(b);
    }
  }

  /** Searching the bitmap is searching a table that is zero where a bit is clear. */
  lemma RankedClear(used: set<nat>, lim: nat, chain: seq<nat>)
    ensures LowestClear(used, lim, chain) <==>
            forall i :: 0 <= i < |chain| ==>
              2 <= chain[i] < lim && chain[i] !in used && |set c: nat | 2 <= c < chain[i] && c !in used| == i
  {
    var t: Table := seq(lim, c requires 0 <= c => if c in used then 1 else 0);
    forall i | 0 <= i < |chain| && chain[i] < lim
      ensures |set c: nat | 2 <= c < chain[i] && c !in used| == |set c | 2 <= c < chain[i] && t[c] == 0|
    {
      SameMembers(set c: nat | 2 <= c < chain[i] && c !in used, set c | 2 <= c < chain[i] && t[c] == 0);
    }
    LowestFreeIff(t, lim, chain);
    assert LowestFree(t, lim, chain) <==> LowestClear(used, lim, chain);
  }

  lemma SameMembers(a: set<nat>, b: set<int>)
    requires (forall x: nat :: x in a ==> x in b) && (forall x :: x in b ==> x >= 0 && x in a)
    ensures |a| == |b|
  {
    if a == {} {
      assert forall x :: x !in b;
    } else {
      var x :| x in a;
      SameMembers(a - {x}, b - {x});
    }
  }

  /** What an allocation stores: each link names the next cluster, the last one is all ones, no other
      link changes, and the bits of these clusters are set. */
  lemma AllocatedMeans(s: Space, chain: seq<nat>)
    requires forall i :: 0 <= i < |chain| ==> chain[i] < |s.fat|
    requires forall i, j :: 0 <= i < j < |chain| ==> chain[i] != chain[j]
    ensures var w := Allocated(s, chain);
            && |w.fat| == |s.fat| && (forall c :: 0 <= c < |s.fat| && c !in chain ==> w.fat[c] == s.fat[c])
            && (forall i {:trigger w.fat[chain[i]]} :: 0 <= i < |chain| ==>
                  w.fat[chain[i]] == if i + 1 < |chain| then chain[i + 1] else 0xFFFF_FFFF)
            && (forall c: nat :: c in w.used <==> c in s.used || c in chain)
  {
    LinkedEntries(s.fat, chain, MARK);
  }

  class ExfatVolume {
    const vol: Volume
    const bitmapClu: nat
    const bitmapBytes: nat

    ghost predicate Valid()
      reads this, vol
    {
      && vol.Valid() && vol.g.kind.Exfat?
      && 2 <= bitmapClu && Map().Fits(vol.disk)
    }

    /** Where the bitmap lies. */
    function Map(): Bitmap
      requires bitmapClu >= 2
    {
      Bitmap(vol.g.Lba(bitmapClu), bitmapBytes)
    }

    /** The allocator looks at clusters below this: those of the volume that have a bit. */
    function Lim(): nat {
      if vol.g.clusters <= 8 * bitmapBytes then vol.g.clusters + 2 else 8 * bitmapBytes + 2
    }

    ghost function Space(): Space
      requires Valid()
      reads this, vol
    {
      ExfatChains.Space(vol.View().table, Used(Bits(vol.View().rest, Map())))
    }

    /** The bit of cluster c: bit (c - 2) % 8, the lowest first, of byte (c - 2) / 8 of the bitmap. */
    lemma UsedOnDisk(c: nat)
      requires Valid() && 2 <= c < 8 * bitmapBytes + 2
      ensures vol.g.Lba(bitmapClu) + (c - 2) / 8 / 512 < |vol.disk|
      ensures c in Space().used <==>
              var b: nat := vol.disk[vol.g.Lba(bitmapClu) + (c - 2) / 8 / 512][(c - 2) / 8 % 512];
              b / [1, 2, 4, 8, 16, 32, 64, 128][(c - 2) % 8] % 2 == 1
    {
      assert vol.g.dataStart <= vol.g.Lba(bitmapClu);
      hide FatDisk.View, Mirrored, BitOf, Geometry.Valid, Geometry.Fits, Geometry.Lba;
      BitmapSector(vol, Map(), (c - 2) / 8);
      var b: nat := vol.disk[vol.g.Lba(bitmapClu) + (c - 2) / 8 / 512][(c - 2) / 8 % 512];
      assert Bits(vol.View().rest, Map())[c - 2] == BitOf(b, (c - 2) % 8);
      BitByShift(b, (c - 2) % 8);
      MaskIs((c - 2) % 8);
    }

    /** The clusters an allocation takes: cluster i of the chain is clear, lies in the volume and has
        a bit, and has exactly i clear clusters below it. */
    lemma LowestClearIff(chain: seq<nat>)
      requires Valid()
      ensures LowestClear(Space().used, Lim(), chain) <==>
              forall i :: 0 <= i < |chain| ==>
                && 2 <= chain[i] < vol.g.clusters + 2 && chain[i] - 2 < 8 * bitmapBytes && chain[i] !in Space().used
                && |set c: nat | 2 <= c < chain[i] && c !in Space().used| == i
    {
      hide Space, Valid, LowestClear;
      RankedClear(Space().used, Lim(), chain);
    }

    /** Everything but the FAT and the bitmap. */
    ghost function Other(): Disk
      requires Valid()
      reads this, vol
    {
      Besides(vol.View().rest, Map())
    }

    constructor (volume: Volume, clu: nat, bytes: nat)
      requires volume.Valid() && volume.g.kind.Exfat? && clu >= 2
      requires Bitmap(volume.g.Lba(clu), bytes).Fits(volume.disk)
      ensures Valid() && vol == volume && bitmapClu == clu && bitmapBytes == bytes
    {
      vol, bitmapClu, bitmapBytes := volume, clu, bytes;
    }

    // -------------------------------------------------------------- the bitmap

    /** Fails for a cluster that has no bit. */
    method BitmapIsFree(cluster: nat) returns (ok: bool, free: bool)
      requires Valid()
      modifies vol.sectorBuf
      ensures ok <==> 2 <= cluster < 8 * bitmapBytes + 2
      ensures ok ==> (free <==> cluster !in Space().used)
    {
      hide FatDisk.View, Mirrored, BitOf, Geometry.Valid, Geometry.Fits;
      if cluster < 2 {
        return false, false;
      }
      var bit := cluster - 2;
      if bit / 8 >= bitmapBytes {
        return false, false;
      }
      var byteOff := bit / 8;
      var bitInByte := bit % 8;
      BitmapSector(vol, Map(), byteOff);
      SpanIsProduct(bitmapClu - 2, vol.g.spc);
      var lba := vol.g.dataStart + (bitmapClu - 2) * vol.g.spc + byteOff / SECTOR;
      var rel := byteOff % SECTOR;
      vol.AtaReadSector(lba, vol.sectorBuf, 0);
      assert vol.sectorBuf[rel] == vol.sectorBuf[0..SECTOR][rel];
      BitByShift(vol.sectorBuf[rel], bitInByte);
      free := vol.sectorBuf[rel] / Mask(bitInByte) % 2 == 0;
      ok := true;
      assert Bits(vol.View().rest, Map())[bit] == BitOf(vol.sectorBuf[rel], bitInByte);
    }

    /** Sets or clears the cluster's bit and touches nothing else. */
    method BitmapModifyBit(cluster: nat, setBit: bool) returns (ok: bool)
      requires Valid()
      modifies vol`disk, vol.sectorBuf
      ensures Valid() && |vol.disk| == |old(vol.disk)|
      ensures ok <==> 2 <= cluster < 8 * bitmapBytes + 2
      ensures !ok ==> vol.disk == old(vol.disk)
      ensures Other() == old(Other())
      ensures Space() == old(Space()).(
                used := if !ok then old(Space()).used
                        else if setBit then old(Space()).used + {cluster} else old(Space()).used - {cluster})
    {
      hide FatDisk.View, Mirrored, BitOf, SetBit, Geometry.Valid, Bits, Besides;
      if cluster < 2 {
        return false;
      }
      var bit := cluster - 2;
      if bit / 8 >= bitmapBytes {
        return false;
      }
      var byteOff := bit / 8;
      var bitInByte := bit % 8;
      BitmapSector(vol, Map(), byteOff);
      SpanIsProduct(bitmapClu - 2, vol.g.spc);
      var lba := vol.g.dataStart + (bitmapClu - 2) * vol.g.spc + byteOff / SECTOR;
      var rel := byteOff % SECTOR;
      vol.AtaReadSector(lba, vol.sectorBuf, 0);
      ghost var was := vol.sectorBuf[..];
      assert was == vol.sectorBuf[0..SECTOR];
      vol.sectorBuf[rel] := WithBit(vol.sectorBuf[rel], bitInByte, setBit);
      assert vol.sectorBuf[0..SECTOR] == was[rel := SetByteBit(was[rel], bitInByte, setBit)];
      DataWriteView(vol.disk, vol.g, lba, vol.sectorBuf[0..SECTOR]);
      PutBitBits(vol.View().rest, Map(), bit, setBit);
      UsedAfter(Bits(vol.View().rest, Map()), cluster, setBit);
      vol.AtaWriteSector(lba, vol.sectorBuf, 0);
      assert vol.View().rest == PutBit(old(vol.View().rest), Map(), bit, setBit);
      ok := true;
    }

    /** Takes the lowest cluster whose bit is clear, 0 when none is left. */
    method GrabCluster() returns (c: nat)
      requires Valid()
      modifies vol`disk, vol.sectorBuf
      ensures Valid() && |vol.disk| == |old(vol.disk)|
      ensures c == FindClear(old(Space()).used, Lim(), 2)
      ensures c == 0 ==> vol.disk == old(vol.disk)
      ensures Other() == old(Other())
      ensures Space() == old(Space()).(used := if c == 0 then old(Space()).used else old(Space()).used + {c})
      ensures c != 0 ==> 2 <= c < vol.g.Top()
    {
      hide FatDisk.View, Mirrored, Bits, Besides, Geometry.Valid, Geometry.Fits;
      c := 2;
      while c < 2 + vol.g.clusters
        invariant 2 <= c <= 2 + vol.g.clusters
        invariant Valid() && vol.disk == old(vol.disk)
        invariant c <= Lim() && FindClear(Space().used, Lim(), c) == FindClear(Space().used, Lim(), 2)
      {
        var ok, free := BitmapIsFree(c);
        if !ok {
          return 0;
        }
        if free {
          ok := BitmapModifyBit(c, true);
          if !ok {
            // The bit was just read, so writing it cannot fail.
            assert false;
          }
          return;
        }
        c := c + 1;
      }
      c := 0;
    }

    // -------------------------------------------------------------- chains

    method ReleaseCluster(c: nat)
      requires Valid() && c < vol.g.Top()
      modifies vol`disk, vol.sectorBuf, vol.fatSectorBuf
      ensures Valid() && |vol.disk| == |old(vol.disk)|
      ensures Other() == old(Other())
      ensures Space() == if c < 2 then old(Space())
                         else ExfatChains.Space(old(Space()).fat[c := 0], old(Space()).used - {c})
    {
      hide FatDisk.View, Mirrored, Bits, Besides, Geometry.Fits;
      if c < 2 {
        return;
      }
      EntryReadable(vol.g, c);
      hide Geometry.Valid;
      vol.ExfatSetFatEntry(c, 0);
      var _ := BitmapModifyBit(c, false);
    }

    /** Zeroes the entry and clears the bit of every cluster on the walk from start, which may
        be cyclic or cross-linked as long as it stays inside the volume. */
    method FreeChain(start: nat)
      requires Valid()
      requires WalkInRange(Space().fat, vol.g.Top(), EOC, start)
      modifies vol`disk, vol.sectorBuf, vol.fatSectorBuf
      ensures Valid() && |vol.disk| == |old(vol.disk)|
      ensures Other() == old(Other())
      ensures Space() == Freed(old(Space()), vol.g.Top(), start)
    {
      hide FatDisk.View, Mirrored, Bits, Besides, Geometry.Fits, WalkInRange, Reaches;
      var c: nat := start;
      ghost var top := vol.g.Top();
      while 2 <= c < 0xFFFF_FFF8
        invariant Valid() && |vol.disk| == |old(vol.disk)|
        invariant Other() == old(Other())
        invariant WalkInRange(Space().fat, top, EOC, c)
        invariant Freed(Space(), top, c) == Freed(old(Space()), top, start)
        decreases NonZero(Space().fat), if Live(c, EOC) then 1 else 0
      {
        ghost var t := Space().fat;
        LiveInRange(t, top, EOC, c);
        WalkInRangeStep(t, top, EOC, c);
        EntryReadable(vol.g, c);
        var next := vol.GetEntryExfat(c);
        ReleaseCluster(c);
        assert NonZero(t[c := 0]) == NonZero(t) - {c};
        assert t[c] != 0 ==> c in NonZero(t);
        c := next;
      }
    }

    /** n clusters linked and marked used; or, when fewer are clear, every byte outside the FAT as
        it was and the FAT entries of the clusters tried in vain zero. */
    method AllocChain(n: nat) returns (ok: bool, first: nat, ghost chain: seq<nat>)
      requires Valid()
      modifies vol`disk, vol.sectorBuf, vol.fatSectorBuf
      ensures Valid() && |vol.disk| == |old(vol.disk)|
      ensures Other() == old(Other())
      ensures LowestClear(old(Space()).used, Lim(), chain) && InTable(old(Space()).fat, chain)
      ensures ok <==> n <= |ClearSet(old(Space()).used, Lim())|
      ensures ok ==> |chain| == n && Space() == Allocated(old(Space()), chain)
      ensures n == 0 ==> first == 0 && vol.disk == old(vol.disk)
      ensures ok && n > 0 ==> first == chain[0]
      ensures !ok ==> Elems(chain) == ClearSet(old(Space()).used, Lim())
      ensures !ok ==> Space() == ExfatChains.Space(ZeroAll(old(Space()).fat, chain), old(Space()).used)
      ensures !ok ==> vol.View().rest == old(vol.View()).rest
    {
      hide FatDisk.View, Mirrored, Bits, Besides, Geometry.Fits, Linked, IsChain, WalkInRange, Freed, ZeroAll;
      ghost var s := Space();
      ghost var lim := Lim();
      chain := [];
      NoneAllocated(s);
      if n == 0 {
        return true, 0, [];
      }
      var prev: nat := 0;
      first := 0;
      for i := 0 to n
        invariant Valid() && |vol.disk| == |old(vol.disk)|
        invariant Other() == old(Other())
        invariant |chain| == i && LowestClear(s.used, lim, chain) && InTable(s.fat, chain)
        invariant Space() == Allocated(s, chain)
        invariant i > 0 ==> first == chain[0] && prev == chain[i - 1]
      {
        GrabRound(s.used, lim, chain);
        var c := GrabCluster();
        if c == 0 {
          if i > 0 {
            Rollback(first, s, chain);
          }
          IncreasingCard(chain);
          UsedDetermines(Bits(old(vol.View()).rest, Map()), Bits(vol.View().rest, Map()));
          BitsAndRestDetermine(old(vol.View()).rest, vol.View().rest, Map());
          return false, first, chain;
        }
        if i == 0 {
          first := c;
        }
        LinkCluster(prev, c, i == 0, s, chain);
        prev := c;
        chain := chain + [c];
      }
      LowestClearCard(s.used, lim, chain);
      return true, first, chain;
    }

    /** The table writes of one allocation round. */
    method LinkCluster(prev: nat, c: nat, isFirst: bool, ghost s: Space, ghost chain: seq<nat>)
      requires Valid() && 2 <= c < vol.g.Top()
      requires |s.fat| == |Space().fat| && InTable(s.fat, chain)
      requires Space() == Allocated(s, chain).(used := Allocated(s, chain).used + {c})
      requires isFirst <==> |chain| == 0
      requires !isFirst ==> prev == chain[|chain| - 1] && 2 <= prev < vol.g.Top()
      modifies vol`disk, vol.fatSectorBuf
      ensures Valid() && |vol.disk| == |old(vol.disk)|
      ensures Other() == old(Other())
      ensures InTable(s.fat, chain + [c]) && Space() == Allocated(s, chain + [c])
    {
      hide FatDisk.View, Mirrored, Bits, Besides, Geometry.Fits, Linked;
      EntryReadable(vol.g, c);
      LinkedExtend(s.fat, chain, c, MARK);
      if !isFirst {
        EntryReadable(vol.g, prev);
        vol.ExfatSetFatEntry(prev, c);
      } else {
        LinkedNone(s.fat, MARK);
      }
      vol.ExfatSetFatEntry(c, 0xFFFF_FFFF);
      assert Elems(chain + [c]) == Elems(chain) + {c};
    }

    /** Frees the partial chain of a failed allocation. */
    method Rollback(first: nat, ghost s: Space, ghost chain: seq<nat>)
      requires Valid() && |s.fat| == |Space().fat|
      requires LowestClear(s.used, vol.g.Top(), chain) && InTable(s.fat, chain)
      requires |chain| > 0 && first == chain[0]
      requires Space() == Allocated(s, chain)
      modifies vol`disk, vol.sectorBuf, vol.fatSectorBuf
      ensures Valid() && |vol.disk| == |old(vol.disk)|
      ensures Other() == old(Other())
      ensures Space() == ExfatChains.Space(ZeroAll(s.fat, chain), s.used)
    {
      hide FatDisk.View, Mirrored, Bits, Besides, Geometry.Fits, Linked, IsChain, WalkInRange, Freed, LowestClear;
      RollbackRestoresBits(s, vol.g.Top(), chain);
      ChainWalkInRange(Space().fat, vol.g.Top(), EOC, chain);
      FreeChain(first);
    }
  }

  /** The mask form of replacing one bit. */
  function WithBit(b: Byte, k: nat, v: bool): (r: Byte)
    requires k < 8
    ensures r == SetByteBit(b, k, v)
  {
    SetByMask(b, k, v);
    BitByShift(b, k);
    assert SetBit(b, k, v) == SetByteBit(b, k, v);
    if v then
      if b / Mask(k) % 2 == 1 then b else b + Mask(k)
    else
      if b / Mask(k) % 2 == 1 then b - Mask(k) else b
  }

  lemma BitmapSector(vol: Volume, m: Bitmap, i: nat)
    requires vol.Valid() && m.Fits(vol.disk) && vol.g.dataStart <= m.lba && i < m.bytes
    ensures vol.g.dataStart <= m.lba + i / SECTOR < |vol.disk|
    ensures m.Fits(vol.View().rest)
    ensures vol.View().rest[m.lba + i / SECTOR] == vol.disk[m.lba + i / SECTOR]
  {
    hide FatDisk.View;
    InSectors(m, i);
    DataSectorView(vol.disk, vol.g, m.lba + i / SECTOR);
  }

  lemma LiveInRange(t: Table, top: nat, eoc: nat, c: nat)
    requires top <= |t| && Live(c, eoc)
    requires WalkInRange(t, top, eoc, c)
    ensures c < top && WalkInRange(t, top, eoc, t[c])
  {
    assert Iter(t, top, eoc, c, 0) == c;
    assert Reaches(t, top, eoc, c, c);
    var next := t[c];
    forall x: nat | Reaches(t, top, eoc, next, x) ensures x < top {
      var k: nat :| Iter(t, top, eoc, next, k) == x;
      assert Iter(t, top, eoc, c, k + 1) == x;
      assert Reaches(t, top, eoc, c, x);
    }
  }

  lemma NoneAllocated(s: Space)
    ensures Allocated(s, []) == s
    ensures forall lim: nat :: LowestClear(s.used, lim, [])
  {
    assert Elems([]) == {};
  }

  lemma LowestClearCard(used: set<nat>, lim: nat, chain: seq<nat>)
    requires LowestClear(used, lim, chain)
    ensures |chain| <= |ClearSet(used, lim)|
  {
    IncreasingCard(chain);
    SubsetCard(Elems(chain), ClearSet(used, lim));
  }

  lemma MaskIs(k: nat)
    requires k < 8
    ensures Mask(k) == [1, 2, 4, 8, 16, 32, 64, 128][k]
  {
    assert Mask(3) == 2 * Mask(2) == 8;
    assert Mask(6) == 2 * Mask(5) == 4 * Mask(4) == 8 * Mask(3);
  }
}
