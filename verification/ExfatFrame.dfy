/** Which sectors of an exFAT volume an operation may touch, and what survives when it touches no
    others. */
module ExfatFrame {
  import opened Bytes
  import opened FatImage
  import opened FatDisk
  import opened FatFiles
  import opened Chains
  import opened ExfatBitmap

  /** Sector l belongs to a cluster of cs. */
  ghost predicate InClusters(g: Geometry, cs: set<nat>, l: nat) {
    exists c :: c in cs && c >= 2 && g.Lba(c) <= l < g.Lba(c) + g.spc
  }

  predicate InMap(m: Bitmap, l: nat) {
    m.lba <= l < m.lba + m.Sectors()
  }

  /** Outside the bitmap and the clusters of cs, w is r. */
  ghost predicate Undisturbed(r: Disk, w: Disk, g: Geometry, m: Bitmap, cs: set<nat>) {
    |w| == |r| && forall l: nat :: l < |r| && !InMap(m, l) && !InClusters(g, cs, l) ==> w[l] == r[l]
  }

  /** No cluster of cs holds a bitmap sector. */
  ghost predicate ClearOf(g: Geometry, m: Bitmap, cs: set<nat>) {
    forall l: nat :: InMap(m, l) ==> !InClusters(g, cs, l)
  }

  lemma Compose(r: Disk, w: Disk, x: Disk, g: Geometry, m: Bitmap, a: set<nat>, b: set<nat>)
    requires Undisturbed(r, w, g, m, a) && Undisturbed(w, x, g, m, b)
    ensures Undisturbed(r, x, g, m, a + b)
  {
    forall l: nat | InClusters(g, a, l) || InClusters(g, b, l) ensures InClusters(g, a + b, l) {
      var c :| (c in a || c in b) && c >= 2 && g.Lba(c) <= l < g.Lba(c) + g.spc;
      assert c in a + b;
    }
  }

  /** Changing bitmap bytes only. */
  lemma BesidesUndisturbed(r: Disk, w: Disk, g: Geometry, m: Bitmap, cs: set<nat>)
    requires |w| == |r| && Besides(r, m) == Besides(w, m)
    ensures Undisturbed(r, w, g, m, cs)
  {
    forall l: nat | l < |r| && !InMap(m, l) ensures w[l] == r[l] {
      assert Besides(r, m)[l] == Besides(w, m)[l];
      forall x | 0 <= x < SECTOR ensures r[l][x] == w[l][x] {
        assert Blanked(r[l], m, l)[x] == Blanked(w[l], m, l)[x];
        assert !InBitmap(m, l, x);
      }
    }
  }

  lemma ElemsInChain(g: Geometry, chain: seq<nat>, l: nat)
    ensures InClusters(g, Elems(chain), l) <==> InChain(g, chain, l)
  {
    if InClusters(g, Elems(chain), l) {
      var c :| c in Elems(chain) && c >= 2 && g.Lba(c) <= l < g.Lba(c) + g.spc;
      var i :| 0 <= i < |chain| && chain[i] == c;
      assert g.Lba(chain[i]) <= l < g.Lba(chain[i]) + g.spc;
    }
    if InChain(g, chain, l) {
      var i :| 0 <= i < |chain| && chain[i] >= 2 && g.Lba(chain[i]) <= l < g.Lba(chain[i]) + g.spc;
      assert chain[i] in Elems(chain);
    }
  }

  /** A write that stays in clusters free of bitmap sectors leaves every bit alone. */
  lemma BitsKept(r: Disk, w: Disk, g: Geometry, m: Bitmap, cs: set<nat>)
    requires |w| == |r| && m.Fits(r) && ClearOf(g, m, cs)
    requires forall l: nat :: l < |r| && !InClusters(g, cs, l) ==> w[l] == r[l]
    ensures Bits(w, m) == Bits(r, m) && Undisturbed(r, w, g, m, cs)
  {
    hide Bits;
    forall l | m.lba <= l < m.lba + m.Sectors() ensures w[l] == r[l] {
      assert InMap(m, l);
    }
    BitsFrame(r, w, m);
  }

  /** Writing a file's data: bits kept, other sectors kept, and the data reads back. */
  lemma DataWritten(r: Disk, g: Geometry, m: Bitmap, t: Table, chain: seq<nat>, data: seq<Byte>)
    requires g.Valid() && g.Fits(r) && g.Top() <= |t| && m.Fits(r)
    requires IsChain(t, g.Top(), g.Eoc(), chain) && |data| <= Room(g, |chain|)
    requires ClearOf(g, m, Elems(chain))
    ensures var w := WriteWalk(r, g, t, chain[0], data);
            && Bits(w, m) == Bits(r, m) && Undisturbed(r, w, g, m, Elems(chain))
            && ReadWalk(w, g, t, chain[0], |data|) == data
  {
    hide WriteWalk, ReadWalk, Bits, Room, Geometry.Valid;
    var w := WriteWalk(r, g, t, chain[0], data);
    hide IsChain;
    forall l: nat | l < |r| && !InClusters(g, Elems(chain), l) ensures w[l] == r[l] {
      ElemsInChain(g, chain, l);
      WriteWalkFrame(r, g, t, chain, data, l);
    }
    BitsKept(r, w, g, m, Elems(chain));
    FileRoundTrip(r, g, t, chain, data);
  }

  /** A cluster outside cs and away from the bitmap keeps its sectors. */
  lemma ClusterKept(r: Disk, w: Disk, g: Geometry, m: Bitmap, cs: set<nat>, c: nat, l: nat)
    requires Undisturbed(r, w, g, m, cs) && c >= 2 && c !in cs && ClearOf(g, m, {c})
    requires g.Lba(c) <= l < g.Lba(c) + g.spc && l < |r|
    ensures w[l] == r[l]
  {
    assert InClusters(g, {c}, l);
    if InClusters(g, cs, l) {
      var d :| d in cs && d >= 2 && g.Lba(d) <= l < g.Lba(d) + g.spc;
      ClustersApart(g, c, d);
    }
  }

  /** A chain outside cs and away from the bitmap keeps what it reads as. */
  lemma ChainKept(r: Disk, w: Disk, g: Geometry, m: Bitmap, cs: set<nat>, t: Table, t': Table, chain: seq<nat>, n: nat)
    requires g.Valid() && g.Fits(r) && g.Top() <= |t| == |t'| && Undisturbed(r, w, g, m, cs)
    requires IsChain(t, g.Top(), g.Eoc(), chain) && IsChain(t', g.Top(), g.Eoc(), chain)
    requires Elems(chain) !! cs && ClearOf(g, m, Elems(chain))
    ensures ReadWalk(w, g, t', chain[0], n) == ReadWalk(r, g, t, chain[0], n)
  {
    hide ReadWalk, Geometry.Valid;
    forall l: nat | l < |r| && InChain(g, chain, l) ensures w[l] == r[l] {
      var i :| 0 <= i < |chain| && chain[i] >= 2 && g.Lba(chain[i]) <= l < g.Lba(chain[i]) + g.spc;
      assert chain[i] in Elems(chain);
      PartClear(g, m, Elems(chain), chain[i]);
      ClusterKept(r, w, g, m, cs, chain[i], l);
    }
    ReadWalkFrame(r, w, g, t, t', chain, n);
  }

  lemma PartClear(g: Geometry, m: Bitmap, cs: set<nat>, c: nat)
    requires ClearOf(g, m, cs) && c in cs
    ensures ClearOf(g, m, {c})
  {
    forall l: nat | InClusters(g, {c}, l) ensures InClusters(g, cs, l) {
    }
  }

  /** Clusters that are each free of bitmap sectors are so together. */
  lemma AllClear(g: Geometry, m: Bitmap, cs: set<nat>)
    requires forall c :: c in cs ==> ClearOf(g, m, {c})
    ensures ClearOf(g, m, cs)
  {
    forall l: nat | InClusters(g, cs, l) ensures exists c :: c in cs && InClusters(g, {c}, l) {
      var c :| c in cs && c >= 2 && g.Lba(c) <= l < g.Lba(c) + g.spc;
      assert c in {c};
      assert InClusters(g, {c}, l);
    }
  }
}
