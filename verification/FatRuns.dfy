/** Whole runs of storing and deleting files on a FAT12/16 volume, data included. */
module FatRuns {
  import opened Bytes
  import opened FatDisk
  import opened FatFiles
  import C = Chains

  datatype File = File(chain: seq<nat>, data: seq<Byte>)

  /** The data region, the table and the live files. */
  datatype State = State(rest: Disk, table: C.Table, files: seq<File>)

  function ChainsOf(files: seq<File>): (cs: seq<seq<nat>>)
    ensures |cs| == |files| && forall i :: 0 <= i < |files| ==> cs[i] == files[i].chain
  {
    seq(|files|, i requires 0 <= i < |files| => files[i].chain)
  }

  predicate Sized(g: Geometry, s: State) {
    g.Valid() && !g.kind.Exfat? && g.Fits(s.rest) && g.Top() <= |s.table|
  }

  /** Reading f gives its data. */
  predicate ReadsBack(g: Geometry, s: State, f: File)
    requires Sized(g, s)
  {
    |f.chain| > 0 && ReadWalk(s.rest, g, s.table, f.chain[0], |f.data|) == f.data
  }

  /** The files' chains are all there is in the table, and every file reads back. */
  ghost predicate Holds(g: Geometry, s: State)
    requires Sized(g, s)
  {
    && C.Forest(s.table, g.Top(), g.Eoc(), ChainsOf(s.files))
    && forall i :: 0 <= i < |s.files| ==> ReadsBack(g, s, s.files[i])
  }

  /** data stored in the lowest free clusters, chain. */
  function Stored(g: Geometry, s: State, chain: seq<nat>, data: seq<Byte>): State
    requires Sized(g, s) && |chain| > 0 && forall i :: 0 <= i < |chain| ==> chain[i] < |s.table|
  {
    var t := C.Linked(s.table, chain, g.Eoc());
    State(WriteWalk(s.rest, g, t, chain[0], data), t, s.files + [File(chain, data)])
  }

  ghost function Deleted(g: Geometry, s: State, k: nat): State
    requires Sized(g, s) && k < |s.files| && |s.files[k].chain| > 0
  {
    State(s.rest, C.FreeWalk(s.table, g.Top(), g.Eoc(), s.files[k].chain[0]), C.Without(s.files, k))
  }

  /** A file stored, a file deleted, or a store that failed and changed nothing. */
  ghost predicate Step(g: Geometry, v: State, w: State) {
    && Sized(g, v)
    && (|| (exists chain, data :: |chain| > 0 && C.LowestFree(v.table, g.Top(), chain) && |data| <= Room(g, |chain|)
                                  && w == Stored(g, v, chain, data))
        || (exists k :: 0 <= k < |v.files| && |v.files[k].chain| > 0 && w == Deleted(g, v, k))
        || w == v)
  }

  lemma StoreKeeps(g: Geometry, s: State, chain: seq<nat>, data: seq<Byte>)
    requires Sized(g, s) && Holds(g, s)
    requires |chain| > 0 && C.LowestFree(s.table, g.Top(), chain) && |data| <= Room(g, |chain|)
    ensures Sized(g, Stored(g, s, chain, data)) && Holds(g, Stored(g, s, chain, data))
  {
    var w := Stored(g, s, chain, data);
    hide C.Linked, C.LowestFree, C.Forest, C.IsChain, WriteWalk, ReadWalk, Room, Geometry.Valid, Geometry.Lba;
    assert ChainsOf(w.files) == ChainsOf(s.files) + [chain];
    AllocForest(g, s, chain);
    forall i | 0 <= i < |w.files| ensures ReadsBack(g, w, w.files[i]) {
      if i < |s.files| {
        ForestChain(g, s, i);
        StoredFileReadsBack(s.rest, g, s.table, chain, data, s.files[i].chain, |s.files[i].data|);
      } else {
        LastReadsBack(g, s, chain, data);
      }
    }
  }

  lemma AllocForest(g: Geometry, s: State, chain: seq<nat>)
    requires Sized(g, s) && C.Forest(s.table, g.Top(), g.Eoc(), ChainsOf(s.files))
    requires |chain| > 0 && C.LowestFree(s.table, g.Top(), chain)
    ensures C.Forest(C.Linked(s.table, chain, g.Eoc()), g.Top(), g.Eoc(), ChainsOf(s.files) + [chain])
  {
    hide C.Linked, C.LowestFree, C.Forest;
    C.AllocKeepsForest(s.table, g.Top(), g.Eoc(), ChainsOf(s.files), chain);
  }

  lemma ForestChain(g: Geometry, s: State, i: nat)
    requires Sized(g, s) && C.Forest(s.table, g.Top(), g.Eoc(), ChainsOf(s.files)) && i < |s.files|
    ensures C.IsChain(s.table, g.Top(), g.Eoc(), s.files[i].chain)
  {
    assert ChainsOf(s.files)[i] == s.files[i].chain;
  }

  lemma LastReadsBack(g: Geometry, s: State, chain: seq<nat>, data: seq<Byte>)
    requires Sized(g, s) && |chain| > 0 && C.LowestFree(s.table, g.Top(), chain) && |data| <= Room(g, |chain|)
    ensures Sized(g, Stored(g, s, chain, data)) && ReadsBack(g, Stored(g, s, chain, data), File(chain, data))
  {
    var t := C.Linked(s.table, chain, g.Eoc());
    hide C.Linked, C.LowestFree, C.IsChain, WriteWalk, ReadWalk, Room;
    C.LinkedIsChain(s.table, g.Top(), g.Eoc(), chain);
    FileRoundTrip(s.rest, g, t, chain, data);
  }

  lemma DeleteKeeps(g: Geometry, s: State, k: nat)
    requires Sized(g, s) && Holds(g, s) && k < |s.files|
    ensures |s.files[k].chain| > 0 && Sized(g, Deleted(g, s, k)) && Holds(g, Deleted(g, s, k))
  {
    hide C.Forest, C.IsChain, C.FreeWalk, ReadWalk, Geometry.Valid, Geometry.Lba;
    assert ReadsBack(g, s, s.files[k]);
    var w := Deleted(g, s, k);
    assert ChainsOf(w.files) == C.Without(ChainsOf(s.files), k);
    FreeForest(g, s, k);
    forall i | 0 <= i < |w.files| ensures ReadsBack(g, w, w.files[i]) {
      var j := if i < k then i else i + 1;
      assert w.files[i] == s.files[j] && ReadsBack(g, s, s.files[j]);
      ForestChain(g, s, j);
      ForestChain(g, w, i);
      ReadWalkFrame(s.rest, s.rest, g, s.table, w.table, w.files[i].chain, |w.files[i].data|);
    }
  }

  lemma FreeForest(g: Geometry, s: State, k: nat)
    requires Sized(g, s) && C.Forest(s.table, g.Top(), g.Eoc(), ChainsOf(s.files)) && k < |s.files|
    requires |s.files[k].chain| > 0
    ensures C.Forest(C.FreeWalk(s.table, g.Top(), g.Eoc(), s.files[k].chain[0]), g.Top(), g.Eoc(),
                     C.Without(ChainsOf(s.files), k))
  {
    hide C.Forest, C.FreeWalk;
    C.FreeKeepsForest(s.table, g.Top(), g.Eoc(), ChainsOf(s.files), k);
  }

  lemma StepKeeps(g: Geometry, v: State, w: State)
    requires Sized(g, v) && Holds(g, v) && Step(g, v, w)
    ensures Sized(g, w) && Holds(g, w)
  {
    hide Holds, Stored, Deleted, Geometry.Valid, Geometry.Fits, Room;
    if chain, data :| |chain| > 0 && C.LowestFree(v.table, g.Top(), chain) && |data| <= Room(g, |chain|)
                      && w == Stored(g, v, chain, data) {
      StoreKeeps(g, v, chain, data);
    } else if k :| 0 <= k < |v.files| && |v.files[k].chain| > 0 && w == Deleted(g, v, k) {
      DeleteKeeps(g, v, k);
    }
  }

  ghost predicate Run(g: Geometry, vs: seq<State>) {
    |vs| > 0 && forall i :: 0 <= i < |vs| - 1 ==> Step(g, vs[i], vs[i + 1])
  }

  /** After any run of stores and deletions every live file still reads back its own data, and
      the files' chains are disjoint and account for the whole table. */
  lemma {:induction false} RunReadsBack(g: Geometry, vs: seq<State>)
    requires Run(g, vs) && Sized(g, vs[0]) && Holds(g, vs[0])
    ensures Sized(g, vs[|vs| - 1]) && Holds(g, vs[|vs| - 1])
    decreases |vs|
  {
    if |vs| > 1 {
      hide Holds, Sized, Step;
      StepKeeps(g, vs[0], vs[1]);
      var rest := vs[1..];
      forall i | 0 <= i < |rest| - 1 ensures Step(g, rest[i], rest[i + 1]) {
        assert Step(g, vs[i + 1], vs[i + 2]);
      }
      RunReadsBack(g, rest);
    }
  }
}
