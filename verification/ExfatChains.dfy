/** exFAT allocation on values: a FAT of 32-bit links and the set of clusters whose bitmap bit is
    set. Free space is what the bitmap says; the FAT of an unused cluster may hold anything. */
module ExfatChains {
  import opened Chains

  /** Links at or above this value end a chain; MARK is the end the allocator writes. */
  const EOC: nat := 0xFFFF_FFF8
  const MARK: nat := 0xFFFF_FFFF

  datatype Space = Space(fat: Table, used: set<nat>)

  // ---------------------------------------------------------------- grabbing

  /** The lowest cluster from from on whose bit is clear, 0 when there is none below lim. */
  function FindClear(used: set<nat>, lim: nat, from: nat): (c: nat)
    requires 2 <= from
    ensures c == 0 ==> forall k :: from <= k < lim ==> k in used
    ensures c != 0 ==> from <= c < lim && c !in used && forall k :: from <= k < c ==> k in used
    decreases lim - from
  {
    if from >= lim then 0 else if from !in used then from else FindClear(used, lim, from + 1)
  }

  ghost function ClearSet(used: set<nat>, lim: nat): set<nat> {
    set c: nat | 2 <= c < lim && c !in used
  }

  /** chain holds the |chain| lowest clear clusters, in order. */
  ghost predicate LowestClear(used: set<nat>, lim: nat, chain: seq<nat>) {
    && Increasing(chain)
    && (forall i :: 0 <= i < |chain| ==> 2 <= chain[i] < lim && chain[i] !in used)
    && (|chain| > 0 ==> forall c :: 2 <= c <= chain[|chain| - 1] && c !in used ==> c in chain)
  }

  /** The space after a successful allocation of chain. */
  ghost function Allocated(s: Space, chain: seq<nat>): Space
    requires forall i :: 0 <= i < |chain| ==> chain[i] < |s.fat|
  {
    Space(Linked(s.fat, chain, MARK), s.used + Elems(chain))
  }

  lemma GrabRound(used: set<nat>, lim: nat, chain: seq<nat>)
    requires LowestClear(used, lim, chain)
    ensures var c := FindClear(used + Elems(chain), lim, 2);
            if c == 0 then ClearSet(used, lim) == Elems(chain)
            else LowestClear(used, lim, chain + [c]) && c !in chain
  {
    var c := FindClear(used + Elems(chain), lim, 2);
    if c != 0 {
      var ch := chain + [c];
      forall i | 0 <= i < |chain| ensures chain[i] < c {
        assert chain[i] <= chain[|chain| - 1];
      }
      forall x | 2 <= x <= c && x !in used ensures x in ch {
        if x < c { assert x in used + Elems(chain); }
      }
    } else {
      forall x | x in ClearSet(used, lim) ensures x in Elems(chain) {
        assert x in used + Elems(chain);
      }
    }
  }

  lemma AllocatedIsChain(s: Space, lim: nat, chain: seq<nat>)
    requires lim <= |s.fat| && lim <= EOC && |chain| > 0
    requires LowestClear(s.used, lim, chain)
    ensures IsChain(Linked(s.fat, chain, MARK), lim, EOC, chain)
  {
    LinkedEntries(s.fat, chain, MARK);
  }

  // ---------------------------------------------------------------- freeing

  /** The free loop: zero the entry, clear the bit, follow the old link. */
  ghost function Freed(s: Space, top: nat, c: nat): (r: Space)
    requires top <= |s.fat|
    ensures |r.fat| == |s.fat|
    decreases NonZero(s.fat), if Live(c, EOC) then 1 else 0
  {
    if !Live(c, EOC) || c >= top then s
    else
      assert NonZero(s.fat[c := 0]) == NonZero(s.fat) - {c};
      assert s.fat[c] != 0 ==> c in NonZero(s.fat);
      Freed(Space(s.fat[c := 0], s.used - {c}), top, s.fat[c])
  }

  /** Freeing zeroes and clears exactly the clusters reachable from the start, on any table. */
  lemma {:induction false} FreedExactlyReachable(s: Space, top: nat, c: nat, x: nat)
    requires top <= |s.fat| && x < |s.fat|
    requires WalkInRange(s.fat, top, EOC, c)
    ensures Freed(s, top, c).fat == FreeWalk(s.fat, top, EOC, c)
    ensures x in Freed(s, top, c).used <==> x in s.used && !Reaches(s.fat, top, EOC, c, x)
    decreases NonZero(s.fat), if Live(c, EOC) then 1 else 0
  {
    if Live(c, EOC) {
      WalkInRangeStep(s.fat, top, EOC, c);
      ReachStep(s.fat, top, EOC, c, x);
      assert NonZero(s.fat[c := 0]) == NonZero(s.fat) - {c};
      assert s.fat[c] != 0 ==> c in NonZero(s.fat);
      FreedExactlyReachable(Space(s.fat[c := 0], s.used - {c}), top, s.fat[c], x);
    }
  }

  /** On a FAT-linked chain free clears exactly the chain's bits. */
  lemma {:induction false} FreedChain(s: Space, top: nat, chain: seq<nat>)
    requires top <= |s.fat| && top <= EOC
    requires IsChain(s.fat, top, EOC, chain)
    ensures Freed(s, top, chain[0]) == Space(ZeroAll(s.fat, chain), s.used - Elems(chain))
    decreases |chain|
  {
    var c := chain[0];
    var s1 := Space(s.fat[c := 0], s.used - {c});
    if |chain| == 1 {
      assert Freed(s, top, c) == Freed(s1, top, s.fat[c]) == s1;
      assert Elems(chain) == {c};
      assert s1.fat == ZeroAll(s.fat, chain);
    } else {
      var rest := chain[1..];
      assert forall i :: 0 <= i < |rest| ==> rest[i] == chain[i + 1];
      assert IsChain(s1.fat, top, EOC, rest);
      FreedChain(s1, top, rest);
      assert forall x :: x in chain <==> x == c || x in rest;
      assert Elems(chain) == {c} + Elems(rest);
      assert ZeroAll(s1.fat, rest) == ZeroAll(s.fat, chain);
      assert s1.used - Elems(rest) == s.used - Elems(chain);
    }
  }

  /** Rolling an allocation back restores the bitmap bit for bit and leaves zeros in the FAT. */
  lemma RollbackRestoresBits(s: Space, top: nat, chain: seq<nat>)
    requires top <= |s.fat| && top <= EOC && |chain| > 0
    requires LowestClear(s.used, top, chain)
    ensures IsChain(Allocated(s, chain).fat, top, EOC, chain)
    ensures Freed(Allocated(s, chain), top, chain[0]) == Space(ZeroAll(s.fat, chain), s.used)
  {
    AllocatedIsChain(s, top, chain);
    FreedChain(Allocated(s, chain), top, chain);
    LinkedEntries(s.fat, chain, MARK);
    assert s.used + Elems(chain) - Elems(chain) == s.used;
    assert ZeroAll(Linked(s.fat, chain, MARK), chain) == ZeroAll(s.fat, chain);
  }

  /** The FAT itself survives a failed allocation exactly when every clear cluster had a zero
      entry to begin with. */
  lemma RollbackRestoresFatIff(s: Space, lim: nat, chain: seq<nat>)
    requires lim <= |s.fat| && LowestClear(s.used, lim, chain) && ClearSet(s.used, lim) == Elems(chain)
    ensures ZeroAll(s.fat, chain) == s.fat <==> forall c :: 2 <= c < lim && c !in s.used ==> s.fat[c] == 0
  {
    var z := ZeroAll(s.fat, chain);
    if z == s.fat {
      forall c | 2 <= c < lim && c !in s.used ensures s.fat[c] == 0 {
        assert c in ClearSet(s.used, lim);
        assert z[c] == 0;
      }
    } else {
      var c :| 0 <= c < |s.fat| && z[c] != s.fat[c];
      assert c in Elems(chain);
    }
  }

  /** A stale link in an unused cluster is lost: one clear cluster, two asked for. */
  lemma RollbackLosesStaleLink()
    ensures var s := Space([0, 0, 7], {});
            LowestClear(s.used, 3, [2]) && Freed(Allocated(s, [2]), 3, 2) == Space([0, 0, 0], {})
  {
    var s := Space([0, 0, 7], {});
    RollbackRestoresBits(s, 3, [2]);
    assert ZeroAll(s.fat, [2]) == [0, 0, 0];
  }

  // ---------------------------------------------------------------- live files

  /** files are disjoint FAT-linked chains, all of whose clusters have their bit set. */
  ghost predicate Agrees(s: Space, top: nat, files: seq<seq<nat>>)
    requires top <= |s.fat|
  {
    && (forall i :: 0 <= i < |files| ==> IsChain(s.fat, top, EOC, files[i]))
    && (forall i, j :: 0 <= i < j < |files| ==> Apart(files[i], files[j]))
    && OwnedSet(files) <= s.used
  }

  /** Clusters whose bit is set although no file owns them: the bitmap itself, the root
      directory, and anything lost. */
  ghost function Unowned(s: Space, files: seq<seq<nat>>): set<nat> {
    s.used - OwnedSet(files)
  }

  /** Allocation sets exactly the new chain's bits and gives it to no one else. */
  lemma AllocKeepsAgreement(s: Space, lim: nat, top: nat, files: seq<seq<nat>>, chain: seq<nat>)
    requires lim <= top <= |s.fat| && top <= EOC && |chain| > 0
    requires Agrees(s, top, files) && LowestClear(s.used, lim, chain)
    ensures Agrees(Allocated(s, chain), top, files + [chain])
    ensures Elems(chain) !! s.used
    ensures Unowned(Allocated(s, chain), files + [chain]) == Unowned(s, files)
  {
    hide OwnedSet;
    var t := Allocated(s, chain);
    LinkedEntries(s.fat, chain, MARK);
    forall c | c in OwnedSet(files) && c < |s.fat| ensures t.fat[c] == s.fat[c] {
      assert c in s.used;
    }
    ForestFrame(s.fat, t.fat, top, EOC, files);
    AllocatedIsChain(s, lim, chain);
    forall i | 0 <= i < |files| ensures Apart(files[i], chain) {
      forall c | c in files[i] ensures c !in chain { OwnedSetIs(files, c); }
    }
    OwnedAppend(files, chain);
  }

  lemma OwnedAppend(files: seq<seq<nat>>, chain: seq<nat>)
    ensures OwnedSet(files + [chain]) == OwnedSet(files) + Elems(chain)
  {
    assert (files + [chain])[..|files|] == files;
  }

  /** Freeing a FAT-linked file clears exactly its bits and leaves the others linked and set. */
  lemma FreeKeepsAgreement(s: Space, top: nat, files: seq<seq<nat>>, k: nat)
    requires top <= |s.fat| && top <= EOC && k < |files|
    requires Agrees(s, top, files)
    ensures |files[k]| > 0 && Agrees(Freed(s, top, files[k][0]), top, Without(files, k))
    ensures Freed(s, top, files[k][0]).used == s.used - Elems(files[k])
    ensures Unowned(Freed(s, top, files[k][0]), Without(files, k)) == Unowned(s, files)
  {
    hide OwnedSet, Freed;
    assert IsChain(s.fat, top, EOC, files[k]);
    hide IsChain;
    FreedChain(s, top, files[k]);
    var t, rest := Freed(s, top, files[k][0]), Without(files, k);
    assert forall i :: 0 <= i < |rest| ==> IsChain(s.fat, top, EOC, rest[i]);
    forall c | c in OwnedSet(rest) ensures c !in files[k] && c in s.used {
      WithoutApart(files, k, c);
      OwnedSetIs(rest, c);
      OwnedSetIs(files, c);
      var i :| 0 <= i < |rest| && c in rest[i];
      assert c in files[if i < k then i else i + 1];
    }
    ForestFrame(s.fat, t.fat, top, EOC, rest);
    assert forall i, j :: 0 <= i < j < |rest| ==> Apart(rest[i], rest[j]);
    forall c: nat ensures c in OwnedSet(files) <==> c in OwnedSet(rest) || c in Elems(files[k]) {
      OwnedSplit(files, k, c);
    }
  }

  lemma OwnedSplit(files: seq<seq<nat>>, k: nat, c: nat)
    requires k < |files|
    ensures c in OwnedSet(files) <==> c in OwnedSet(Without(files, k)) || c in Elems(files[k])
  {
    hide OwnedSet, Owned;
    OwnedSetIs(files, c);
    OwnedSetIs(Without(files, k), c);
    if c in files[k] {
      OwnedAt(files, k, c);
    } else {
      if Owned(files, c) { WithoutOwned(files, k, c); }
      if Owned(Without(files, k), c) { OwnedBefore(files, k, c); }
    }
  }

  lemma OwnedAt(files: seq<seq<nat>>, k: nat, c: nat)
    requires k < |files| && c in files[k]
    ensures Owned(files, c)
  {
  }

  lemma OwnedBefore(files: seq<seq<nat>>, k: nat, c: nat)
    requires k < |files| && Owned(Without(files, k), c)
    ensures Owned(files, c)
  {
    var i :| 0 <= i < |Without(files, k)| && c in Without(files, k)[i];
    assert Without(files, k)[i] == files[if i < k then i else i + 1];
  }

  /** No cluster belongs to two live files, and a clear bit means no live file owns it. */
  lemma OneOwner(s: Space, top: nat, files: seq<seq<nat>>, i: nat, j: nat, c: nat)
    requires top <= |s.fat| && Agrees(s, top, files)
    requires i < |files| && j < |files| && c in files[i]
    ensures c in s.used
    ensures c in files[j] ==> i == j
  {
    OwnedSetIs(files, c);
  }

  // ---------------------------------------------------------------- whole runs

  datatype State = State(space: Space, files: seq<seq<nat>>)

  /** A completed allocation, a freed file, or a failed allocation that rolled chain back. */
  ghost predicate Step(lim: nat, top: nat, v: State, w: State) {
    && lim <= top <= |v.space.fat|
    && (|| (exists chain :: |chain| > 0 && LowestClear(v.space.used, lim, chain)
                            && w == State(Allocated(v.space, chain), v.files + [chain]))
        || (exists k :: 0 <= k < |v.files| && |v.files[k]| > 0
                        && w == State(Freed(v.space, top, v.files[k][0]), Without(v.files, k)))
        || (exists chain :: LowestClear(v.space.used, lim, chain) && Elems(chain) == ClearSet(v.space.used, lim)
                            && w == State(Space(ZeroAll(v.space.fat, chain), v.space.used), v.files)))
  }

  ghost predicate Run(lim: nat, top: nat, vs: seq<State>) {
    |vs| > 0 && forall i :: 0 <= i < |vs| - 1 ==> Step(lim, top, vs[i], vs[i + 1])
  }

  lemma FailKeepsAgreement(s: Space, lim: nat, top: nat, files: seq<seq<nat>>, chain: seq<nat>)
    requires lim <= top <= |s.fat| && Agrees(s, top, files) && LowestClear(s.used, lim, chain)
    ensures Agrees(Space(ZeroAll(s.fat, chain), s.used), top, files)
    ensures Unowned(Space(ZeroAll(s.fat, chain), s.used), files) == Unowned(s, files)
  {
    forall c | c in OwnedSet(files) && c < |s.fat| ensures ZeroAll(s.fat, chain)[c] == s.fat[c] {
      assert c in s.used;
    }
    ForestFrame(s.fat, ZeroAll(s.fat, chain), top, EOC, files);
  }

  lemma StepKeepsAgreement(lim: nat, top: nat, v: State, w: State)
    requires lim <= top <= |v.space.fat| && top <= EOC
    requires Agrees(v.space, top, v.files) && Step(lim, top, v, w)
    ensures |w.space.fat| == |v.space.fat| && Agrees(w.space, top, w.files)
    ensures Unowned(w.space, w.files) == Unowned(v.space, v.files)
  {
    hide Agrees, IsChain, Unowned;
    if chain :| |chain| > 0 && LowestClear(v.space.used, lim, chain)
                && w == State(Allocated(v.space, chain), v.files + [chain]) {
      AllocKeepsAgreement(v.space, lim, top, v.files, chain);
    } else if k :| 0 <= k < |v.files| && |v.files[k]| > 0
                   && w == State(Freed(v.space, top, v.files[k][0]), Without(v.files, k)) {
      FreeKeepsAgreement(v.space, top, v.files, k);
    } else {
      var chain :| LowestClear(v.space.used, lim, chain) && Elems(chain) == ClearSet(v.space.used, lim)
                   && w == State(Space(ZeroAll(v.space.fat, chain), v.space.used), v.files);
      FailKeepsAgreement(v.space, lim, top, v.files, chain);
    }
  }

  /** Bitmap and chains agree after any run of allocations, failures and frees, and no cluster
      leaks: the set bits that no file owns are the same at both ends. */
  lemma {:induction false} RunKeepsAgreement(lim: nat, top: nat, vs: seq<State>)
    requires Run(lim, top, vs)
    requires lim <= top <= |vs[0].space.fat| && top <= EOC && Agrees(vs[0].space, top, vs[0].files)
    ensures var w := vs[|vs| - 1];
            && |w.space.fat| == |vs[0].space.fat| && Agrees(w.space, top, w.files)
            && Unowned(w.space, w.files) == Unowned(vs[0].space, vs[0].files)
    decreases |vs|
  {
    if |vs| > 1 {
      hide Agrees, Step, Unowned;
      StepKeepsAgreement(lim, top, vs[0], vs[1]);
      var rest := vs[1..];
      forall i | 0 <= i < |rest| - 1 ensures Step(lim, top, rest[i], rest[i + 1]) {
        assert Step(lim, top, vs[i + 1], vs[i + 2]);
      }
      RunKeepsAgreement(lim, top, rest);
    }
  }
}
