/** Cluster chains as the FAT code sees them: a table maps a cluster number to
    its entry, 0 is free, eoc and above ends a chain, eoc - 1 marks a bad cluster.
    This module says what allocation and freeing do to a table and proves what they
    keep, with no disk in sight. */
module Chains {

  type Table = seq<nat>

  /** The guard of every chain loop in fat.c: the value is followed as a cluster number. */
  predicate Live(c: nat, eoc: nat) {
    2 <= c < eoc
  }

  // ---------------------------------------------------------------- first fit

  function FindFreeFrom(t: Table, top: nat, from: nat): (c: nat)
    requires 2 <= from
    requires top <= |t|
    ensures c == 0 ==> forall k :: from <= k < top ==> t[k] != 0
    ensures c != 0 ==> from <= c < top && t[c] == 0 && forall k :: from <= k < c ==> t[k] != 0
    decreases top - from
  {
    if from >= top then 0
    else if t[from] == 0 then from
    else FindFreeFrom(t, top, from + 1)
  }

  function FindFree(t: Table, top: nat): nat
    requires top <= |t|
  {
    FindFreeFrom(t, top, 2)
  }

  ghost function FreeSet(t: Table, top: nat): set<nat>
    requires top <= |t|
  {
    set c | 2 <= c < top && t[c] == 0
  }

  // ---------------------------------------------------------------- chains

  predicate Distinct(s: seq<nat>) {
    forall i, j :: 0 <= i < j < |s| ==> s[i] != s[j]
  }

  predicate Increasing(s: seq<nat>) {
    forall i, j :: 0 <= i < j < |s| ==> s[i] < s[j]
  }

  ghost function Elems(s: seq<nat>): set<nat> {
    set x | x in s
  }

  /** chain is a complete EOC-terminated chain of t inside the clusters 2..top. */
  ghost predicate IsChain(t: Table, top: nat, eoc: nat, chain: seq<nat>)
    requires top <= |t|
  {
    && 0 < |chain|
    && Distinct(chain)
    && (forall i :: 0 <= i < |chain| ==> 2 <= chain[i] < top)
    && (forall i {:trigger t[chain[i]]} :: 0 <= i < |chain| - 1 ==> t[chain[i]] == chain[i + 1])
    && t[chain[|chain| - 1]] >= eoc
  }

  /** t with the clusters of chain linked in order and the last one ended. */
  function Linked(t: Table, chain: seq<nat>, eoc: nat): (r: Table)
    requires forall i :: 0 <= i < |chain| ==> chain[i] < |t|
    ensures |r| == |t|
  {
    if |chain| == 0 then t
    else if |chain| == 1 then t[chain[0] := eoc]
    else Linked(t, chain[..|chain| - 1], eoc)[chain[|chain| - 2] := chain[|chain| - 1]][chain[|chain| - 1] := eoc]
  }

  lemma {:induction false} LinkedEntries(t: Table, chain: seq<nat>, eoc: nat)
    requires forall i :: 0 <= i < |chain| ==> chain[i] < |t|
    requires Distinct(chain)
    ensures forall c :: 0 <= c < |t| && c !in chain ==> Linked(t, chain, eoc)[c] == t[c]
    ensures forall i {:trigger Linked(t, chain, eoc)[chain[i]]} :: 0 <= i < |chain| - 1 ==>
              Linked(t, chain, eoc)[chain[i]] == chain[i + 1]
    ensures |chain| > 0 ==> Linked(t, chain, eoc)[chain[|chain| - 1]] == eoc
  {
    if |chain| >= 2 {
      var n := |chain| - 1;
      var init := chain[..n];
      LinkedEntries(t, init, eoc);
      var l := Linked(t, init, eoc);
      assert init[|init| - 1] == chain[n - 1];
      forall c | 0 <= c < |t| && c !in chain ensures l[c] == t[c] {
        assert c !in init;
      }
      forall i | 0 <= i < n - 1 ensures l[chain[i]] == chain[i + 1] {
        assert l[init[i]] == init[i + 1];
      }
    }
  }

  // ---------------------------------------------------------------- freeing

  ghost function NonZero(t: Table): set<nat> {
    set c | 0 <= c < |t| && t[c] != 0
  }

  /** What the free loop leaves: it zeroes the entry it stands on and moves to the old link.
      No acyclicity is assumed; a zeroed entry is never followed again. */
  ghost function FreeWalk(t: Table, top: nat, eoc: nat, c: nat): (r: Table)
    requires top <= |t|
    ensures |r| == |t|
    decreases NonZero(t), if Live(c, eoc) then 1 else 0
  {
    if !Live(c, eoc) || c >= top then t
    else
      assert NonZero(t[c := 0]) == NonZero(t) - {c};
      assert t[c] != 0 ==> c in NonZero(t);
      FreeWalk(t[c := 0], top, eoc, t[c])
  }

  /** The value reached after k links; a walk stays put once it has left the live clusters. */
  function Iter(t: Table, top: nat, eoc: nat, c: nat, k: nat): nat
    requires top <= |t|
    decreases k
  {
    if k == 0 || !Live(c, eoc) || c >= top then c
    else Iter(t, top, eoc, t[c], k - 1)
  }

  /** x is a cluster some walk from c stands on. */
  ghost predicate Reaches(t: Table, top: nat, eoc: nat, c: nat, x: nat)
    requires top <= |t|
  {
    Live(x, eoc) && exists k: nat :: Iter(t, top, eoc, c, k) == x
  }

  /** Every cluster reached from c has an entry among the volume's clusters. */
  ghost predicate WalkInRange(t: Table, top: nat, eoc: nat, c: nat)
    requires top <= |t|
  {
    forall x: nat :: Reaches(t, top, eoc, c, x) ==> x < top
  }

  lemma {:induction false} IterAdd(t: Table, top: nat, eoc: nat, c: nat, j: nat, k: nat)
    requires top <= |t|
    ensures Iter(t, top, eoc, c, j + k) == Iter(t, top, eoc, Iter(t, top, eoc, c, j), k)
    decreases j
  {
    if j > 0 && Live(c, eoc) && c < top {
      IterAdd(t, top, eoc, t[c], j - 1, k);
    }
  }

  /** A walk that avoids z for k steps is the same walk once z is zeroed. */
  lemma {:induction false} IterAvoid(t: Table, top: nat, eoc: nat, z: nat, c: nat, k: nat)
    requires top <= |t| && z < top
    requires forall j: nat :: j < k ==> Iter(t, top, eoc, c, j) != z
    ensures Iter(t[z := 0], top, eoc, c, k) == Iter(t, top, eoc, c, k)
    decreases k
  {
    if k > 0 && Live(c, eoc) && c < top {
      assert Iter(t, top, eoc, c, 0) == c;
      forall j: nat | j < k - 1
        ensures Iter(t, top, eoc, t[c], j) != z
      {
        assert Iter(t, top, eoc, c, j + 1) == Iter(t, top, eoc, t[c], j);
      }
      IterAvoid(t, top, eoc, z, t[c], k - 1);
    }
  }

  /** Zeroing the cluster z a walk starts from loses nothing but z itself. */
  lemma {:induction false} ReachAfterZero(t: Table, top: nat, eoc: nat, z: nat, x: nat, k: nat)
    requires top <= |t| && 2 <= z < top && Live(z, eoc)
    requires Live(x, eoc) && x != z && Iter(t, top, eoc, t[z], k) == x
    ensures Reaches(t[z := 0], top, eoc, t[z], x)
    decreases k
  {
    if j: nat :| j < k && Iter(t, top, eoc, t[z], j) == z {
      IterAdd(t, top, eoc, t[z], j, k - j);
      assert Iter(t, top, eoc, z, k - j) == Iter(t, top, eoc, t[z], k - j - 1);
      ReachAfterZero(t, top, eoc, z, x, k - j - 1);
    } else {
      IterAvoid(t, top, eoc, z, t[z], k);
    }
  }

  /** ... and gains nothing. */
  lemma {:induction false} ReachBeforeZero(t: Table, top: nat, eoc: nat, z: nat, c: nat, x: nat, k: nat)
    requires top <= |t| && 2 <= z < top && Live(z, eoc)
    requires Live(x, eoc) && Iter(t[z := 0], top, eoc, c, k) == x
    ensures Reaches(t, top, eoc, c, x)
    decreases k
  {
    if k == 0 || !Live(c, eoc) || c >= top {
      assert Iter(t, top, eoc, c, 0) == x;
    } else if c == z {
      // the entry is now 0, so the walk can only have ended on z itself
      assert false;
    } else {
      ReachBeforeZero(t, top, eoc, z, t[c], x, k - 1);
      var m: nat :| Iter(t, top, eoc, t[c], m) == x;
      assert Iter(t, top, eoc, c, m + 1) == x;
    }
  }

  lemma ReachStep(t: Table, top: nat, eoc: nat, c: nat, x: nat)
    requires top <= |t| && Live(c, eoc) && c < top
    ensures Reaches(t, top, eoc, c, x) <==> x == c || Reaches(t[c := 0], top, eoc, t[c], x)
  {
    assert Iter(t, top, eoc, c, 0) == c;
    if Reaches(t, top, eoc, c, x) && x != c {
      var k: nat :| Iter(t, top, eoc, c, k) == x;
      ReachAfterZero(t, top, eoc, c, x, k - 1);
    }
    if Reaches(t[c := 0], top, eoc, t[c], x) {
      var k: nat :| Iter(t[c := 0], top, eoc, t[c], k) == x;
      ReachBeforeZero(t, top, eoc, c, t[c], x, k);
      var m: nat :| Iter(t, top, eoc, t[c], m) == x;
      assert Iter(t, top, eoc, c, m + 1) == x;
    }
  }

  lemma WalkInRangeStep(t: Table, top: nat, eoc: nat, c: nat)
    requires top <= |t| && Live(c, eoc)
    requires WalkInRange(t, top, eoc, c)
    ensures c < top
    ensures WalkInRange(t[c := 0], top, eoc, t[c])
  {
    assert Iter(t, top, eoc, c, 0) == c;
    assert Reaches(t, top, eoc, c, c);
    var t1, next := t[c := 0], t[c];
    forall x: nat | Reaches(t1, top, eoc, next, x)
      ensures x < top
    {
      ReachStep(t, top, eoc, c, x);
    }
  }

  /** Freeing zeroes exactly the clusters reachable from the start, on any table whose
      links stay in range: cyclic, cross-linked or not. */
  lemma {:induction false} FreeZeroesExactlyReachable(t: Table, top: nat, eoc: nat, c: nat, x: nat)
    requires top <= |t| && x < |t|
    requires WalkInRange(t, top, eoc, c)
    ensures FreeWalk(t, top, eoc, c)[x] == if Reaches(t, top, eoc, c, x) then 0 else t[x]
    decreases NonZero(t), if Live(c, eoc) then 1 else 0
  {
    if Live(c, eoc) {
      WalkInRangeStep(t, top, eoc, c);
      ReachStep(t, top, eoc, c, x);
      assert NonZero(t[c := 0]) == NonZero(t) - {c};
      assert t[c] != 0 ==> c in NonZero(t);
      FreeZeroesExactlyReachable(t[c := 0], top, eoc, t[c], x);
    }
  }

  function ZeroAll(t: Table, cs: seq<nat>): (r: Table)
    requires forall i :: 0 <= i < |cs| ==> cs[i] < |t|
    ensures |r| == |t|
    ensures forall c :: 0 <= c < |t| ==> r[c] == if c in cs then 0 else t[c]
  {
    seq(|t|, c requires 0 <= c < |t| => if c in cs then 0 else t[c])
  }

  /** On a proper chain the free loop zeroes the chain and nothing else. */
  lemma {:induction false} FreeChainZeroesChain(t: Table, top: nat, eoc: nat, chain: seq<nat>)
    requires top <= |t| && top <= eoc
    requires IsChain(t, top, eoc, chain)
    ensures FreeWalk(t, top, eoc, chain[0]) == ZeroAll(t, chain)
    decreases |chain|
  {
    var c := chain[0];
    var t1 := t[c := 0];
    var rest := chain[1..];
    if |chain| == 1 {
      assert FreeWalk(t, top, eoc, c) == FreeWalk(t1, top, eoc, t[c]) == t1;
      assert t1 == ZeroAll(t, chain);
    } else {
      assert forall i :: 0 <= i < |rest| ==> rest[i] == chain[i + 1];
      assert IsChain(t1, top, eoc, rest);
      FreeChainZeroesChain(t1, top, eoc, rest);
      assert forall x :: x in chain <==> x == c || x in rest;
      assert ZeroAll(t1, rest) == ZeroAll(t, chain);
    }
  }

  /** Following a chain never leaves the volume. */
  lemma {:induction false} ChainInRange(t: Table, top: nat, eoc: nat, chain: seq<nat>, i: nat, k: nat)
    requires top <= |t| && top <= eoc
    requires IsChain(t, top, eoc, chain) && i < |chain|
    ensures var x := Iter(t, top, eoc, chain[i], k); Live(x, eoc) ==> x in chain && x < top
    decreases k
  {
    if k > 0 {
      if i + 1 < |chain| {
        ChainInRange(t, top, eoc, chain, i + 1, k - 1);
      } else {
        assert Iter(t, top, eoc, t[chain[i]], k - 1) == t[chain[i]];
      }
    }
  }

  lemma ChainWalkInRange(t: Table, top: nat, eoc: nat, chain: seq<nat>)
    requires top <= |t| && top <= eoc
    requires IsChain(t, top, eoc, chain)
    ensures WalkInRange(t, top, eoc, chain[0])
    ensures forall x: nat :: Reaches(t, top, eoc, chain[0], x) ==> x in chain
  {
    forall x: nat | Reaches(t, top, eoc, chain[0], x)
      ensures x in chain && x < top
    {
      var k: nat :| Iter(t, top, eoc, chain[0], k) == x;
      ChainInRange(t, top, eoc, chain, 0, k);
    }
  }

  // ---------------------------------------------------------------- allocation

  /** chain holds the |chain| lowest free clusters of t, in order. */
  ghost predicate LowestFree(t: Table, top: nat, chain: seq<nat>)
    requires top <= |t|
  {
    && Increasing(chain)
    && (forall i :: 0 <= i < |chain| ==> 2 <= chain[i] < top && t[chain[i]] == 0)
    && (|chain| > 0 ==> forall c :: 2 <= c <= chain[|chain| - 1] && t[c] == 0 ==> c in chain)
  }

  /** One round of the allocation loop: the next free cluster extends the lowest-free prefix,
      and when there is none the prefix already holds every free cluster. */
  lemma AllocRound(t: Table, top: nat, eoc: nat, chain: seq<nat>)
    requires top <= |t| && 2 <= top <= eoc
    requires LowestFree(t, top, chain)
    ensures var c := FindFree(Linked(t, chain, eoc), top);
            if c == 0 then FreeSet(t, top) == Elems(chain)
            else LowestFree(t, top, chain + [c]) && c !in chain
  {
    var l := Linked(t, chain, eoc);
    var c := FindFree(l, top);
    forall x: nat | 2 <= x < top
      ensures l[x] == 0 <==> t[x] == 0 && x !in chain
    {
      LinkedFree(t, top, eoc, chain, x);
    }
    if c != 0 {
      ExtendLowestFree(t, top, chain, c);
    }
  }

  /** Linking uses up exactly the clusters of the chain. */
  lemma LinkedFree(t: Table, top: nat, eoc: nat, chain: seq<nat>, x: nat)
    requires top <= |t| && 2 <= top <= eoc
    requires LowestFree(t, top, chain)
    requires 2 <= x < top
    ensures Linked(t, chain, eoc)[x] == 0 <==> t[x] == 0 && x !in chain
  {
    LinkedEntries(t, chain, eoc);
    if x in chain {
      var i :| 0 <= i < |chain| && chain[i] == x;
      if i + 1 < |chain| {
        assert Linked(t, chain, eoc)[chain[i]] == chain[i + 1];
      }
    }
  }

  lemma ExtendLowestFree(t: Table, top: nat, chain: seq<nat>, c: nat)
    requires top <= |t|
    requires LowestFree(t, top, chain)
    requires 2 <= c < top && t[c] == 0 && c !in chain
    requires forall x: nat :: 2 <= x < c && t[x] == 0 ==> x in chain
    ensures LowestFree(t, top, chain + [c])
  {
    var ch := chain + [c];
    forall i | 0 <= i < |chain| ensures chain[i] < c {
      assert chain[i] <= chain[|chain| - 1];
    }
  }

  /** Linking one more cluster is what the two table writes of a round do. */
  lemma LinkedExtend(t: Table, chain: seq<nat>, c: nat, eoc: nat)
    requires forall i :: 0 <= i < |chain| ==> chain[i] < |t|
    requires c < |t|
    ensures Linked(t, chain + [c], eoc) ==
            if |chain| == 0 then t[c := eoc]
            else Linked(t, chain, eoc)[chain[|chain| - 1] := c][c := eoc]
  {
    assert (chain + [c])[..|chain|] == chain;
  }

  lemma {:induction false} IncreasingCard(s: seq<nat>)
    requires Distinct(s)
    ensures |Elems(s)| == |s|
    decreases |s|
  {
    if |s| > 0 {
      var init := s[..|s| - 1];
      IncreasingCard(init);
      assert Elems(s) == Elems(init) + {s[|s| - 1]};
      assert s[|s| - 1] !in Elems(init);
    }
  }

  /** A chain of lowest free clusters, once linked, is a chain. */
  lemma LinkedIsChain(t: Table, top: nat, eoc: nat, chain: seq<nat>)
    requires top <= |t| && top <= eoc
    requires LowestFree(t, top, chain) && |chain| > 0
    ensures IsChain(Linked(t, chain, eoc), top, eoc, chain)
  {
    LinkedEntries(t, chain, eoc);
  }

  /** Free undoes alloc: freeing the chain just linked restores the table entry for entry.
      This is also the rollback of a failed allocation. */
  lemma FreeUndoesAlloc(t: Table, top: nat, eoc: nat, chain: seq<nat>)
    requires top <= |t| && top <= eoc
    requires LowestFree(t, top, chain) && |chain| > 0
    ensures FreeWalk(Linked(t, chain, eoc), top, eoc, chain[0]) == t
  {
    LinkedIsChain(t, top, eoc, chain);
    LinkedEntries(t, chain, eoc);
    FreeChainZeroesChain(Linked(t, chain, eoc), top, eoc, chain);
  }

  // ---------------------------------------------------------------- the forest

  /** files are disjoint chains of t, and every other cluster is free or marked bad. */
  ghost predicate Forest(t: Table, top: nat, eoc: nat, files: seq<seq<nat>>)
    requires top <= |t|
  {
    && (forall i :: 0 <= i < |files| ==> IsChain(t, top, eoc, files[i]))
    && (forall i, j :: 0 <= i < j < |files| ==> Apart(files[i], files[j]))
    && (forall c :: 2 <= c < top && t[c] != 0 && t[c] != eoc - 1 ==> Owned(files, c))
  }

  ghost predicate Apart(a: seq<nat>, b: seq<nat>) {
    forall c :: c in a ==> c !in b
  }

  ghost predicate Owned(files: seq<seq<nat>>, c: nat) {
    exists i :: 0 <= i < |files| && c in files[i]
  }

  ghost function BadSet(t: Table, top: nat, eoc: nat): set<nat>
    requires top <= |t|
  {
    set c | 2 <= c < top && t[c] == eoc - 1
  }

  function TotalLength(files: seq<seq<nat>>): nat {
    if |files| == 0 then 0 else TotalLength(files[..|files| - 1]) + |files[|files| - 1]|
  }

  ghost function OwnedSet(files: seq<seq<nat>>): set<nat> {
    if |files| == 0 then {} else OwnedSet(files[..|files| - 1]) + Elems(files[|files| - 1])
  }

  lemma {:induction false} OwnedSetIs(files: seq<seq<nat>>, c: nat)
    ensures c in OwnedSet(files) <==> Owned(files, c)
    decreases |files|
  {
    if |files| > 0 {
      var init := files[..|files| - 1];
      OwnedSetIs(init, c);
      if Owned(files, c) {
        var i :| 0 <= i < |files| && c in files[i];
        if i < |init| { assert c in init[i]; }
      }
      if Owned(init, c) {
        var i :| 0 <= i < |init| && c in init[i];
        assert c in files[i];
      }
    }
  }

  lemma {:induction false} OwnedCard(files: seq<seq<nat>>)
    requires forall i :: 0 <= i < |files| ==> Distinct(files[i])
    requires forall i, j :: 0 <= i < j < |files| ==> Apart(files[i], files[j])
    ensures |OwnedSet(files)| == TotalLength(files)
    decreases |files|
  {
    if |files| > 0 {
      var init := files[..|files| - 1];
      OwnedCard(init);
      IncreasingCard(files[|files| - 1]);
      forall c | c in OwnedSet(init) ensures c !in Elems(files[|files| - 1]) {
        OwnedSetIs(init, c);
        var i :| 0 <= i < |init| && c in init[i];
        assert c in files[i];
      }
    }
  }

  function Range(lo: nat, hi: nat): (s: set<nat>)
    requires lo <= hi
    ensures |s| == hi - lo
    ensures forall c :: c in s <==> lo <= c < hi
    decreases hi
  {
    if lo == hi then {} else Range(lo, hi - 1) + {hi - 1}
  }

  lemma OwnedIsUsed(t: Table, top: nat, eoc: nat, files: seq<seq<nat>>, c: nat)
    requires 2 <= top <= |t| && top < eoc
    requires Forest(t, top, eoc, files)
    requires c in OwnedSet(files)
    ensures 2 <= c < top && t[c] != 0 && t[c] != eoc - 1
  {
    OwnedSetIs(files, c);
    var i :| 0 <= i < |files| && c in files[i];
    var j :| 0 <= j < |files[i]| && files[i][j] == c;
    assert IsChain(t, top, eoc, files[i]);
  }

  /** No cluster is lost or counted twice: free + owned + bad is the whole volume. */
  lemma Conservation(t: Table, top: nat, eoc: nat, files: seq<seq<nat>>)
    requires 2 <= top <= |t| && top < eoc
    requires Forest(t, top, eoc, files)
    ensures |FreeSet(t, top)| + TotalLength(files) + |BadSet(t, top, eoc)| == top - 2
  {
    var f, o, b := FreeSet(t, top), OwnedSet(files), BadSet(t, top, eoc);
    assert |o| == TotalLength(files) by { ForestDistinct(t, top, eoc, files); OwnedCard(files); }
    hide FreeSet, OwnedSet, BadSet, Forest;
    var all := Range(2, top);
    forall c | c in f ensures c in all && c !in o && c !in b { OnePart(t, top, eoc, files, c); }
    forall c | c in o ensures c in all && c !in b { OnePart(t, top, eoc, files, c); }
    forall c | c in b ensures c in all { OnePart(t, top, eoc, files, c); }
    forall c | c in all ensures c in f || c in o || c in b { OnePart(t, top, eoc, files, c); }
    ThreeParts(f, o, b, all);
  }

  /** Every cluster of the volume is in one of the three sets and in no other. */
  lemma OnePart(t: Table, top: nat, eoc: nat, files: seq<seq<nat>>, c: nat)
    requires 2 <= top <= |t| && top < eoc && Forest(t, top, eoc, files)
    ensures var f, o, b := c in FreeSet(t, top), c in OwnedSet(files), c in BadSet(t, top, eoc);
            ((f || o || b) <==> 2 <= c < top) && !(f && o) && !(f && b) && !(o && b)
  {
    if c in OwnedSet(files) {
      OwnedIsUsed(t, top, eoc, files, c);
    } else if 2 <= c < top {
      OwnedSetIs(files, c);
      CoveredBy(t, top, eoc, files, c);
    }
  }

  lemma SubsetCard<T>(a: set<T>, b: set<T>)
    requires a <= b
    ensures |a| <= |b|
  {
    assert b == a + (b - a);
  }

  lemma ThreeParts(f: set<nat>, o: set<nat>, b: set<nat>, all: set<nat>)
    requires forall c :: c in f ==> c in all && c !in o && c !in b
    requires forall c :: c in o ==> c in all && c !in b
    requires forall c :: c in b ==> c in all
    requires forall c :: c in all ==> c in f || c in o || c in b
    ensures |f| + |o| + |b| == |all|
  {
    assert f !! o && (f + o) !! b && f + o + b == all;
    assert |f + o| == |f| + |o|;
  }

  lemma CoveredBy(t: Table, top: nat, eoc: nat, files: seq<seq<nat>>, c: nat)
    requires top <= |t|
    requires Forest(t, top, eoc, files)
    requires 2 <= c < top
    ensures t[c] == 0 || t[c] == eoc - 1 || Owned(files, c)
  {
  }

  lemma ForestDistinct(t: Table, top: nat, eoc: nat, files: seq<seq<nat>>)
    requires top <= |t|
    requires Forest(t, top, eoc, files)
    ensures forall i :: 0 <= i < |files| ==> Distinct(files[i])
    ensures forall i, j :: 0 <= i < j < |files| ==> Apart(files[i], files[j])
  {
    forall i | 0 <= i < |files| ensures Distinct(files[i]) {
      assert IsChain(t, top, eoc, files[i]);
    }
  }

  /** A table change away from a chain keeps it a chain. */
  lemma ChainFrame(t: Table, t': Table, top: nat, eoc: nat, chain: seq<nat>)
    requires top <= |t| && |t'| == |t|
    requires IsChain(t, top, eoc, chain)
    requires forall i :: 0 <= i < |chain| ==> t'[chain[i]] == t[chain[i]]
    ensures IsChain(t', top, eoc, chain)
  {
  }

  /** A forest survives a table change that touches none of its clusters and that leaves
      every changed cluster free or bad, or owned by what is added to the forest. */
  lemma ForestFrame(t: Table, t': Table, top: nat, eoc: nat, files: seq<seq<nat>>)
    requires top <= |t| && |t'| == |t|
    requires forall i :: 0 <= i < |files| ==> IsChain(t, top, eoc, files[i])
    requires forall c :: c in OwnedSet(files) && c < |t| ==> t'[c] == t[c]
    ensures forall i :: 0 <= i < |files| ==> IsChain(t', top, eoc, files[i])
  {
    forall i | 0 <= i < |files| ensures IsChain(t', top, eoc, files[i]) {
      forall j | 0 <= j < |files[i]| ensures t'[files[i][j]] == t[files[i][j]] {
        assert files[i][j] in files[i];
        OwnedSetIs(files, files[i][j]);
      }
      ChainFrame(t, t', top, eoc, files[i]);
    }
  }

  /** Allocation adds one chain to the forest. */
  lemma AllocKeepsForest(t: Table, top: nat, eoc: nat, files: seq<seq<nat>>, chain: seq<nat>)
    requires 2 <= top <= |t| && top < eoc
    requires Forest(t, top, eoc, files)
    requires LowestFree(t, top, chain) && |chain| > 0
    ensures Forest(Linked(t, chain, eoc), top, eoc, files + [chain])
  {
    LinkedIsChain(t, top, eoc, chain);
    LinkedEntries(t, chain, eoc);
    forall c | c in OwnedSet(files) ensures c !in chain && c < |t| && t[c] != 0 {
      OwnedIsUsed(t, top, eoc, files, c);
    }
    AddChain(t, Linked(t, chain, eoc), top, eoc, files, chain);
  }

  lemma AddChain(t: Table, t': Table, top: nat, eoc: nat, files: seq<seq<nat>>, chain: seq<nat>)
    requires top <= |t| && |t'| == |t|
    requires Forest(t, top, eoc, files)
    requires IsChain(t', top, eoc, chain)
    requires forall c :: 0 <= c < |t| && c !in chain ==> t'[c] == t[c]
    requires forall c :: c in OwnedSet(files) ==> c !in chain
    ensures Forest(t', top, eoc, files + [chain])
  {
    hide IsChain, OwnedSet;
    var files' := files + [chain];
    ForestFrame(t, t', top, eoc, files);
    forall i | 0 <= i < |files| ensures Apart(files[i], chain) {
      forall c | c in files[i] ensures c !in chain { OwnedSetIs(files, c); }
    }
    forall c | 2 <= c < top && t'[c] != 0 && t'[c] != eoc - 1 ensures Owned(files', c) {
      if c in chain {
        assert c in files'[|files|];
      } else {
        CoveredBy(t, top, eoc, files, c);
        var i :| 0 <= i < |files| && c in files[i];
        assert c in files'[i];
      }
    }
  }

  /** Freeing a file removes its chain, leaves every other chain alone and returns exactly
      its clusters to the free set. */
  lemma FreeKeepsForest(t: Table, top: nat, eoc: nat, files: seq<seq<nat>>, k: nat)
    requires top <= |t| && top < eoc
    requires Forest(t, top, eoc, files) && k < |files|
    ensures Forest(FreeWalk(t, top, eoc, files[k][0]), top, eoc, Without(files, k))
    ensures FreeSet(FreeWalk(t, top, eoc, files[k][0]), top) == FreeSet(t, top) + Elems(files[k])
  {
    assert IsChain(t, top, eoc, files[k]);
    FreeChainZeroesChain(t, top, eoc, files[k]);
    RemoveChain(t, ZeroAll(t, files[k]), top, eoc, files, k);
    ZeroFrees(t, top, files[k]);
  }

  lemma ZeroFrees(t: Table, top: nat, cs: seq<nat>)
    requires top <= |t|
    requires forall i :: 0 <= i < |cs| ==> 2 <= cs[i] < top
    ensures FreeSet(ZeroAll(t, cs), top) == FreeSet(t, top) + Elems(cs)
  {
  }

  function Without<T>(s: seq<T>, k: nat): (r: seq<T>)
    requires k < |s|
    ensures |r| == |s| - 1
    ensures forall i :: 0 <= i < |r| ==> r[i] == s[if i < k then i else i + 1]
  {
    s[..k] + s[k + 1..]
  }

  lemma RemoveChain(t: Table, t': Table, top: nat, eoc: nat, files: seq<seq<nat>>, k: nat)
    requires top <= |t| && |t'| == |t|
    requires Forest(t, top, eoc, files) && k < |files|
    requires forall c :: 0 <= c < |t| ==> t'[c] == if c in files[k] then 0 else t[c]
    ensures Forest(t', top, eoc, Without(files, k))
  {
    hide IsChain, OwnedSet, Apart;
    var files' := Without(files, k);
    assert forall i :: 0 <= i < |files'| ==> IsChain(t, top, eoc, files'[i]);
    forall c | c in OwnedSet(files') ensures c !in files[k] {
      WithoutApart(files, k, c);
    }
    ForestFrame(t, t', top, eoc, files');
    assert forall i, j :: 0 <= i < j < |files'| ==> Apart(files'[i], files'[j]);
    forall c | 2 <= c < top && t'[c] != 0 && t'[c] != eoc - 1 ensures Owned(files', c) {
      CoveredBy(t, top, eoc, files, c);
      WithoutOwned(files, k, c);
    }
  }

  lemma WithoutApart(files: seq<seq<nat>>, k: nat, c: nat)
    requires k < |files| && c in OwnedSet(Without(files, k))
    requires forall i, j :: 0 <= i < j < |files| ==> Apart(files[i], files[j])
    ensures c !in files[k]
  {
    var files' := Without(files, k);
    OwnedSetIs(files', c);
    var i :| 0 <= i < |files'| && c in files'[i];
    if i < k { assert Apart(files[i], files[k]); } else { assert Apart(files[k], files[i + 1]); }
  }

  lemma WithoutOwned(files: seq<seq<nat>>, k: nat, c: nat)
    requires k < |files| && Owned(files, c) && c !in files[k]
    ensures Owned(Without(files, k), c)
  {
    var i :| 0 <= i < |files| && c in files[i];
    assert Without(files, k)[if i < k then i else i - 1] == files[i];
  }

  // ---------------------------------------------------------------- whole runs

  datatype Ownership = Ownership(t: Table, files: seq<seq<nat>>)

  /** One completed call: an allocation that took chain, a freed file, or an allocation that
      failed and rolled back. */
  ghost predicate Step(top: nat, eoc: nat, v: Ownership, w: Ownership) {
    && top <= |v.t|
    && (|| (exists chain :: |chain| > 0 && LowestFree(v.t, top, chain)
                            && w == Ownership(Linked(v.t, chain, eoc), v.files + [chain]))
        || (exists k :: 0 <= k < |v.files| && |v.files[k]| > 0
                        && w == Ownership(FreeWalk(v.t, top, eoc, v.files[k][0]), Without(v.files, k)))
        || w == v)
  }

  ghost predicate Run(top: nat, eoc: nat, vs: seq<Ownership>) {
    |vs| > 0 && forall i :: 0 <= i < |vs| - 1 ==> Step(top, eoc, vs[i], vs[i + 1])
  }

  lemma AllocKeepsBad(t: Table, top: nat, eoc: nat, chain: seq<nat>)
    requires 2 <= top <= |t| && top < eoc
    requires LowestFree(t, top, chain) && |chain| > 0
    ensures BadSet(Linked(t, chain, eoc), top, eoc) == BadSet(t, top, eoc)
  {
    var t' := Linked(t, chain, eoc);
    LinkedEntries(t, chain, eoc);
    forall c | 2 <= c < top && c in chain ensures t'[c] != eoc - 1 && t[c] != eoc - 1 {
      var i :| 0 <= i < |chain| && chain[i] == c;
      assert t'[chain[i]] == if i + 1 < |chain| then chain[i + 1] else eoc;
    }
  }

  lemma FreeKeepsBad(t: Table, top: nat, eoc: nat, files: seq<seq<nat>>, k: nat)
    requires 2 <= top <= |t| && top < eoc
    requires Forest(t, top, eoc, files) && k < |files|
    ensures BadSet(FreeWalk(t, top, eoc, files[k][0]), top, eoc) == BadSet(t, top, eoc)
  {
    assert IsChain(t, top, eoc, files[k]);
    FreeChainZeroesChain(t, top, eoc, files[k]);
    forall i | 0 <= i < |files[k]| ensures files[k][i] < |t| && t[files[k][i]] != eoc - 1 {
      assert files[k][i] in files[k];
      OwnedSetIs(files, files[k][i]);
      OwnedIsUsed(t, top, eoc, files, files[k][i]);
    }
    ZeroKeepsBad(t, top, eoc, files[k]);
  }

  lemma ZeroKeepsBad(t: Table, top: nat, eoc: nat, cs: seq<nat>)
    requires top <= |t| && 2 <= eoc
    requires forall i :: 0 <= i < |cs| ==> cs[i] < |t| && t[cs[i]] != eoc - 1
    ensures BadSet(ZeroAll(t, cs), top, eoc) == BadSet(t, top, eoc)
  {
  }

  lemma StepKeepsForest(top: nat, eoc: nat, v: Ownership, w: Ownership)
    requires 2 <= top <= |v.t| && top < eoc
    requires Forest(v.t, top, eoc, v.files) && Step(top, eoc, v, w)
    ensures |w.t| == |v.t| && Forest(w.t, top, eoc, w.files)
    ensures BadSet(w.t, top, eoc) == BadSet(v.t, top, eoc)
  {
    if chain :| |chain| > 0 && LowestFree(v.t, top, chain)
                && w == Ownership(Linked(v.t, chain, eoc), v.files + [chain]) {
      AllocKeepsForest(v.t, top, eoc, v.files, chain);
      AllocKeepsBad(v.t, top, eoc, chain);
    } else if k :| 0 <= k < |v.files| && |v.files[k]| > 0
                   && w == Ownership(FreeWalk(v.t, top, eoc, v.files[k][0]), Without(v.files, k)) {
      FreeKeepsForest(v.t, top, eoc, v.files, k);
      FreeKeepsBad(v.t, top, eoc, v.files, k);
    }
  }

  /** Over any run of allocations and frees the table stays a forest, and free clusters plus
      chain lengths never change. */
  lemma {:induction false} RunKeepsForest(top: nat, eoc: nat, vs: seq<Ownership>)
    requires Run(top, eoc, vs)
    requires 2 <= top <= |vs[0].t| && top < eoc && Forest(vs[0].t, top, eoc, vs[0].files)
    ensures var w := vs[|vs| - 1];
            && |w.t| == |vs[0].t|
            && Forest(w.t, top, eoc, w.files)
            && |FreeSet(w.t, top)| + TotalLength(w.files) == |FreeSet(vs[0].t, top)| + TotalLength(vs[0].files)
    decreases |vs|
  {
    if |vs| > 1 {
      StepKeepsForest(top, eoc, vs[0], vs[1]);
      Conservation(vs[0].t, top, eoc, vs[0].files);
      Conservation(vs[1].t, top, eoc, vs[1].files);
      var rest := vs[1..];
      assert forall i :: 0 <= i < |rest| - 1 ==> Step(top, eoc, rest[i], rest[i + 1]) by {
        forall i | 0 <= i < |rest| - 1 ensures Step(top, eoc, rest[i], rest[i + 1]) {
          assert Step(top, eoc, vs[i + 1], vs[i + 2]);
        }
      }
      RunKeepsForest(top, eoc, rest);
    }
  }
}
