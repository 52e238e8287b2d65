/** Whole runs of writing files, new and existing ones, to an exFAT root directory. A step is what a
    call of exfat_write_root promises. */
module ExfatRuns {
  import opened Bytes
  import opened FatDisk
  import opened FatFiles
  import opened FatVolume
  import opened ExfatBitmap
  import opened ExfatDirectory
  import opened ExfatFrame
  import opened ExfatRoot
  import C = Chains
  import E = ExfatChains

  /** What does not change: the geometry, the place of the bitmap, the allocator's limit and the
      root directory's clusters. */
  datatype Layout = Layout(g: Geometry, m: Bitmap, lim: nat, root: seq<nat>)

  datatype File = File(name: seq<Byte>, chain: seq<nat>, data: seq<Byte>) {
    function First(): nat { if |chain| == 0 then 0 else chain[0] }
  }

  /** FAT and bitmap, the sectors outside the FAT, the live files, and the directory's end marker. */
  datatype State = State(space: E.Space, rest: Disk, files: set<File>, end: Place)

  predicate Sized(v: Layout, s: State) {
    && v.g.Valid() && v.g.kind.Exfat? && v.g.Fits(s.rest) && v.lim <= v.g.Top() <= |s.space.fat|
    && (forall i :: 0 <= i < |v.root| ==> 2 <= v.root[i] < v.g.Top())
    && s.end.At? && s.end.clu >= 2 && s.end.slot < Cap(v.g)
  }

  /** The root directory is a used chain, the bitmap lies in no root cluster and in no unused one,
      and the sets of the directory lead up to the end marker. */
  ghost predicate WellFormed(v: Layout, s: State)
    requires Sized(v, s)
  {
    && C.IsChain(s.space.fat, v.g.Top(), E.EOC, v.root) && BitmapAway(s.space.used, v.g, v.m, v.root)
    && s.end.clu in v.root && Searchable(s.rest, v.g, v.root, s.end)
  }

  predicate Nameable(f: File) {
    0 < |f.name| <= 15 && IsName(f.name) && Ascii(f.name) && |f.data| < U32
  }

  /** f's chain is linked, used, and away from the root directory and the bitmap. */
  ghost predicate Housed(v: Layout, space: E.Space, f: File)
    requires v.g.Top() <= |space.fat|
  {
    && (|f.chain| == 0 <==> |f.data| == 0)
    && (|f.chain| > 0 ==>
          && C.IsChain(space.fat, v.g.Top(), E.EOC, f.chain) && C.Elems(f.chain) <= space.used
          && C.Elems(f.chain) !! C.Elems(v.root) && ClearOf(v.g, v.m, C.Elems(f.chain)))
  }

  /** f's name resolves to its first cluster and size, and reading from there gives its data. */
  ghost predicate Served(v: Layout, s: State, f: File)
    requires Sized(v, s)
  {
    && Nameable(f) && Housed(v, s.space, f)
    && Resolves(LookIn(s.rest, v.g, v.root, f.name), f)
    && ReadWalk(s.rest, v.g, s.space.fat, f.First(), |f.data|) == f.data
  }

  predicate Resolves(l: Lookup, f: File) {
    l.Present? && l.hit.cluster == f.First() && l.hit.size == |f.data| && !l.hit.noFatChain
  }

  predicate Distinguished(f: File, g: File) {
    f.name != g.name && forall c :: c in f.chain ==> c !in g.chain
  }

  ghost predicate AllServed(v: Layout, s: State)
    requires Sized(v, s)
  {
    && WellFormed(v, s)
    && (forall f :: f in s.files ==> Served(v, s, f))
    && (forall f, g :: f in s.files && g in s.files && f != g ==> Distinguished(f, g))
  }

  function Others(files: set<File>, name: seq<Byte>): set<File> {
    set f | f in files && f.name != name
  }

  /** One call for f.name and f.data. The name is new, or that of a live file, which is given up
      whether or not the call succeeds. */
  ghost predicate Write(v: Layout, s: State, w: State, f: File, ok: bool) {
    && Sized(v, s) && Nameable(f) && |w.rest| == |s.rest|
    && var l := LookIn(s.rest, v.g, v.root, f.name);
       var b := Base(s.space, v.g, l);
       var place := Target(l, s.rest, v.g, v.root);
       && (l.Missing? || exists x :: x in s.files && x.name == f.name)
       && E.LowestClear(b.used, v.lim, f.chain) && InTable(b.fat, f.chain)
       && if ok then
            && (|f.chain| == 0 <==> |f.data| == 0)
            && w.space == E.Allocated(b, f.chain)
            && place.At? && place.clu in v.root && place.slot + (if l.Present? then 3 else 4) <= Cap(v.g)
            && (l.Missing? ==> place == s.end)
            && Undisturbed(s.rest, w.rest, v.g, v.m, C.Elems(f.chain) + {place.clu})
            && Written(l.Present?, DirOf(s.rest, v.g, place.clu), DirOf(w.rest, v.g, place.clu), Cap(v.g), place.slot,
                       EntrySet(f.name, f.First(), |f.data|))
            && ReadWalk(w.rest, v.g, w.space.fat, f.First(), |f.data|) == f.data
            && w.files == Others(s.files, f.name) + {f}
            && w.end == if l.Missing? then At(s.end.clu, s.end.slot + 3) else s.end
          else
            && w.space == E.Space(C.ZeroAll(b.fat, f.chain), b.used)
            && Undisturbed(s.rest, w.rest, v.g, v.m, C.Elems(f.chain))
            && w.files == Others(s.files, f.name) && w.end == s.end
  }

  ghost predicate Step(v: Layout, s: State, w: State) {
    exists f, ok :: Write(v, s, w, f, ok)
  }

  // ---------------------------------------------------------------- giving a file up

  /** The state between giving an existing file up and the allocation. */
  ghost function Middle(v: Layout, s: State, name: seq<Byte>): State
    requires Sized(v, s)
  {
    s.(space := Base(s.space, v.g, LookIn(s.rest, v.g, v.root, name)), files := Others(s.files, name))
  }

  /** The chain of a live file can be given up. */
  lemma HousedReleasable(v: Layout, s: State, x: File, l: Lookup)
    requires Sized(v, s) && Housed(v, s.space, x) && (l.Present? ==> l.hit.cluster == x.First())
    ensures Releasable(s.space, v.g, v.m, v.root, l)
    ensures l.Present? ==> Base(s.space, v.g, l) == E.Space(C.ZeroAll(s.space.fat, x.chain), s.space.used - C.Elems(x.chain))
  {
    hide Geometry.Valid, ClearOf, C.IsChain;
    TopBelow(v.g);
    if l.Present? {
      if |x.chain| > 0 {
        C.ChainWalkInRange(s.space.fat, v.g.Top(), E.EOC, x.chain);
        E.FreedChain(s.space, v.g.Top(), x.chain);
        forall c: nat | C.Reaches(s.space.fat, v.g.Top(), E.EOC, x.chain[0], c) ensures c !in v.root && ClearOf(v.g, v.m, {c}) {
          assert c in C.Elems(x.chain) && (c in v.root ==> c in C.Elems(v.root));
          PartClear(v.g, v.m, C.Elems(x.chain), c);
        }
      } else {
        NothingFollows(s.space, v.g.Top());
      }
    }
  }

  lemma NothingFollows(s: E.Space, top: nat)
    requires top <= |s.fat|
    ensures forall c: nat :: !C.Reaches(s.fat, top, E.EOC, 0, c)
    ensures E.Freed(s, top, 0) == s && C.ZeroAll(s.fat, []) == s.fat && s.used - C.Elems([]) == s.used
  {
  }

  lemma TopBelow(g: Geometry)
    requires g.Valid()
    ensures g.Top() < g.Eoc()
    ensures g.kind.Exfat? ==> g.Eoc() == E.EOC
  {
  }

  /** Giving up one file leaves every other one alone. */
  lemma OtherHoused(v: Layout, s: State, x: File, y: File, b: E.Space)
    requires Sized(v, s) && Housed(v, s.space, x) && Housed(v, s.space, y) && Distinguished(y, x)
    requires InTable(s.space.fat, x.chain)
    requires b == E.Space(C.ZeroAll(s.space.fat, x.chain), s.space.used - C.Elems(x.chain))
    ensures Housed(v, b, y)
    ensures ReadWalk(s.rest, v.g, b.fat, y.First(), |y.data|) == ReadWalk(s.rest, v.g, s.space.fat, y.First(), |y.data|)
  {
    hide Geometry.Valid, ClearOf, C.IsChain, ReadWalk, Undisturbed;
    TopBelow(v.g);
    if |y.chain| > 0 {
      RootShape(s.space.fat, v.g.Top(), y.chain);
      C.ChainFrame(s.space.fat, b.fat, v.g.Top(), E.EOC, y.chain);
      NothingDone(s.rest, v.g, v.m);
      ChainKept(s.rest, s.rest, v.g, v.m, {}, s.space.fat, b.fat, y.chain, |y.data|);
    } else {
      NothingRead(s.rest, v.g, s.space.fat, y.First());
      NothingRead(s.rest, v.g, b.fat, y.First());
    }
  }

  lemma NothingDone(r: Disk, g: Geometry, m: Bitmap)
    ensures Undisturbed(r, r, g, m, {})
  {
  }

  lemma HousedInTable(v: Layout, s: State, x: File)
    requires Sized(v, s) && Housed(v, s.space, x)
    ensures InTable(s.space.fat, x.chain)
  {
    if |x.chain| > 0 { RootShape(s.space.fat, v.g.Top(), x.chain); }
  }

  lemma MiddleServes(v: Layout, s: State, name: seq<Byte>)
    requires Sized(v, s) && AllServed(v, s)
    requires LookIn(s.rest, v.g, v.root, name).Missing? || exists x :: x in s.files && x.name == name
    ensures Releasable(s.space, v.g, v.m, v.root, LookIn(s.rest, v.g, v.root, name))
    ensures Sized(v, Middle(v, s, name)) && AllServed(v, Middle(v, s, name))
  {
    hide Geometry.Valid, ClearOf, C.IsChain, ReadWalk, Undisturbed, Searchable, BitmapAway, Releasable, Housed, LookIn;
    hide Distinguished;
    var l, mid := LookIn(s.rest, v.g, v.root, name), Middle(v, s, name);
    if l.Missing? {
      MissingReleasable(s.space, v.g, v.m, v.root);
      assert mid.files == s.files;
    } else {
      var x :| x in s.files && x.name == name;
      assert Served(v, s, x);
      HousedInTable(v, s, x);
      HousedReleasable(v, s, x, l);
      forall y | y in mid.files ensures Served(v, mid, y) {
        OtherHoused(v, s, x, y, mid.space);
      }
    }
    BaseKept(s.space, v.g, v.m, v.root, l);
  }

  lemma MissingReleasable(s: E.Space, g: Geometry, m: Bitmap, root: seq<nat>)
    requires g.Top() <= |s.fat|
    ensures Releasable(s, g, m, root, Missing) && Base(s, g, Missing) == s
  {
  }

  // ---------------------------------------------------------------- a successful call

  /** What a call that succeeds makes of the directory. */
  lemma WriteSettles(v: Layout, s: State, w: State, f: File)
    requires Write(v, s, w, f, true) && AllServed(v, s)
    ensures Sized(v, w) && WellFormed(v, w) && f.First() < U32
    ensures Resolves(LookIn(w.rest, v.g, v.root, f.name), f)
    ensures forall e :: e != f.name ==> LookIn(w.rest, v.g, v.root, e) == LookIn(s.rest, v.g, v.root, e)
  {
    hide Geometry.Valid, ClearOf, C.IsChain, ReadWalk, Undisturbed, Searchable, Releasable, LookIn, Served, Distinguished, Base;
    hide Written, EntrySet, DirOf, PlaceFor, BitmapAway, E.LowestClear, InTable;
    var l := LookIn(s.rest, v.g, v.root, f.name);
    var b, place := Base(s.space, v.g, l), Target(l, s.rest, v.g, v.root);
    MiddleServes(v, s, f.name);
    TopBelow(v.g);
    RootStays(b, v.g, v.m, v.lim, v.root, f.chain);
    EntryResolves(s.rest, w.rest, v.g, v.m, C.Elems(f.chain), v.root, l, place, s.end, f.name, f.First(), |f.data|);
    assert Settled(s.rest, w.rest, v.g, v.root, l, place, s.end, f.name, f.First(), |f.data|);
  }

  lemma RootStays(b: E.Space, g: Geometry, m: Bitmap, lim: nat, root: seq<nat>, chain: seq<nat>)
    requires g.Valid() && lim <= g.Top() <= |b.fat| && E.LowestClear(b.used, lim, chain) && InTable(b.fat, chain)
    requires C.IsChain(b.fat, g.Top(), E.EOC, root) && BitmapAway(b.used, g, m, root)
    ensures C.IsChain(E.Allocated(b, chain).fat, g.Top(), E.EOC, root)
    ensures C.IsChain(C.ZeroAll(b.fat, chain), g.Top(), E.EOC, root)
    ensures BitmapAway(E.Allocated(b, chain).used, g, m, root)
    ensures C.Distinct(root) && (|chain| > 0 ==> chain[0] < g.Top())
    ensures forall i :: 0 <= i < |root| ==> 2 <= root[i] < g.Top() && root[i] !in C.Elems(chain) && ClearOf(g, m, {root[i]})
  {
    hide Geometry.Valid, ClearOf, C.IsChain;
    RootShape(b.fat, g.Top(), root);
    RootKept(b, lim, g.Top(), root, chain);
    ZeroedKept(b, lim, g.Top(), chain, root);
    BitmapAwayKept(b, lim, g, m, root, chain);
  }

  /** The other files stay as they were after the given-up file's clusters went. */
  lemma WriteKeeps(v: Layout, s: State, w: State, f: File, y: File)
    requires Write(v, s, w, f, true) && AllServed(v, s) && Sized(v, w) && y in Others(s.files, f.name)
    requires LookIn(w.rest, v.g, v.root, y.name) == LookIn(s.rest, v.g, v.root, y.name)
    ensures Served(v, w, y) && Distinguished(y, f)
  {
    hide Geometry.Valid, ClearOf, C.IsChain, ReadWalk, Undisturbed, Searchable, Releasable, LookIn, Base;
    hide Written, EntrySet, DirOf, PlaceFor, BitmapAway, Target;
    var l := LookIn(s.rest, v.g, v.root, f.name);
    var b, place := Base(s.space, v.g, l), Target(l, s.rest, v.g, v.root);
    MiddleServes(v, s, f.name);
    assert Served(v, Middle(v, s, f.name), y);
    TopBelow(v.g);
    if |y.chain| > 0 {
      assert place.clu in C.Elems(v.root);
      RootShape(b.fat, v.g.Top(), y.chain);
      RootKept(b, v.lim, v.g.Top(), y.chain, f.chain);
      OtherFileKept(b, s.rest, w.rest, v.g, v.m, v.lim, f.chain, {place.clu}, y.chain, |y.data|);
      forall c | c in y.chain ensures c !in f.chain { assert c in C.Elems(y.chain); }
    } else {
      NothingRead(w.rest, v.g, w.space.fat, y.First());
      NothingRead(s.rest, v.g, b.fat, y.First());
    }
  }

  /** The file written is served. */
  lemma WriteServes(v: Layout, s: State, w: State, f: File)
    requires Write(v, s, w, f, true) && AllServed(v, s) && Sized(v, w)
    requires Resolves(LookIn(w.rest, v.g, v.root, f.name), f)
    ensures Served(v, w, f)
  {
    hide Geometry.Valid, ClearOf, C.IsChain, ReadWalk, Undisturbed, Searchable, Releasable, LookIn, Base;
    hide Written, EntrySet, DirOf, PlaceFor, BitmapAway, Target;
    MiddleServes(v, s, f.name);
    if |f.chain| > 0 {
      NewHoused(v, Middle(v, s, f.name), f);
    }
  }

  lemma NewHoused(v: Layout, s: State, f: File)
    requires Sized(v, s) && WellFormed(v, s) && |f.chain| > 0
    requires E.LowestClear(s.space.used, v.lim, f.chain) && InTable(s.space.fat, f.chain)
    ensures C.IsChain(E.Allocated(s.space, f.chain).fat, v.g.Top(), E.EOC, f.chain)
    ensures C.Elems(f.chain) <= E.Allocated(s.space, f.chain).used && C.Elems(f.chain) !! C.Elems(v.root)
    ensures ClearOf(v.g, v.m, C.Elems(f.chain))
  {
    hide Searchable, ClearOf, C.IsChain, Geometry.Valid;
    TopBelow(v.g);
    Widen(s.space.used, v.lim, v.g.Top(), f.chain);
    E.AllocatedIsChain(s.space, v.g.Top(), f.chain);
    ChainIsClear(s.space.used, v.lim, v.g, v.m, f.chain);
    RootKept(s.space, v.lim, v.g.Top(), v.root, f.chain);
  }

  // ---------------------------------------------------------------- a call that fails

  lemma FailWellFormed(v: Layout, s: State, w: State, f: File)
    requires Write(v, s, w, f, false) && AllServed(v, s)
    ensures Sized(v, w) && WellFormed(v, w)
    ensures forall e :: LookIn(w.rest, v.g, v.root, e) == LookIn(s.rest, v.g, v.root, e)
  {
    hide Geometry.Valid, ClearOf, C.IsChain, Undisturbed, Searchable, Releasable, LookIn, Served, Distinguished, Base, BitmapAway;
    var b := Base(s.space, v.g, LookIn(s.rest, v.g, v.root, f.name));
    MiddleServes(v, s, f.name);
    RootStays(b, v.g, v.m, v.lim, v.root, f.chain);
    forall e ensures LookIn(w.rest, v.g, v.root, e) == LookIn(s.rest, v.g, v.root, e) && Searchable(w.rest, v.g, v.root, s.end) {
      SearchKept(s.rest, w.rest, v.g, v.m, C.Elems(f.chain), v.root, s.end, e);
    }
  }

  lemma FailKeeps(v: Layout, s: State, w: State, f: File, y: File)
    requires Write(v, s, w, f, false) && AllServed(v, s) && Sized(v, w) && y in Others(s.files, f.name)
    requires LookIn(w.rest, v.g, v.root, y.name) == LookIn(s.rest, v.g, v.root, y.name)
    ensures Served(v, w, y)
  {
    hide Geometry.Valid, ClearOf, C.IsChain, ReadWalk, Undisturbed, Searchable, Releasable, LookIn, Base, BitmapAway;
    var b := Base(s.space, v.g, LookIn(s.rest, v.g, v.root, f.name));
    MiddleServes(v, s, f.name);
    assert Served(v, Middle(v, s, f.name), y);
    TopBelow(v.g);
    if |y.chain| > 0 {
      ZeroedKept(b, v.lim, v.g.Top(), f.chain, y.chain);
      RootShape(b.fat, v.g.Top(), y.chain);
      ChainKept(s.rest, w.rest, v.g, v.m, C.Elems(f.chain), b.fat, w.space.fat, y.chain, |y.data|);
    } else {
      NothingRead(w.rest, v.g, w.space.fat, y.First());
      NothingRead(s.rest, v.g, b.fat, y.First());
    }
  }

  /** A call that fails on a live file loses it exactly when it had data: the name still resolves to
      its first cluster, which is no longer in use. */
  lemma FailedOverwriteIff(v: Layout, s: State, w: State, f: File, x: File)
    requires Write(v, s, w, f, false) && AllServed(v, s) && Sized(v, w)
    requires x in s.files && x.name == f.name
    ensures Served(v, w, x) <==> |x.data| == 0
    ensures Resolves(LookIn(w.rest, v.g, v.root, x.name), x)
    ensures |x.data| > 0 ==> x.First() !in w.space.used
  {
    hide Geometry.Valid, ClearOf, C.IsChain, ReadWalk, Undisturbed, Searchable, Releasable, LookIn, BitmapAway, Base;
    FailWellFormed(v, s, w, f);
    assert Served(v, s, x);
    HousedInTable(v, s, x);
    HousedReleasable(v, s, x, LookIn(s.rest, v.g, v.root, x.name));
    if |x.data| > 0 {
      assert x.First() in C.Elems(x.chain);
    } else {
      NothingRead(w.rest, v.g, w.space.fat, x.First());
    }
  }

  // ---------------------------------------------------------------- where new names go

  /** The root directory has one zero-started slot the insertion can see first: the end marker, in
      its last cluster. */
  ghost predicate EndsIn(r: Disk, g: Geometry, root: seq<nat>, end: Place)
    requires Clusters(root)
  {
    && |root| > 0 && end.At?
    && var z := FirstZero(DirOf(r, g, root[0]), Cap(g), 0);
       if |root| == 1 then root[0] == end.clu && z == end.slot
       else root[0] != end.clu && z == Cap(g) && EndsIn(r, g, root[1..], end)
  }

  /** A new name then goes to the end marker exactly while its cluster has room for three slots and
      another marker, and otherwise nowhere. */
  lemma {:induction false} PlaceIsEnd(r: Disk, g: Geometry, root: seq<nat>, end: Place)
    requires Clusters(root) && EndsIn(r, g, root, end)
    ensures PlaceFor(r, g, root, 3) == if end.slot + 4 <= Cap(g) then end else Nowhere
    decreases |root|
  {
    hide DirOf, FirstZero;
    if |root| > 1 {
      PlaceIsEnd(r, g, root[1..], end);
    } else {
      assert PlaceFor(r, g, root[1..], 3) == Nowhere;
    }
  }

  /** Writing a set into a cluster of the directory, a new one at the end marker or over an old
      one, leaves a directory of that kind. */
  lemma {:induction false} StillEndsIn(r: Disk, w: Disk, g: Geometry, m: Bitmap, cs: set<nat>, root: seq<nat>, end: Place,
                                       l: Lookup, place: Place, f: File)
    requires g.Valid() && g.Fits(r) && C.Distinct(root) && f.First() < U32 && Nameable(f)
    requires forall i :: 0 <= i < |root| ==> 2 <= root[i] < g.Top() && root[i] !in cs && ClearOf(g, m, {root[i]})
    requires EndsIn(r, g, root, end) && place.At? && place.clu >= 2
    requires if l.Missing? then place == end && place.slot + 4 <= Cap(g)
             else place.slot + 3 <= Cap(g) && HasSet(DirOf(r, g, place.clu), place.slot)
    requires Undisturbed(r, w, g, m, cs + {place.clu})
    requires Written(l.Present?, DirOf(r, g, place.clu), DirOf(w, g, place.clu), Cap(g), place.slot,
                     EntrySet(f.name, f.First(), |f.data|))
    ensures EndsIn(w, g, root, if l.Missing? then At(end.clu, end.slot + 3) else end)
    decreases |root|
  {
    hide DirOf, EntrySet, Undisturbed, ClearOf, FirstZero, HasSet, Written, Geometry.Valid;
    var c := root[0];
    LbaRoom(g, c);
    if c == place.clu {
      MarkerAfter(DirOf(r, g, c), DirOf(w, g, c), Cap(g), l.Present?, place.slot, f);
    } else {
      DirKept(r, w, g, m, cs + {place.clu}, c);
      SameFirstZero(DirOf(r, g, c), DirOf(w, g, c), Cap(g), 0);
    }
    if |root| > 1 {
      StillEndsIn(r, w, g, m, cs, root[1..], end, l, place, f);
    }
  }

  lemma MarkerAfter(d: seq<Slot>, r: seq<Slot>, cap: nat, existed: bool, m: nat, f: File)
    requires cap + OVERRUN <= |d| == |r| && m + (if existed then 3 else 4) <= cap
    requires f.First() < U32 && Nameable(f)
    requires if existed then HasSet(d, m) else FirstZero(d, cap, 0) == m
    requires Written(existed, d, r, cap, m, EntrySet(f.name, f.First(), |f.data|))
    ensures FirstZero(r, cap, 0) == if existed then FirstZero(d, cap, 0) else m + 3
  {
    hide EntrySet, Field;
    var ents := EntrySet(f.name, f.First(), |f.data|);
    PrintedFields(f.name, f.First(), |f.data|);
    assert r[m] == ents[0] && r[m + 1] == ents[1] && r[m + 2] == ents[2];
    var y, z := FirstZero(d, cap, 0), FirstZero(r, cap, 0);
    hide FirstZero;
    if existed {
      assert z < cap ==> d[z][0] == 0;
      assert y < cap ==> r[y][0] == 0;
    } else {
      assert r[m + 3] == Zeros(SLOT);
    }
  }

  lemma StepEndsIn(v: Layout, s: State, w: State)
    requires Step(v, s, w) && Sized(v, s) && AllServed(v, s) && EndsIn(s.rest, v.g, v.root, s.end)
    ensures EndsIn(w.rest, v.g, v.root, w.end)
  {
    hide Write, AllServed, Sized, EndsIn;
    var f, ok :| Write(v, s, w, f, ok);
    WriteEndsIn(v, s, w, f, ok);
  }

  lemma WriteEndsIn(v: Layout, s: State, w: State, f: File, ok: bool)
    requires Write(v, s, w, f, ok) && AllServed(v, s) && EndsIn(s.rest, v.g, v.root, s.end)
    ensures EndsIn(w.rest, v.g, v.root, w.end)
  {
    hide Geometry.Valid, ClearOf, C.IsChain, ReadWalk, Undisturbed, Searchable, Releasable, LookIn, Served, Distinguished, Base;
    hide Written, EntrySet, DirOf, PlaceFor, BitmapAway, E.LowestClear, InTable, EndsIn, HasSet;
    var l := LookIn(s.rest, v.g, v.root, f.name);
    var b := Base(s.space, v.g, l);
    MiddleServes(v, s, f.name);
    TopBelow(v.g);
    RootStays(b, v.g, v.m, v.lim, v.root, f.chain);
    if ok {
      if l.Present? { PresentIn(s.rest, v.g, v.root, f.name); }
      StillEndsIn(s.rest, w.rest, v.g, v.m, C.Elems(f.chain), v.root, s.end, l, Target(l, s.rest, v.g, v.root), f);
    } else {
      SameEnd(s.rest, w.rest, v.g, v.m, C.Elems(f.chain), v.root, s.end);
    }
  }

  lemma {:induction false} SameEnd(r: Disk, w: Disk, g: Geometry, m: Bitmap, cs: set<nat>, root: seq<nat>, end: Place)
    requires g.Valid() && g.Fits(r) && Undisturbed(r, w, g, m, cs)
    requires forall i :: 0 <= i < |root| ==> 2 <= root[i] < g.Top() && root[i] !in cs && ClearOf(g, m, {root[i]})
    requires EndsIn(r, g, root, end)
    ensures EndsIn(w, g, root, end)
    decreases |root|
  {
    hide DirOf, Undisturbed, ClearOf, FirstZero, Geometry.Valid;
    var c := root[0];
    LbaRoom(g, c);
    DirKept(r, w, g, m, cs, c);
    SameFirstZero(DirOf(r, g, c), DirOf(w, g, c), Cap(g), 0);
    if |root| > 1 {
      SameEnd(r, w, g, m, cs, root[1..], end);
    }
  }

  // ---------------------------------------------------------------- runs

  lemma StepServes(v: Layout, s: State, w: State)
    requires Step(v, s, w) && Sized(v, s) && AllServed(v, s)
    ensures Sized(v, w) && AllServed(v, w)
  {
    hide Write, AllServed, Sized;
    var f, ok :| Write(v, s, w, f, ok);
    if ok {
      SuccessServes(v, s, w, f);
    } else {
      FailureServes(v, s, w, f);
    }
  }

  lemma SuccessServes(v: Layout, s: State, w: State, f: File)
    requires Write(v, s, w, f, true) && Sized(v, s) && AllServed(v, s)
    ensures Sized(v, w) && AllServed(v, w)
  {
    WrittenFiles(v, s, w, f, true);
    hide WellFormed, Served, Sized, Distinguished, LookIn, Write, Others;
    WriteSettles(v, s, w, f);
    WriteServes(v, s, w, f);
    forall y | y in Others(s.files, f.name) ensures Served(v, w, y) && Distinguished(y, f) {
      WriteKeeps(v, s, w, f, y);
    }
    StillDistinguished(s.files, f);
  }

  lemma StillDistinguished(files: set<File>, f: File)
    requires forall x, y :: x in files && y in files && x != y ==> Distinguished(x, y)
    requires forall y :: y in Others(files, f.name) ==> Distinguished(y, f)
    ensures forall x, y :: x in Others(files, f.name) + {f} && y in Others(files, f.name) + {f} && x != y ==> Distinguished(x, y)
  {
    forall x, y | x in Others(files, f.name) + {f} && y in Others(files, f.name) + {f} && x != y ensures Distinguished(x, y) {
      if x == f { assert Distinguished(y, f); }
    }
  }

  lemma FailureServes(v: Layout, s: State, w: State, f: File)
    requires Write(v, s, w, f, false) && Sized(v, s) && AllServed(v, s)
    ensures Sized(v, w) && AllServed(v, w)
  {
    WrittenFiles(v, s, w, f, false);
    hide WellFormed, Served, Sized, Distinguished, LookIn, Write, Others;
    FailWellFormed(v, s, w, f);
    forall y | y in w.files ensures Served(v, w, y) {
      FailKeeps(v, s, w, f, y);
    }
  }

  lemma WrittenFiles(v: Layout, s: State, w: State, f: File, ok: bool)
    requires Write(v, s, w, f, ok)
    ensures w.files == Others(s.files, f.name) + if ok then {f} else {}
    ensures forall y :: y in Others(s.files, f.name) ==> y in s.files && y.name != f.name
  {
  }

  ghost predicate Run(v: Layout, ss: seq<State>) {
    |ss| > 0 && forall i :: 0 <= i < |ss| - 1 ==> Step(v, ss[i], ss[i + 1])
  }

  /** After any sequence of calls, for new names and live ones, failures among them, every live name
      resolves to its file's first cluster and size and reads back the data written last. An end
      marker in the last cluster of the directory stays there. */
  lemma {:induction false} RunServes(v: Layout, ss: seq<State>)
    requires Run(v, ss) && Sized(v, ss[0]) && AllServed(v, ss[0])
    ensures Sized(v, ss[|ss| - 1]) && AllServed(v, ss[|ss| - 1])
    ensures EndsIn(ss[0].rest, v.g, v.root, ss[0].end) ==> EndsIn(ss[|ss| - 1].rest, v.g, v.root, ss[|ss| - 1].end)
    decreases |ss|
  {
    if |ss| > 1 {
      hide AllServed, Step, EndsIn;
      StepServes(v, ss[0], ss[1]);
      if EndsIn(ss[0].rest, v.g, v.root, ss[0].end) { StepEndsIn(v, ss[0], ss[1]); }
      var rest := ss[1..];
      forall i | 0 <= i < |rest| - 1 ensures Step(v, rest[i], rest[i + 1]) {
        assert Step(v, ss[i + 1], ss[i + 2]);
      }
      RunServes(v, rest);
    }
  }

  // ---------------------------------------------------------------- the code takes these steps

  /** The disk of er is the one of s. */
  ghost predicate Shows(er: ExfatRoot, v: Layout, s: State)
    requires er.Valid()
    reads er, er.fs, er.fs.vol
  {
    && v.g == er.fs.vol.g && v.m == er.fs.Map() && v.lim == er.fs.Lim()
    && |v.root| > 0 && v.root[0] == er.rootCluster
    && s.space == er.fs.Space() && s.rest == er.fs.vol.View().rest
  }

  lemma Formed(v: Layout, s: State)
    requires Sized(v, s) && AllServed(v, s)
    ensures C.IsChain(s.space.fat, v.g.Top(), E.EOC, v.root) && BitmapAway(s.space.used, v.g, v.m, v.root)
  {
  }

  lemma CountZeroIff(g: Geometry, size: nat, clear: nat)
    requires g.Valid() && size < U32 && Storable(g, clear, size)
    ensures ClustersFor(size, g.ClusterBytes()) == 0 <==> size == 0
  {
    hide Storable;
    ClusterArithmetic(g, size, clear);
  }

  /** Each call of exfat_write_root for an ASCII name, new or live, is a step of a run. */
  method Save(er: ExfatRoot, name83: seq<Byte>, data: seq<Byte>, ghost v: Layout, ghost s: State)
    returns (ok: bool, ghost w: State)
    requires er.Valid() && Shows(er, v, s) && Sized(v, s) && AllServed(v, s)
    requires |name83| == 11 && |Expected(name83)| > 0 && Ascii(Expected(name83)) && |data| < U32
    requires LookIn(s.rest, v.g, v.root, Expected(name83)).Missing? ==> PlaceFor(s.rest, v.g, v.root, 3) in {Nowhere, s.end}
    requires LookIn(s.rest, v.g, v.root, Expected(name83)).Present? ==> exists x :: x in s.files && x.name == Expected(name83)
    modifies er.fs.vol`disk, er.fs.vol.sectorBuf, er.fs.vol.fatSectorBuf
    ensures er.Valid() && Shows(er, v, w) && Step(v, s, w) && Sized(v, w) && AllServed(v, w)
    ensures exists chain ::
              w.files == Others(s.files, Expected(name83)) + if ok then {File(Expected(name83), chain, data)} else {}
  {
    hide FatDisk.View, Mirrored, ReadWalk, ClustersFor, Ready, Settled, E.LowestClear, E.ClearSet, Undisturbed, ClearOf, C.IsChain;
    hide Storable, LookIn, PlaceFor, DirOf, EntrySet, Expected, Written, BitmapAway, Base, Releasable, Searchable, Served;
    hide Others, AllServed, Geometry.Entries, Geometry.Valid, Geometry.Fits, Geometry.Lba, Geometry.CopyBase, Bits, Besides;
    MiddleServes(v, s, Expected(name83));
    Formed(v, s);
    var first, place;
    ghost var chain, before;
    ok, first, chain, place, before := er.WriteRoot(name83, data, v.root);
    ghost var f := File(Expected(name83), chain, data);
    w := State(er.fs.Space(), er.fs.vol.View().rest, Others(s.files, f.name) + if ok then {f} else {},
               if ok && before.Missing? then At(s.end.clu, s.end.slot + 3) else s.end);
    if ok { CountZeroIff(v.g, |data|, |E.ClearSet(Base(s.space, v.g, before).used, v.lim)|); }
    assert Write(v, s, w, f, ok);
    hide Write, Shows, Sized;
    StepServes(v, s, w);
  }
}
