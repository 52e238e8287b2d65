/** The search for a free cluster when entries are read through one loaded sector: what it returns
    for arbitrary bytes behind the buffer, and exactly when that is the lowest free cluster. */
module FatSearch {
  import opened Bytes
  import opened FatImage
  import opened Chains

  /** The part of a straddling entry that lies in the loaded sector: its low nibble or low byte. */
  function LowPart(c: nat, v: nat): nat {
    if c % 2 == 1 then v % 16 else v % 256
  }

  /** What a straddling entry reads as. */
  lemma StraddleRead(f: seq<Byte>, c: nat, past: Byte)
    requires c < Capacity(true, |f|) && Straddles(true, c)
    ensures ReadBack(f, true, c, past) ==
            LowPart(c, Entry(f, true, c)) + (if c % 2 == 1 then 16 * past else 256 * (past % 16))
  {
    hide Entry;
    DecodeIsEntry(f, true, c);
    var o := Offset(true, c);
    hide Offset;
    Halves(f[o], f[o + 1]);
    Halves(f[o], past);
  }

  lemma Halves(b0: Byte, b1: Byte)
    ensures (b0 + 256 * b1) / 16 == b0 / 16 + 16 * b1 && (b0 / 16 + 16 * b1) % 16 == b0 / 16
    ensures (b0 + 256 * b1) % 0x1000 == b0 + 256 * (b1 % 16) && (b0 + 256 * (b1 % 16)) % 256 == b0
  {
    var x: int, y: int := b0, b1;
    var lo, hi := y % 16, y / 16;
    DivMod(x + 256 * y, 16, x / 16 + 16 * y, x % 16);
    DivMod(x / 16 + 16 * y, 16, y, x / 16);
    DivMod(x + 256 * y, 0x1000, hi, x + 256 * lo);
    DivMod(x + 256 * lo, 256, lo, x);
  }

  /** A straddling entry is told apart from a free one for certain exactly when the part in the
      loaded sector is not zero. */
  lemma ZeroReadIff(f: seq<Byte>, c: nat)
    requires c < Capacity(true, |f|) && Straddles(true, c)
    ensures (forall past: Byte :: ReadBack(f, true, c, past) == 0 <==> Entry(f, true, c) == 0)
            <==> LowPart(c, Entry(f, true, c)) != 0
  {
    hide ReadBack, Entry, Straddles;
    var zero: Byte, one: Byte := 0, 1;
    StraddleRead(f, c, zero);
    StraddleRead(f, c, one);
    forall past: Byte
      ensures ReadBack(f, true, c, past) ==
              LowPart(c, Entry(f, true, c)) + (if c % 2 == 1 then 16 * past else 256 * (past % 16))
    {
      StraddleRead(f, c, past);
    }
    if LowPart(c, Entry(f, true, c)) == 0 {
      assert ReadBack(f, true, c, zero) == 0 && ReadBack(f, true, c, one) != 0;
    }
  }

  /** The search cannot mistake entry c of table t. */
  predicate Sure(fat12: bool, t: Table, c: nat)
    requires c < |t|
  {
    (fat12 && Straddles(true, c)) ==> LowPart(c, t[c]) != 0
  }

  /** pasts[c] is the byte behind the buffer while entry c is read. */
  function Search(f: seq<Byte>, fat12: bool, top: nat, pasts: seq<Byte>, from: nat): (c: nat)
    requires top <= Capacity(fat12, |f|) && top <= |pasts| && 2 <= from
    ensures c == 0 ==> forall k :: from <= k < top ==> ReadBack(f, fat12, k, pasts[k]) != 0
    ensures c != 0 ==> from <= c < top && ReadBack(f, fat12, c, pasts[c]) == 0
                       && forall k :: from <= k < c ==> ReadBack(f, fat12, k, pasts[k]) != 0
    decreases top - from
  {
    if from >= top then 0
    else if ReadBack(f, fat12, from, pasts[from]) == 0 then from
    else Search(f, fat12, top, pasts, from + 1)
  }

  /** Reading a sure entry tells whether it is free. */
  lemma SureRead(f: seq<Byte>, fat12: bool, c: nat, past: Byte)
    requires c < Capacity(fat12, |f|) && Sure(fat12, FatImage.Table(f, fat12), c)
    ensures ReadBack(f, fat12, c, past) == 0 <==> FatImage.Table(f, fat12)[c] == 0
  {
    hide ReadBack, Entry, Straddles;
    if fat12 && Straddles(true, c) {
      ZeroReadIff(f, c);
    } else {
      WholeRead(f, fat12, c, past);
    }
  }

  lemma WholeRead(f: seq<Byte>, fat12: bool, c: nat, past: Byte)
    requires c < Capacity(fat12, |f|) && !(fat12 && Straddles(true, c))
    ensures ReadBack(f, fat12, c, past) == Entry(f, fat12, c)
  {
    hide Entry;
    DecodeIsEntry(f, fat12, c);
    NoStraddle(fat12, c);
  }

  lemma NoStraddle(fat12: bool, c: nat)
    requires !(fat12 && Straddles(true, c))
    ensures !Straddles(fat12, c)
  {
  }

  /** No cluster of t below c is free. */
  predicate AllUsedBelow(t: Table, c: nat)
    requires c <= |t|
  {
    forall d :: 2 <= d < c ==> t[d] != 0
  }

  /** The search returns the lowest free cluster whatever the bytes behind the buffer are if and
      only if it is sure of every entry it has to read. */
  lemma SearchIff(f: seq<Byte>, fat12: bool, top: nat)
    requires 2 <= top <= Capacity(fat12, |f|)
    ensures (forall pasts: seq<Byte> :: |pasts| == top ==>
               Search(f, fat12, top, pasts, 2) == FindFree(FatImage.Table(f, fat12), top))
            <==> forall c: nat :: 2 <= c < top && AllUsedBelow(FatImage.Table(f, fat12), c) ==>
                   Sure(fat12, FatImage.Table(f, fat12), c)
  {
    hide ReadBack, Entry, FatImage.Table, Sure, Capacity;
    var t := FatImage.Table(f, fat12);
    if forall c: nat :: 2 <= c < top && AllUsedBelow(t, c) ==> Sure(fat12, t, c) {
      forall pasts: seq<Byte> | |pasts| == top ensures Search(f, fat12, top, pasts, 2) == FindFree(t, top) {
        SearchIsSure(f, fat12, top, pasts);
      }
    } else {
      var c: nat :| 2 <= c < top && AllUsedBelow(t, c) && !Sure(fat12, t, c);
      SearchMisled(f, fat12, top, c);
    }
  }

  lemma SearchIsSure(f: seq<Byte>, fat12: bool, top: nat, pasts: seq<Byte>)
    requires 2 <= top <= Capacity(fat12, |f|) && top <= |pasts|
    requires forall c: nat :: 2 <= c < top && AllUsedBelow(FatImage.Table(f, fat12), c) ==>
               Sure(fat12, FatImage.Table(f, fat12), c)
    ensures Search(f, fat12, top, pasts, 2) == FindFree(FatImage.Table(f, fat12), top)
  {
    hide ReadBack, Entry, FatImage.Table, Sure, Capacity;
    var t := FatImage.Table(f, fat12);
    var s, c := Search(f, fat12, top, pasts, 2), FindFree(t, top);
    var first := if c == 0 then top else c;
    forall k: nat | 2 <= k < first ensures ReadBack(f, fat12, k, pasts[k]) != 0 {
      assert AllUsedBelow(t, k);
      SureRead(f, fat12, k, pasts[k]);
    }
    if c != 0 {
      assert AllUsedBelow(t, c);
      SureRead(f, fat12, c, pasts[c]);
    }
  }

  /** Zeros behind the buffer make a doubtful used entry look free, ones a free entry look used. */
  lemma SearchMisled(f: seq<Byte>, fat12: bool, top: nat, c: nat)
    requires 2 <= c < top <= Capacity(fat12, |f|)
    requires AllUsedBelow(FatImage.Table(f, fat12), c) && !Sure(fat12, FatImage.Table(f, fat12), c)
    ensures exists pasts: seq<Byte> ::
              |pasts| == top && Search(f, fat12, top, pasts, 2) != FindFree(FatImage.Table(f, fat12), top)
  {
    hide ReadBack, Entry, Straddles, Capacity;
    var t := FatImage.Table(f, fat12);
    var past: Byte := if t[c] == 0 then 1 else 0;
    var pasts: seq<Byte> := seq(top, k => past);
    StraddleRead(f, c, past);
    assert ReadBack(f, true, c, pasts[c]) == 0 <==> t[c] != 0;
    assert FindFree(t, top) == c <==> t[c] == 0;
    assert Search(f, fat12, top, pasts, 2) != FindFree(t, top);
  }

  /** A table with every cluster in use, entry 341 among them with nothing in its low nibble. */
  function FullTable(n: nat): seq<Byte> {
    seq(n, i => if i == 511 then 1 else 0x11)
  }

  lemma FullTableEntry(n: nat, c: nat)
    requires c < Capacity(true, n)
    ensures Entry(FullTable(n), true, c) != 0
    ensures c == 341 ==> LowPart(c, Entry(FullTable(n), true, c)) == 0
  {
    var f := FullTable(n);
    assert Nibble(f, 3 * c + 1) == 1 || Nibble(f, 3 * c) == 1;
  }

  /** On every table the search returns the lowest free cluster, whatever lies behind the buffer,
      if and only if the volume is no FAT12 or has at most 339 clusters. */
  lemma AnySearchIff(fat12: bool, n: nat, clusters: nat)
    requires clusters + 2 <= Capacity(fat12, n)
    ensures (forall f: seq<Byte>, pasts: seq<Byte> :: |f| == n && |pasts| == clusters + 2 ==>
               Search(f, fat12, clusters + 2, pasts, 2) == FindFree(FatImage.Table(f, fat12), clusters + 2))
            <==> !fat12 || clusters <= 339
  {
    hide ReadBack, Entry, Capacity, Search, FindFree;
    var top := clusters + 2;
    if fat12 && clusters > 339 {
      var f := FullTable(n);
      forall c: nat | 2 <= c < 341 ensures FatImage.Table(f, true)[c] != 0 {
        FullTableEntry(n, c);
      }
      FullTableEntry(n, 341);
      assert Straddles(true, 341);
      assert AllUsedBelow(FatImage.Table(f, true), 341) && !Sure(true, FatImage.Table(f, true), 341);
      SearchMisled(f, true, top, 341);
    } else {
      forall f: seq<Byte>, pasts: seq<Byte> | |f| == n && |pasts| == top
        ensures Search(f, fat12, top, pasts, 2) == FindFree(FatImage.Table(f, fat12), top)
      {
        StraddleFree(fat12, clusters);
        SearchIsSure(f, fat12, top, pasts);
      }
    }
  }

  /** A cluster in use handed out as free: cluster 341 linked to cluster 352, a zero behind the
      buffer. */
  lemma UsedReadsFree(f: seq<Byte>)
    requires |f| >= 1024
    ensures Entry(Put(f, true, 341, 352), true, 341) == 352
    ensures ReadBack(Put(f, true, 341, 352), true, 341, 0) == 0
  {
    hide ReadBack, Entry;
    PutGet(f, true, 341, 352);
    assert Straddles(true, 341);
    StraddleRead(Put(f, true, 341, 352), 341, 0);
  }
}
