/** One copy of a FAT12 or FAT16 table as flat bytes.
    Both formats pack entries as consecutive nibbles, low nibble of a byte first: entry c of a
    FAT12 takes nibbles 3c..3c+3, entry c of a FAT16 takes nibbles 4c..4c+4. The byte-level
    reads and writes of fat.c are related to that single picture. */
module FatImage {
  import opened Bytes

  function Width(fat12: bool): nat {
    if fat12 then 3 else 4
  }

  /** First value an entry cannot hold. */
  function Limit(fat12: bool): nat {
    if fat12 then 0x1000 else 0x1_0000
  }

  /** The first nibble of entry c. */
  function At(fat12: bool, c: nat): nat {
    if fat12 then 3 * c else 4 * c
  }

  /** Number of whole entries in n bytes. */
  function Capacity(fat12: bool, n: nat): nat {
    if fat12 then 2 * n / 3 else n / 2
  }

  function Nibble(f: seq<Byte>, j: nat): (r: nat)
    requires j < 2 * |f|
    ensures r < 16
  {
    if j % 2 == 0 then f[j / 2] % 16 else f[j / 2] / 16
  }

  /** The value of entry c. */
  function Entry(f: seq<Byte>, fat12: bool, c: nat): (v: nat)
    requires c < Capacity(fat12, |f|)
    ensures v < Limit(fat12)
  {
    if fat12 then Nibble(f, 3 * c) + 16 * Nibble(f, 3 * c + 1) + 256 * Nibble(f, 3 * c + 2)
    else Nibble(f, 4 * c) + 16 * Nibble(f, 4 * c + 1) + 256 * Nibble(f, 4 * c + 2) + 4096 * Nibble(f, 4 * c + 3)
  }

  function Table(f: seq<Byte>, fat12: bool): (t: seq<nat>)
    ensures |t| == Capacity(fat12, |f|)
  {
    seq(Capacity(fat12, |f|), c requires 0 <= c < Capacity(fat12, |f|) => Entry(f, fat12, c))
  }

  /** The nibbles after the last whole entry. */
  function Tail(f: seq<Byte>, fat12: bool): (t: seq<int>)
    ensures |t| == 2 * |f| - At(fat12, Capacity(fat12, |f|))
  {
    var from := At(fat12, Capacity(fat12, |f|));
    seq(2 * |f| - from, i requires 0 <= i < 2 * |f| - from => Nibble(f, from + i))
  }

  // ---------------------------------------------------------------- the C code's bytes

  /** Byte offset of entry c: cluster * 3 / 2 or cluster * 2. */
  function Offset(fat12: bool, c: nat): nat {
    if fat12 then c * 3 / 2 else c * 2
  }

  /** What the setters store into the two bytes at the entry's offset. */
  function PatchLo(fat12: bool, c: nat, v: nat, b0: Byte): Byte
    requires v < Limit(fat12)
  {
    if !fat12 || c % 2 == 0 then v % 256 else b0 % 16 + 16 * (v % 16)
  }

  function PatchHi(fat12: bool, c: nat, v: nat, b1: Byte): Byte
    requires v < Limit(fat12)
  {
    if !fat12 then v / 256
    else if c % 2 == 0 then b1 / 16 * 16 + v / 256
    else v / 16
  }

  function Put(f: seq<Byte>, fat12: bool, c: nat, v: nat): (r: seq<Byte>)
    requires c < Capacity(fat12, |f|)
    requires v < Limit(fat12)
    ensures |r| == |f|
  {
    var o := Offset(fat12, c);
    f[o := PatchLo(fat12, c, v, f[o])][o + 1 := PatchHi(fat12, c, v, f[o + 1])]
  }

  /** What the readers make of the two bytes at the entry's offset. */
  function Decode(fat12: bool, c: nat, b0: Byte, b1: Byte): nat {
    var w := b0 + 256 * b1;
    if !fat12 then w else if c % 2 == 1 then w / 16 else w % 0x1000
  }

  lemma DecodeNibbles(b0: Byte, b1: Byte)
    ensures b0 + 256 * b1 == b0 % 16 + 16 * (b0 / 16) + 256 * (b1 % 16) + 4096 * (b1 / 16)
    ensures (b0 + 256 * b1) / 16 == b0 / 16 + 16 * (b1 % 16) + 256 * (b1 / 16)
    ensures (b0 + 256 * b1) % 0x1000 == b0 % 16 + 16 * (b0 / 16) + 256 * (b1 % 16)
  {
  }

  lemma DecodeIsEntry(f: seq<Byte>, fat12: bool, c: nat)
    requires c < Capacity(fat12, |f|)
    ensures Offset(fat12, c) + 1 < |f|
    ensures Decode(fat12, c, f[Offset(fat12, c)], f[Offset(fat12, c) + 1]) == Entry(f, fat12, c)
  {
    var o := Offset(fat12, c);
    OffsetNibbles(fat12, c);
    var b0, b1 := f[o], f[o + 1];
    DecodeNibbles(b0, b1);
  }

  /** Where entry c's nibbles sit relative to its byte offset. */
  lemma OffsetNibbles(fat12: bool, c: nat)
    ensures var o := Offset(fat12, c);
            && At(fat12, c) == (if fat12 && c % 2 == 1 then 2 * o + 1 else 2 * o)
            && At(fat12, c) / 2 == o
  {
    if fat12 {
      DivMod(c * 3, 2, c + c / 2, c % 2);
    } else {
      DivMod(4 * c, 2, 2 * c, 0);
    }
  }

  /** Every nibble outside entry c survives a write of entry c. */
  lemma PutNibble(f: seq<Byte>, fat12: bool, c: nat, v: nat, j: nat)
    requires c < Capacity(fat12, |f|)
    requires v < Limit(fat12)
    requires j < 2 * |f|
    requires j < At(fat12, c) || At(fat12, c + 1) <= j
    ensures Nibble(Put(f, fat12, c, v), j) == Nibble(f, j)
  {
    OffsetNibbles(fat12, c);
  }

  lemma PutGet(f: seq<Byte>, fat12: bool, c: nat, v: nat)
    requires c < Capacity(fat12, |f|)
    requires v < Limit(fat12)
    ensures Entry(Put(f, fat12, c, v), fat12, c) == v
  {
    hide Entry, Decode, PatchLo, PatchHi;
    var f' := Put(f, fat12, c, v);
    var o := Offset(fat12, c);
    DecodeIsEntry(f', fat12, c);
    DecodePatched(fat12, c, v, f[o], f[o + 1]);
  }

  lemma DecodePatched(fat12: bool, c: nat, v: nat, b0: Byte, b1: Byte)
    requires v < Limit(fat12)
    ensures Decode(fat12, c, PatchLo(fat12, c, v, b0), PatchHi(fat12, c, v, b1)) == v
  {
    if fat12 {
      var hi: int := b1;
      if c % 2 == 0 {
        DivMod(v % 256 + 256 * (hi / 16 * 16 + v / 256), 0x1000, hi / 16, v);
      } else {
        DivMod(b0 % 16 + 16 * (v % 16) + 256 * (v / 16), 16, v, b0 % 16);
      }
    }
  }

  lemma PutOther(f: seq<Byte>, fat12: bool, c: nat, v: nat, d: nat)
    requires c < Capacity(fat12, |f|) && d < Capacity(fat12, |f|) && c != d
    requires v < Limit(fat12)
    ensures Entry(Put(f, fat12, c, v), fat12, d) == Entry(f, fat12, d)
  {
    hide Put, Nibble;
    PutNibble(f, fat12, c, v, At(fat12, d));
    PutNibble(f, fat12, c, v, At(fat12, d) + 1);
    PutNibble(f, fat12, c, v, At(fat12, d) + 2);
    if !fat12 { PutNibble(f, fat12, c, v, At(fat12, d) + 3); }
  }

  /** Writing entry c changes entry c and no other, not even the neighbour sharing a byte. */
  lemma PutTable(f: seq<Byte>, fat12: bool, c: nat, v: nat)
    requires c < Capacity(fat12, |f|)
    requires v < Limit(fat12)
    ensures Table(Put(f, fat12, c, v), fat12) == Table(f, fat12)[c := v]
    ensures Tail(Put(f, fat12, c, v), fat12) == Tail(f, fat12)
  {
    PutGet(f, fat12, c, v);
    forall d | 0 <= d < Capacity(fat12, |f|) && d != c
      ensures Entry(Put(f, fat12, c, v), fat12, d) == Entry(f, fat12, d)
    {
      PutOther(f, fat12, c, v, d);
    }
    forall j: nat | At(fat12, Capacity(fat12, |f|)) <= j < 2 * |f|
      ensures Nibble(Put(f, fat12, c, v), j) == Nibble(f, j)
    {
      PutNibble(f, fat12, c, v, j);
    }
  }

  /** The entries and the left-over nibbles determine the bytes. */
  lemma TableDetermines(f: seq<Byte>, g: seq<Byte>, fat12: bool)
    requires |f| == |g|
    requires Table(f, fat12) == Table(g, fat12) && Tail(f, fat12) == Tail(g, fat12)
    ensures f == g
  {
    forall j: nat | j < 2 * |f| ensures Nibble(f, j) == Nibble(g, j) {
        var from := At(fat12, Capacity(fat12, |f|));
      if j < from {
        var c := j / Width(fat12);
        assert Table(f, fat12)[c] == Table(g, fat12)[c];
        SameNibbles(f, g, fat12, c, j);
      } else {
        assert Tail(f, fat12)[j - from] == Tail(g, fat12)[j - from];
      }
    }
    forall i | 0 <= i < |f| ensures f[i] == g[i] {
      assert Nibble(f, 2 * i) == Nibble(g, 2 * i);
      assert Nibble(f, 2 * i + 1) == Nibble(g, 2 * i + 1);
    }
  }

  lemma SameNibbles(f: seq<Byte>, g: seq<Byte>, fat12: bool, c: nat, j: nat)
    requires |f| == |g|
    requires c < Capacity(fat12, |f|)
    requires Entry(f, fat12, c) == Entry(g, fat12, c)
    requires At(fat12, c) <= j < At(fat12, c + 1)
    ensures Nibble(f, j) == Nibble(g, j)
  {
    var a0, a1, a2 := Nibble(f, At(fat12, c)), Nibble(f, At(fat12, c) + 1), Nibble(f, At(fat12, c) + 2);
    var b0, b1, b2 := Nibble(g, At(fat12, c)), Nibble(g, At(fat12, c) + 1), Nibble(g, At(fat12, c) + 2);
    var a3 := if fat12 then 0 else Nibble(f, At(fat12, c) + 3);
    var b3 := if fat12 then 0 else Nibble(g, At(fat12, c) + 3);
    Digits(a0, a1, a2, a3, b0, b1, b2, b3);
    assert j == At(fat12, c) || j == At(fat12, c) + 1 || j == At(fat12, c) + 2 || (!fat12 && j == At(fat12, c) + 3);
  }

  lemma Digits(a0: nat, a1: nat, a2: nat, a3: nat, b0: nat, b1: nat, b2: nat, b3: nat)
    requires a0 < 16 && a1 < 16 && a2 < 16 && b0 < 16 && b1 < 16 && b2 < 16
    requires a0 + 16 * a1 + 256 * a2 + 4096 * a3 == b0 + 16 * b1 + 256 * b2 + 4096 * b3
    ensures a0 == b0 && a1 == b1 && a2 == b2 && a3 == b3
  {
  }

  // ---------------------------------------------------------------- entries across a sector boundary

  const SECTOR: nat := 512

  /** The entry's two bytes lie in different sectors. */
  predicate Straddles(fat12: bool, c: nat) {
    Offset(fat12, c) % SECTOR + 1 >= SECTOR
  }

  /** The reader loads one sector only; past is whatever byte lies behind its 512-byte buffer. */
  function ReadBack(f: seq<Byte>, fat12: bool, c: nat, past: Byte): nat
    requires c < Capacity(fat12, |f|)
  {
    var o := Offset(fat12, c);
    Decode(fat12, c, f[o], if Straddles(fat12, c) then past else f[o + 1])
  }

  lemma HighByteMatters(c: nat, b0: Byte, b1: Byte, past: Byte)
    requires b1 % 16 != past % 16
    ensures Decode(true, c, b0, b1) != Decode(true, c, b0, past)
  {
    DecodeNibbles(b0, b1);
    DecodeNibbles(b0, past);
  }

  /** Setting an entry and reading it back gives the value for certain exactly when the entry
      does not straddle a sector boundary. */
  lemma ReadBackIff(f: seq<Byte>, fat12: bool, c: nat, v: nat)
    requires c < Capacity(fat12, |f|) && v < Limit(fat12)
    ensures (forall past: Byte :: ReadBack(Put(f, fat12, c, v), fat12, c, past) == v) <==> !Straddles(fat12, c)
  {
    hide Put, Entry, Decode;
    var f' := Put(f, fat12, c, v);
    DecodeIsEntry(f', fat12, c);
    PutGet(f, fat12, c, v);
    if !fat12 {
      assert !Straddles(fat12, c);
    }
    if Straddles(fat12, c) {
      var o := Offset(fat12, c);
      var good: Byte := f'[o + 1];
      var past: Byte := if good % 16 == 0 then 17 else 0;
      HighByteMatters(c, f'[o], good, past);
      assert ReadBack(f', fat12, c, past) != v;
    }
  }

  /** A FAT16 never straddles; a FAT12 scan of clusters 2..2+n meets a straddling entry unless n <= 339. */
  lemma StraddleFree(fat12: bool, n: nat)
    ensures (forall c :: 2 <= c < 2 + n ==> !Straddles(fat12, c)) <==> !fat12 || n <= 339
  {
    if fat12 && n > 339 {
      assert Straddles(true, 341);
    }
  }

  /** Cluster 341 of a FAT12 is the first entry that cannot be read back. */
  lemma StraddleExample(f: seq<Byte>)
    requires |f| >= 1024
    ensures ReadBack(Put(f, true, 341, 0), true, 341, 1) == 16
  {
    assert Offset(true, 341) == 511;
  }
}
