/** exFAT directory entry sets: how a name and its set are printed, how the root directory is
    searched, and why a search finds what an insertion wrote. A directory cluster is a sequence
    of 32-byte slots. */
module ExfatDirectory {
  import opened Bytes

  // ---------------------------------------------------------------- names

  function Upper(c: Byte): Byte {
    if 97 <= c <= 122 then c - 32 else c
  }

  predicate AllUpper(s: seq<Byte>) {
    forall k :: 0 <= k < |s| ==> Upper(s[k]) == s[k]
  }

  function Uppers(s: seq<Byte>): (r: seq<Byte>)
    ensures |r| == |s| && AllUpper(r)
  {
    seq(|s|, k requires 0 <= k < |s| => Upper(s[k]))
  }

  const BLANK: Byte := 32
  const DOT: Byte := 46

  /** What stands before the first occurrence of c. */
  function Until(s: seq<Byte>, c: Byte): (r: seq<Byte>)
    ensures |r| <= |s| && r == s[..|r|] && c !in r
    ensures |r| < |s| ==> s[|r|] == c
  {
    if |s| == 0 || s[0] == c then [] else [s[0]] + Until(s[1..], c)
  }

  function SkipBlanks(s: seq<Byte>): (r: seq<Byte>)
    ensures |r| <= |s| && r == s[|s| - |r|..]
    ensures forall k :: 0 <= k < |s| - |r| ==> s[k] == BLANK
    ensures |r| > 0 ==> r[0] != BLANK
  {
    if |s| > 0 && s[0] == BLANK then SkipBlanks(s[1..]) else s
  }

  /** The characters build_expected_from_83 stores in front of its final zero. */
  function Buffer(n11: seq<Byte>): (r: seq<Byte>)
    requires |n11| == 11
    ensures |r| <= 12 && AllUpper(r)
  {
    Uppers(Until(n11[..8], BLANK)) + Extension(SkipBlanks(n11[8..]))
  }

  function Extension(ext: seq<Byte>): (r: seq<Byte>)
    ensures |r| <= |ext| + 1 && AllUpper(r)
  {
    if |ext| == 0 then [] else [DOT] + Uppers(Until(ext, BLANK))
  }

  /** The long name an 8.3 name stands for, as a C string. */
  function Expected(n11: seq<Byte>): (e: seq<Byte>)
    requires |n11| == 11
    ensures |e| <= 12 && IsName(e)
  {
    Until(Buffer(n11), 0)
  }

  /** No terminator inside and no lower-case letter. */
  predicate IsName(e: seq<Byte>) {
    0 !in e && AllUpper(e)
  }

  predicate Ascii(e: seq<Byte>) {
    forall k :: 0 <= k < |e| ==> e[k] < 128
  }

  /** name_matches_expected: stored characters w against the C string e. */
  predicate Matches(e: seq<Byte>, w: seq<nat>) {
    if |w| == 0 || w[0] == 0 then |e| == 0
    else w[0] <= 127 && |e| > 0 && Upper(w[0]) == e[0] && Matches(e[1..], w[1..])
  }

  /** A stored name, up to its first zero if it has one, is found under e exactly when it is ASCII
      and its upper case is e. */
  lemma MatchesIff(e: seq<Byte>, w: seq<nat>)
    ensures Matches(e, w) <==>
            && |e| <= |w| && (|e| < |w| ==> w[|e|] == 0)
            && forall k :: 0 <= k < |e| ==> 0 < w[k] <= 127 && e[k] == if 97 <= w[k] <= 122 then w[k] - 32 else w[k]
  {
    hide Matches;
    MatchesSpelt(e, w);
  }

  predicate Spelt(e: seq<Byte>, w: seq<nat>) {
    && |e| <= |w| && (|e| < |w| ==> w[|e|] == 0)
    && forall k :: 0 <= k < |e| ==> 0 < w[k] <= 127 && e[k] == Upper(w[k])
  }

  lemma {:induction false} MatchesSpelt(e: seq<Byte>, w: seq<nat>)
    ensures Matches(e, w) <==> Spelt(e, w)
    decreases |w|
  {
    if |w| > 0 && w[0] != 0 && |e| > 0 {
      MatchesSpelt(e[1..], w[1..]);
      SpeltStep(e, w);
    }
  }

  lemma SpeltStep(e: seq<Byte>, w: seq<nat>)
    requires |w| > 0 && |e| > 0
    ensures Spelt(e, w) <==> 0 < w[0] <= 127 && e[0] == Upper(w[0]) && Spelt(e[1..], w[1..])
  {
    var e1, w1 := e[1..], w[1..];
    assert forall k :: 0 <= k < |e1| ==> e1[k] == e[k + 1];
    assert forall k :: 0 <= k < |w1| ==> w1[k] == w[k + 1];
    if 0 < w[0] <= 127 && e[0] == Upper(w[0]) && Spelt(e1, w1) {
      forall k | 0 <= k < |e| ensures 0 < w[k] <= 127 && e[k] == Upper(w[k]) {
        if k > 0 { assert w[k] == w1[k - 1] && e[k] == e1[k - 1]; }
      }
    }
  }

  /** A one-letter name above 127 does not even match itself. */
  lemma HighNameLost()
    ensures Expected([201] + Blanks(10)) == [201] && !Matches([201], [201])
  {
    ExpectedJoins([201], []);
    assert [201] + Blanks(10) == [201] + Blanks(7) + [] + Blanks(3);
  }

  // ---------------------------------------------------------------- checksums

  /** One step of both checksums in sections 6.3.3 and 7.6.4 of the exFAT specification. */
  function Next16(sum: nat, b: Byte): (r: nat)
    ensures r < U16
  {
    ((if sum % 2 == 1 then 0x8000 else 0) + sum / 2 + b) % U16
  }

  /** Section 6.3.3: over a whole entry set, the checksum field itself skipped. */
  function SetChecksum(ents: seq<Byte>): (r: nat)
    ensures r < U16
  {
    if |ents| == 0 then 0
    else
      var sum := SetChecksum(ents[..|ents| - 1]);
      if |ents| - 1 == 2 || |ents| - 1 == 3 then sum else Next16(sum, ents[|ents| - 1])
  }

  /** Section 7.6.4: over the up-cased name's UTF-16 bytes. */
  function NameHash(name: seq<Byte>): (r: nat)
    ensures r < U16
  {
    if |name| == 0 then 0 else Next16(NameHash(name[..|name| - 1]), name[|name| - 1])
  }

  /** exfat_chksum16_buf: rotate right and add, from a running sum, optionally skipping bytes 2
      and 3. */
  function Running(data: seq<Byte>, sum: nat, skip: bool): (r: nat)
    requires sum < U16
    ensures r < U16
  {
    if |data| == 0 then sum
    else
      var s := Running(data[..|data| - 1], sum, skip);
      if skip && (|data| == 3 || |data| == 4) then s
      else (s * 32768 + s / 2 + data[|data| - 1]) % U16
  }

  /** The hash byte by byte: from 0, rotate the 16 bits right, add, drop the carry. */
  lemma HashSteps(s: seq<Byte>, b: Byte)
    ensures var was := NameHash(s); NameHash(s + [b]) == (was % 2 * 0x8000 + was / 2 + b) % 0x1_0000
    ensures NameHash([]) == 0
  {
    var was := NameHash(s);
    OneMoreByte(s, b);
    hide Next16, NameHash;
    NextMeans(was, b);
  }

  /** The set checksum byte by byte: the same, but it passes over its own field at 2 and 3. */
  lemma ChecksumSteps(s: seq<Byte>, b: Byte)
    ensures var was := SetChecksum(s);
            SetChecksum(s + [b]) ==
            if |s| == 2 || |s| == 3 then was else (was % 2 * 0x8000 + was / 2 + b) % 0x1_0000
    ensures SetChecksum([]) == 0
  {
    var was := SetChecksum(s);
    OneMoreByte(s, b);
    hide Next16, SetChecksum;
    NextMeans(was, b);
  }

  lemma OneMoreByte(s: seq<Byte>, b: Byte)
    ensures SetChecksum(s + [b]) == if |s| == 2 || |s| == 3 then SetChecksum(s) else Next16(SetChecksum(s), b)
    ensures NameHash(s + [b]) == Next16(NameHash(s), b)
    ensures SetChecksum([]) == 0 && NameHash([]) == 0
  {
    hide Next16;
    assert (s + [b])[..|s + [b]| - 1] == s;
  }

  lemma NextMeans(sum: nat, b: Byte)
    ensures Next16(sum, b) == (sum % 2 * 0x8000 + sum / 2 + b) % 0x1_0000
  {
    assert sum % 2 == 0 || sum % 2 == 1;
  }

  lemma RotateIsNext(s: nat, b: Byte)
    requires s < U16
    ensures (s * 32768 + s / 2 + b) % U16 == Next16(s, b)
  {
    var h := s / 2;
    assert s * 32768 == 65536 * h + 32768 * (s % 2);
  }

  /** Checksumming the slots one after the other is the specification's checksum of the set. */
  lemma {:induction false} RunningIsSetChecksum(first: seq<Byte>, more: seq<Byte>)
    requires |first| >= 4
    ensures Running(more, Running(first, 0, true), false) == SetChecksum(first + more)
    decreases |more|
  {
    if |more| == 0 {
      assert first + more == first;
      FirstSlotChecksum(first);
    } else {
      var l := |more| - 1;
      RunningIsSetChecksum(first, more[..l]);
      assert (first + more)[..|first + more| - 1] == first + more[..l];
      RotateIsNext(Running(more[..l], Running(first, 0, true), false), more[l]);
    }
  }

  lemma {:induction false} FirstSlotChecksum(first: seq<Byte>)
    ensures Running(first, 0, true) == SetChecksum(first)
    decreases |first|
  {
    if |first| > 0 {
      FirstSlotChecksum(first[..|first| - 1]);
      RotateIsNext(Running(first[..|first| - 1], 0, true), first[|first| - 1]);
    }
  }

  lemma {:induction false} RunningIsNameHash(name: seq<Byte>)
    ensures Running(name, 0, false) == NameHash(name)
    decreases |name|
  {
    if |name| > 0 {
      RunningIsNameHash(name[..|name| - 1]);
      RotateIsNext(Running(name[..|name| - 1], 0, false), name[|name| - 1]);
    }
  }

  lemma {:induction false} RunningAppend(a: seq<Byte>, b: seq<Byte>, sum: nat)
    requires sum < U16
    ensures Running(b, Running(a, sum, false), false) == Running(a + b, sum, false)
    decreases |b|
  {
    if |b| == 0 {
      assert a + b == a;
    } else {
      RunningAppend(a, b[..|b| - 1], sum);
      assert (a + b)[..|a + b| - 1] == a + b[..|b| - 1];
    }
  }

  /** The stored field does not take part: filling it in leaves the checksum valid. */
  lemma {:induction false} ChecksumIgnoresField(s: seq<Byte>, s': seq<Byte>)
    requires |s| == |s'| && forall i :: 0 <= i < |s| && i != 2 && i != 3 ==> s[i] == s'[i]
    ensures SetChecksum(s) == SetChecksum(s')
    decreases |s|
  {
    if |s| > 0 { ChecksumIgnoresField(s[..|s| - 1], s'[..|s'| - 1]); }
  }

  // ---------------------------------------------------------------- the printed entry set

  const SLOT: nat := 32

  type Slot = s: seq<Byte> | |s| == SLOT witness Zeros(SLOT)

  function Field(s: seq<Byte>, at: nat, n: nat): nat
    requires at + n <= |s|
  {
    FromLE(s[at..at + n])
  }

  function Utf16(name: seq<Byte>): (s: seq<Byte>)
    ensures |s| == 2 * |name|
    ensures forall k :: 0 <= k < |name| ==> s[2 * k] == name[k] && s[2 * k + 1] == 0
  {
    if |name| == 0 then [] else Utf16(name[..|name| - 1]) + [name[|name| - 1], 0]
  }

  function FileSlot(checksum: nat): Slot {
    [0x85, 2] + LE(checksum, 2) + [0x20] + Zeros(27)
  }

  function StreamSlot(nameLen: Byte, hash: nat, first: nat, size: nat): Slot {
    [0xC0, 1, 0, nameLen] + LE(hash, 2) + [0, 0] + LE(size, 8) + Zeros(4) + LE(first, 4) + LE(size, 8)
  }

  function NameSlot(name: seq<Byte>): Slot
    requires |name| <= 15
  {
    [0xC1, 0] + Utf16(name) + Zeros(30 - 2 * |name|)
  }

  /** The set for a file: one file, one stream and one name entry. */
  function EntrySet(name: seq<Byte>, first: nat, size: nat): (s: seq<Slot>)
    requires |name| <= 15
    ensures |s| == 3
  {
    var stream := StreamSlot(|name|, NameHash(Utf16(name)), first, size);
    var blank: seq<Byte> := FileSlot(0) + stream + NameSlot(name);
    [FileSlot(SetChecksum(blank)), stream, NameSlot(name)]
  }

  function Flat(s: seq<Slot>): seq<Byte> {
    if |s| == 0 then [] else Flat(s[..|s| - 1]) + s[|s| - 1]
  }

  lemma FlatThree(s: seq<Slot>)
    requires |s| == 3
    ensures Flat(s) == Flat([s[0]]) + s[1] + s[2]
    ensures Flat([s[0]]) == s[0]
  {
    assert [s[0]][..0] == [] && s[..1] == [s[0]] && s[..2][..1] == s[..1] && s[..2][1] == s[1];
    assert Flat(s[..2]) == Flat(s[..1]) + s[1];
  }

  /** The stored checksum and hash are those of the specification, over the stored bytes. */
  lemma EntrySetChecks(name: seq<Byte>, first: nat, size: nat)
    requires |name| <= 15 && IsName(name)
    ensures var s := EntrySet(name, first, size);
            && Field(s[0], 2, 2) == SetChecksum(Flat(s))
            && Field(s[1], 4, 2) == NameHash(Utf16(Uppers(name)))
  {
    hide SetChecksum, NameHash;
    Powers();
    var s := EntrySet(name, first, size);
    var blank: seq<Byte> := FileSlot(0) + StreamSlot(|name|, NameHash(Utf16(name)), first, size) + NameSlot(name);
    FlatThree(s);
    ChecksumIgnoresField(Flat(s), blank);
    assert s[0][2..4] == LE(SetChecksum(blank), 2);
    LERoundTrip(SetChecksum(blank), 2);
    assert s[1][4..6] == LE(NameHash(Utf16(name)), 2);
    LERoundTrip(NameHash(Utf16(name)), 2);
    assert Uppers(name) == name;
  }

  // ---------------------------------------------------------------- searching

  /** What the search reports: the file's first cluster and size, where its set stands, how many
      secondary entries it has and whether it claims to be contiguous. */
  datatype Hit = Hit(cluster: nat, size: nat, slot: nat, secCount: nat, noFatChain: bool)

  /** How the walk over one cluster ends. */
  datatype Outcome = Found(hit: Hit) | Stop | Past

  /** Slots behind a cluster's last one that a name entry walk can still read. */
  const OVERRUN: nat := 19

  predicate IsFile(d: seq<Slot>, i: nat)
    requires i < |d|
  {
    d[i][0] == 0x85 && Field(d[i], 4, 2) / 16 % 2 == 0
  }

  /** A file entry whose set would leave the cluster ends the search. */
  predicate Overruns(d: seq<Slot>, cap: nat, i: nat)
    requires i < cap <= |d|
  {
    IsFile(d, i) && i + 1 + (d[i][1] as int) > cap
  }

  /** How far the walk moves on from a slot that is not a match. */
  function Advance(d: seq<Slot>, i: nat): (n: nat)
    requires i + 1 < |d|
    ensures n > 0
  {
    if d[i][0] != 0x85 || (IsFile(d, i) && d[i + 1][0] != 0xC0) then 1 else 1 + (d[i][1] as int)
  }

  function NameEntries(nameLen: nat): nat { (nameLen + 14) / 15 }

  function Name(d: seq<Slot>, i: nat, nameLen: nat): (w: seq<nat>)
    requires nameLen < 256 && i + OVERRUN < |d|
    ensures |w| == nameLen
  {
    seq(nameLen, k requires 0 <= k < nameLen => Field(d[i + 2 + k / 15], 2 + 2 * (k % 15), 2))
  }

  /** The set at slot i is the file called e. */
  predicate HitAt(d: seq<Slot>, i: nat, e: seq<Byte>)
    requires i + OVERRUN < |d|
  {
    && IsFile(d, i) && d[i + 1][0] == 0xC0
    && var n := d[i + 1][3] as nat;
       && n > 0
       && (forall j :: i + 2 <= j < i + 2 + NameEntries(n) ==> d[j][0] == 0xC1)
       && Matches(e, Name(d, i, n))
  }

  function HitOf(d: seq<Slot>, i: nat): Hit
    requires i + 1 < |d|
  {
    var ds := d[i + 1];
    Hit(Field(ds, 20, 4), Field(ds, 24, 8) % U32, i, d[i][1], ds[1] / 2 % 2 == 1)
  }

  /** The search for e through one cluster of cap slots. */
  function Scan(d: seq<Slot>, cap: nat, i: nat, e: seq<Byte>): Outcome
    requires cap + OVERRUN <= |d|
    decreases cap - i
  {
    if i >= cap then Past
    else if d[i][0] == 0 || Overruns(d, cap, i) then Stop
    else if HitAt(d, i, e) then Found(HitOf(d, i))
    else Scan(d, cap, i + Advance(d, i), e)
  }

  // ---------------------------------------------------------------- the search in bytes

  lemma WordAt(s: Slot, at: nat)
    requires at + 2 <= SLOT
    ensures var lo: int, hi: int := s[at], s[at + 1]; Field(s, at, 2) == lo + 256 * hi
  {
    TwoLE(s[at..at + 2]);
  }

  lemma LongAt(s: Slot, at: nat)
    requires at + 4 <= SLOT
    ensures var b0: int, b1: int, b2: int, b3: int := s[at], s[at + 1], s[at + 2], s[at + 3];
            Field(s, at, 4) == b0 + 256 * b1 + 65536 * b2 + 16777216 * b3
  {
    FourLE(s[at..at + 4]);
  }

  /** What the search does at a slot that is no file: the first byte is 0 at the end, 0x85 for a file
      or directory; byte 1 counts the rest of the set; bit 4 of byte 4 marks a directory. */
  lemma ScanSkips(d: seq<Slot>, cap: nat, i: nat, e: seq<Byte>)
    requires cap + OVERRUN <= |d| && i < cap
    ensures d[i][0] == 0 ==> Scan(d, cap, i, e) == Stop
    ensures d[i][0] != 0 && d[i][0] != 0x85 ==> Scan(d, cap, i, e) == Scan(d, cap, i + 1, e)
    ensures d[i][0] == 0x85 && d[i][4] / 16 % 2 == 1 ==> Scan(d, cap, i, e) == Scan(d, cap, i + 1 + (d[i][1] as int), e)
    ensures d[i][0] == 0x85 && d[i][4] / 16 % 2 == 0 && i + 1 + (d[i][1] as int) > cap ==> Scan(d, cap, i, e) == Stop
    ensures d[i][0] == 0x85 && d[i][4] / 16 % 2 == 0 && i + 1 + (d[i][1] as int) <= cap && d[i + 1][0] != 0xC0 ==>
              Scan(d, cap, i, e) == Scan(d, cap, i + 1, e)
  {
    AttributeBit(d[i]);
    hide Field, Name, Matches;
  }

  lemma AttributeBit(s: Slot)
    ensures Field(s, 4, 2) / 16 % 2 == s[4] / 16 % 2
  {
    WordAt(s, 4);
    hide Field;
    LowBit(s[4], s[5]);
  }

  lemma LowBit(lo: int, hi: int)
    requires 0 <= lo < 256 && 0 <= hi
    ensures (lo + 256 * hi) / 16 % 2 == lo / 16 % 2
  {
    var q, r := lo / 16, lo % 16;
    DivMod(lo + 256 * hi, 16, q + 16 * hi, r);
    DivMod(q + 16 * hi, 2, q / 2 + 8 * hi, q % 2);
  }

  /** Character k of a stored name is two bytes, least significant first. */
  lemma NameChar(d: seq<Slot>, i: nat, n: nat, k: nat)
    requires n < 256 && i + OVERRUN < |d| && k < n
    ensures var lo: int, hi: int := d[i + 2 + k / 15][2 + 2 * (k % 15)], d[i + 2 + k / 15][3 + 2 * (k % 15)];
            Name(d, i, n)[k] == lo + 256 * hi
  {
    WordAt(d[i + 2 + k / 15], 2 + 2 * (k % 15));
  }

  /** A set answers to a name exactly if it is a file's, has a name, and its name slots, fifteen
      characters to a slot, all start with 0xC1 and spell that name. */
  lemma HitAtBytes(d: seq<Slot>, i: nat, e: seq<Byte>, n: nat)
    requires i + OVERRUN < |d| && n == d[i + 1][3]
    ensures HitAt(d, i, e) <==>
            && d[i][0] == 0x85 && d[i][4] / 16 % 2 == 0 && d[i + 1][0] == 0xC0 && n > 0
            && (forall j :: i + 2 <= j < i + 2 + (n + 14) / 15 ==> d[j][0] == 0xC1)
            && Matches(e, Name(d, i, n))
  {
    AttributeBit(d[i]);
    hide Field, Matches, Name;
  }

  /** What the search does at a file. */
  lemma ScanFile(d: seq<Slot>, cap: nat, i: nat, e: seq<Byte>)
    requires cap + OVERRUN <= |d| && i < cap && d[i][0] == 0x85 && d[i][4] / 16 % 2 == 0 && i + 1 + (d[i][1] as int) <= cap
    requires d[i + 1][0] == 0xC0
    ensures Scan(d, cap, i, e) == if HitAt(d, i, e) then Found(HitOf(d, i)) else Scan(d, cap, i + 1 + (d[i][1] as int), e)
  {
    AttributeBit(d[i]);
    hide Field, HitAt, HitOf;
  }

  /** The hit in bytes. */
  lemma HitBytes(d: seq<Slot>, i: nat)
    requires i + 1 < |d|
    ensures var s, h := d[i + 1], HitOf(d, i);
            && h.slot == i && h.secCount == d[i][1] && (h.noFatChain <==> s[1] / 2 % 2 == 1)
            && (var b0: int, b1: int, b2: int, b3: int := s[20], s[21], s[22], s[23];
                h.cluster == b0 + 256 * b1 + 65536 * b2 + 16777216 * b3)
            && (var c0: int, c1: int, c2: int, c3: int := s[24], s[25], s[26], s[27];
                h.size == c0 + 256 * c1 + 65536 * c2 + 16777216 * c3)
  {
    var s := d[i + 1];
    LongAt(s, 20);
    LongAt(s, 24);
    FromLESplit(s[24..32], 4);
    Powers();
    assert s[24..32][..4] == s[24..28];
  }

  // ---------------------------------------------------------------- inserting

  /** A walk that matches nothing comes from slot i to slot m. */
  predicate Lands(d: seq<Slot>, cap: nat, i: nat, m: nat)
    requires m < cap && cap + OVERRUN <= |d|
    decreases m - i
  {
    i == m || (i < m && d[i][0] != 0 && !Overruns(d, cap, i) && Lands(d, cap, i + Advance(d, i), m))
  }

  /** r is d with an entry set and a fresh end marker written from slot m on; behind those it
      may hold anything. */
  ghost predicate Inserted(d: seq<Slot>, r: seq<Slot>, m: nat, ents: seq<Slot>)
    requires m + |ents| < |d| == |r|
  {
    && (forall k :: 0 <= k < m ==> r[k] == d[k])
    && (forall k :: m <= k < m + |ents| ==> r[k] == ents[k - m])
    && r[m + |ents|] == Zeros(SLOT)
  }

  /** What a printed set reads back as. */
  lemma PrintedFields(name: seq<Byte>, first: nat, size: nat)
    requires 0 < |name| <= 15 && first < U32 && size < U32
    ensures var s := EntrySet(name, first, size);
            && s[0][0] == 0x85 && s[0][1] == 2 && Field(s[0], 4, 2) == 0x20
            && s[1][0] == 0xC0 && s[1][1] == 1 && s[1][3] == |name|
            && Field(s[1], 20, 4) == first && Field(s[1], 24, 8) == size
            && s[2][0] == 0xC1
            && forall k :: 0 <= k < |name| ==> Field(s[2], 2 + 2 * k, 2) == name[k]
  {
    hide SetChecksum, NameHash, LE, FromLE;
    Powers();
    var s := EntrySet(name, first, size);
    assert s[0][4..6] == [0x20, 0];
    TwoBytes(s[0][4..6]);
    assert s[1][20..24] == LE(first, 4);
    LERoundTrip(first, 4);
    assert s[1][24..32] == LE(size, 8);
    LERoundTrip(size, 8);
    forall k | 0 <= k < |name| ensures Field(s[2], 2 + 2 * k, 2) == name[k] {
      assert s[2][2 + 2 * k] == Utf16(name)[2 * k] && s[2][3 + 2 * k] == Utf16(name)[2 * k + 1];
      assert s[2][2 + 2 * k..4 + 2 * k] == [name[k], 0];
      TwoBytes(s[2][2 + 2 * k..4 + 2 * k]);
    }
  }

  lemma TwoBytes(s: seq<Byte>)
    requires |s| == 2 && s[1] == 0
    ensures FromLE(s) == s[0]
  {
    assert s[1..][1..] == [];
    assert FromLE(s[1..]) == s[1];
  }

  lemma PrintedName(r: seq<Slot>, m: nat, name: seq<Byte>)
    requires m + OVERRUN < |r| && 0 < |name| <= 15 && IsName(name)
    requires forall k :: 0 <= k < |name| ==> Field(r[m + 2], 2 + 2 * k, 2) == name[k]
    ensures 0 !in Name(r, m, |name|)
    ensures forall k :: 0 <= k < |name| ==> Name(r, m, |name|)[k] == name[k]
  {
    hide Field;
    forall k | 0 <= k < |name| ensures Name(r, m, |name|)[k] == name[k] && name[k] != 0 {
      assert k / 15 == 0 && k % 15 == k;
      assert name[k] in name;
    }
  }

  /** A printed set is a hit for exactly its own name, and only if that is ASCII. */
  lemma SetHit(r: seq<Slot>, cap: nat, m: nat, name: seq<Byte>, first: nat, size: nat, e: seq<Byte>)
    requires cap + OVERRUN <= |r| && m + 3 <= cap
    requires 0 < |name| <= 15 && IsName(name) && first < U32 && size < U32
    requires var s := EntrySet(name, first, size); r[m] == s[0] && r[m + 1] == s[1] && r[m + 2] == s[2]
    ensures r[m][0] == 0x85 && !Overruns(r, cap, m) && Advance(r, m) == 3
    ensures HitAt(r, m, e) <==> e == name && Ascii(name)
    ensures HitOf(r, m) == Hit(first, size, m, 2, false)
  {
    hide SetChecksum, NameHash, EntrySet, Name, Matches, Field;
    PrintedFields(name, first, size);
    PrintedName(r, m, name);
    MatchesIff(e, Name(r, m, |name|));
    assert NameEntries(|name|) == 1;
    assert HitAt(r, m, e) <==> Matches(e, Name(r, m, |name|));
    assert Matches(e, Name(r, m, |name|)) <==> e == name && Ascii(name) by {
      if Matches(e, Name(r, m, |name|)) {
        forall k | 0 <= k < |name| ensures e[k] == name[k] && name[k] < 128 {
          assert Name(r, m, |name|)[k] == name[k];
        }
      }
    }
  }

  /** At the insertion point the search finds exactly the new name, and only if it is ASCII. */
  lemma ScanAtSet(r: seq<Slot>, cap: nat, m: nat, name: seq<Byte>, first: nat, size: nat, e: seq<Byte>)
    requires cap + OVERRUN <= |r| && m + 4 <= cap
    requires 0 < |name| <= 15 && IsName(name) && first < U32 && size < U32
    requires Inserted(r, r, m, EntrySet(name, first, size))
    ensures Scan(r, cap, m, e) ==
            if e == name && Ascii(name) then Found(Hit(first, size, m, 2, false)) else Stop
  {
    hide EntrySet, HitAt, HitOf;
    var ents := EntrySet(name, first, size);
    assert r[m] == ents[0] && r[m + 1] == ents[1] && r[m + 2] == ents[2] && r[m + 3] == Zeros(SLOT);
    SetHit(r, cap, m, name, first, size, e);
    assert Scan(r, cap, m + 3, e) == Stop;
  }

  /** Slots in front of an end marker or a file entry answer as before: a name running up to
      slot m was no match, and with another marker or file entry there it still is none. */
  lemma BeforeMarker(d: seq<Slot>, r: seq<Slot>, cap: nat, m: nat, i: nat, e: seq<Byte>)
    requires cap + OVERRUN <= |d| == |r| && i < m < cap
    requires d[m][0] != 0xC0 && d[m][0] != 0xC1 && r[m][0] != 0xC0 && r[m][0] != 0xC1
    requires forall k :: i <= k < m ==> r[k] == d[k]
    ensures r[i] == d[i]
    ensures HitAt(r, i, e) == HitAt(d, i, e)
    ensures HitAt(d, i, e) ==> HitOf(r, i) == HitOf(d, i)
    ensures Advance(r, i) == Advance(d, i)
  {
    hide Matches, Field;
    if i + 1 < m {
      var n := d[i + 1][3] as nat;
      if i + 2 + NameEntries(n) <= m {
        assert Name(r, i, n) == Name(d, i, n);
      } else {
        assert i + 2 <= m < i + 2 + NameEntries(n);
        assert !HitAt(d, i, e) && !HitAt(r, i, e);
      }
    }
  }

  lemma {:induction false} InsertedFrom(d: seq<Slot>, r: seq<Slot>, cap: nat, m: nat, i: nat,
                                        name: seq<Byte>, first: nat, size: nat, e: seq<Byte>)
    requires cap + OVERRUN <= |d| == |r| && m + 4 <= cap && d[m][0] == 0
    requires Lands(d, cap, i, m)
    requires 0 < |name| <= 15 && IsName(name) && first < U32 && size < U32
    requires Inserted(d, r, m, EntrySet(name, first, size))
    ensures Scan(r, cap, i, e) ==
            if Scan(d, cap, i, e).Found? then Scan(d, cap, i, e)
            else if e == name && Ascii(name) then Found(Hit(first, size, m, 2, false)) else Stop
    decreases m - i
  {
    hide EntrySet, HitAt, HitOf, Advance, Field;
    if i == m {
      ScanAtSet(r, cap, m, name, first, size, e);
    } else {
      PrintedFields(name, first, size);
      BeforeMarker(d, r, cap, m, i, e);
      InsertedFrom(d, r, cap, m, i + Advance(d, i), name, first, size, e);
    }
  }

  /** Inserting a file at the end marker of a well-formed cluster: the new name, if ASCII,
      resolves to it, and every other name resolves as it did. A name with a character above
      127 is stored but never found. */
  lemma InsertThenFind(d: seq<Slot>, r: seq<Slot>, cap: nat, m: nat, name: seq<Byte>, first: nat, size: nat)
    requires cap + OVERRUN <= |d| == |r| && m + 4 <= cap && d[m][0] == 0
    requires Lands(d, cap, 0, m)
    requires 0 < |name| <= 15 && IsName(name) && first < U32 && size < U32
    requires Inserted(d, r, m, EntrySet(name, first, size))
    requires !Scan(d, cap, 0, name).Found?
    ensures Scan(r, cap, 0, name) == Found(Hit(first, size, m, 2, false)) <==> Ascii(name)
    ensures !Ascii(name) ==> Scan(r, cap, 0, name) == Stop
    ensures forall e :: e != name ==> Scan(r, cap, 0, e) == Scan(d, cap, 0, e)
  {
    hide EntrySet, Scan, Inserted, Lands;
    InsertedFrom(d, r, cap, m, 0, name, first, size, name);
    forall e | e != name ensures Scan(r, cap, 0, e) == Scan(d, cap, 0, e) {
      InsertedFrom(d, r, cap, m, 0, name, first, size, e);
      LandsNotPast(d, cap, 0, m, e);
    }
  }

  lemma {:induction false} LandsNotPast(d: seq<Slot>, cap: nat, i: nat, m: nat, e: seq<Byte>)
    requires m < cap && cap + OVERRUN <= |d| && d[m][0] == 0 && Lands(d, cap, i, m)
    ensures Scan(d, cap, i, e) != Past
    decreases m - i
  {
    hide HitAt, Advance, Overruns;
    if i < m { LandsNotPast(d, cap, i + Advance(d, i), m, e); }
  }

  /** After the insertion the sets lead up to the new end marker. */
  lemma {:induction false} LandsNext(d: seq<Slot>, r: seq<Slot>, cap: nat, m: nat, i: nat,
                                     name: seq<Byte>, first: nat, size: nat)
    requires cap + OVERRUN <= |d| == |r| && m + 4 <= cap && d[m][0] == 0
    requires Lands(d, cap, i, m)
    requires 0 < |name| <= 15 && first < U32 && size < U32
    requires Inserted(d, r, m, EntrySet(name, first, size))
    ensures Lands(r, cap, i, m + 3) && r[m + 3][0] == 0
    decreases m - i
  {
    hide EntrySet, HitAt, HitOf, Field;
    var ents := EntrySet(name, first, size);
    PrintedFields(name, first, size);
    assert r[m] == ents[0] && r[m + 1] == ents[1] && r[m + 3] == Zeros(SLOT);
    if i == m {
      assert Advance(r, m) == 3 && !Overruns(r, cap, m);
      assert Lands(r, cap, m + 3, m + 3);
    } else {
      BeforeMarker(d, r, cap, m, i, []);
      hide Advance;
      LandsNext(d, r, cap, m, i + Advance(d, i), name, first, size);
    }
  }

  /** A cluster that keeps its slots from i up to the end marker answers as before and keeps leading up
      to the marker, whatever stands behind it. */
  lemma {:induction false} LandsKept(d: seq<Slot>, r: seq<Slot>, cap: nat, m: nat, i: nat, e: seq<Byte>)
    requires cap + OVERRUN <= |d| == |r| && m < cap && d[m][0] == 0
    requires Lands(d, cap, i, m) && forall k :: i <= k <= m ==> r[k] == d[k]
    ensures Lands(r, cap, i, m)
    ensures Scan(r, cap, i, e) == Scan(d, cap, i, e)
    decreases m - i
  {
    hide HitAt, HitOf, Advance, Field;
    if i < m {
      BeforeMarker(d, r, cap, m, i, e);
      LandsKept(d, r, cap, m, i + Advance(d, i), e);
    }
  }

  // ---------------------------------------------------------------- full clusters

  /** No set of the cluster reads on into the slots behind it. */
  ghost predicate Tidy(d: seq<Slot>, cap: nat)
    requires cap + OVERRUN <= |d|
  {
    forall i :: 0 <= i < cap && IsFile(d, i) ==>
      i + 1 < cap && (d[i + 1][0] == 0xC0 ==> i + 2 + NameEntries(d[i + 1][3]) <= cap)
  }

  /** A walk that matches nothing runs off the end of the cluster. */
  predicate Passes(d: seq<Slot>, cap: nat, i: nat)
    requires cap + OVERRUN <= |d|
    decreases cap - i
  {
    i >= cap || (d[i][0] != 0 && !Overruns(d, cap, i) && Passes(d, cap, i + Advance(d, i)))
  }

  /** A tidy cluster answers from its own slots. */
  lemma {:induction false} ScanTidy(d: seq<Slot>, r: seq<Slot>, cap: nat, i: nat, e: seq<Byte>)
    requires cap + OVERRUN <= |d| == |r| && Tidy(d, cap)
    requires forall k :: i <= k < cap ==> r[k] == d[k]
    ensures Scan(r, cap, i, e) == Scan(d, cap, i, e)
    decreases cap - i
  {
    if i < cap && d[i][0] != 0 {
      TidyStep(d, r, cap, i, e);
      hide HitAt, HitOf, Advance;
      ScanTidy(d, r, cap, i + Advance(d, i), e);
    }
  }

  lemma TidyStep(d: seq<Slot>, r: seq<Slot>, cap: nat, i: nat, e: seq<Byte>)
    requires cap + OVERRUN <= |d| == |r| && Tidy(d, cap) && i < cap
    requires forall k :: i <= k < cap ==> r[k] == d[k]
    ensures Overruns(r, cap, i) == Overruns(d, cap, i)
    ensures HitAt(r, i, e) == HitAt(d, i, e)
    ensures HitAt(d, i, e) ==> HitOf(r, i) == HitOf(d, i)
    ensures Advance(r, i) == Advance(d, i)
  {
    hide Matches, Field;
    if IsFile(d, i) && d[i + 1][0] == 0xC0 {
      var n := d[i + 1][3] as nat;
      assert Name(r, i, n) == Name(d, i, n);
    }
  }

  /** A tidy cluster stays tidy and passable as long as its own slots stay. */
  lemma TidyKept(d: seq<Slot>, r: seq<Slot>, cap: nat)
    requires cap + OVERRUN <= |d| == |r| && Tidy(d, cap)
    requires forall k :: 0 <= k < cap ==> r[k] == d[k]
    ensures Tidy(r, cap)
  {
    hide Field;
    forall i | 0 <= i < cap && IsFile(r, i)
      ensures i + 1 < cap && (r[i + 1][0] == 0xC0 ==> i + 2 + NameEntries(r[i + 1][3]) <= cap)
    {
      assert IsFile(d, i);
    }
  }

  lemma {:induction false} PassesKept(d: seq<Slot>, r: seq<Slot>, cap: nat, i: nat)
    requires cap + OVERRUN <= |d| == |r| && Tidy(d, cap) && Passes(d, cap, i)
    requires forall k :: i <= k < cap ==> r[k] == d[k]
    ensures Passes(r, cap, i)
    decreases cap - i
  {
    if i < cap {
      TidyStep(d, r, cap, i, []);
      hide Advance;
      PassesKept(d, r, cap, i + Advance(d, i));
    }
  }

  lemma {:induction false} PassesNotStop(d: seq<Slot>, cap: nat, i: nat, e: seq<Byte>)
    requires cap + OVERRUN <= |d| && Passes(d, cap, i)
    ensures Scan(d, cap, i, e) != Stop
    decreases cap - i
  {
    hide HitAt, Advance, Overruns;
    if i < cap { PassesNotStop(d, cap, i + Advance(d, i), e); }
  }

  // ---------------------------------------------------------------- overwriting

  /** r is d with the slots of ents from slot m on, inside a cluster of cap slots. */
  ghost predicate Replaced(d: seq<Slot>, r: seq<Slot>, cap: nat, m: nat, ents: seq<Slot>) {
    && m + |ents| <= cap <= |d| == |r|
    && (forall k :: 0 <= k < cap && !(m <= k < m + |ents|) ==> r[k] == d[k])
    && (forall k :: m <= k < m + |ents| ==> r[k] == ents[k - m])
  }

  /** One step of a search that ends in a hit. */
  lemma FoundStep(d: seq<Slot>, cap: nat, i: nat, e: seq<Byte>)
    requires cap + OVERRUN <= |d| && Scan(d, cap, i, e).Found?
    ensures i < cap && d[i][0] != 0 && !Overruns(d, cap, i)
    ensures HitAt(d, i, e) ==> Scan(d, cap, i, e) == Found(HitOf(d, i))
    ensures !HitAt(d, i, e) ==> Scan(d, cap, i + Advance(d, i), e) == Scan(d, cap, i, e)
  {
  }

  /** A hit's slot is on the search's way, and its set lies inside the cluster. */
  lemma {:induction false} FoundAhead(d: seq<Slot>, cap: nat, i: nat, e: seq<Byte>)
    requires cap + OVERRUN <= |d| && Scan(d, cap, i, e).Found?
    ensures var h := Scan(d, cap, i, e).hit;
            && i <= h.slot < cap && h.slot + 1 + h.secCount <= cap && HitAt(d, h.slot, e) && h == HitOf(d, h.slot)
            && (HitAt(d, i, e) <==> h.slot == i)
    decreases cap - i
  {
    FoundStep(d, cap, i, e);
    if HitAt(d, i, e) {
      assert !Overruns(d, cap, i) && IsFile(d, i);
    } else {
      hide HitAt, Advance, Scan;
      FoundAhead(d, cap, i + Advance(d, i), e);
    }
  }

  lemma {:induction false} MatchesOne(e: seq<Byte>, e': seq<Byte>, w: seq<nat>)
    requires Matches(e, w)
    ensures Ascii(e)
    ensures Matches(e', w) <==> e' == e
    decreases |w|
  {
    if |w| > 0 && w[0] != 0 {
      MatchesOne(e[1..], if |e'| > 0 then e'[1..] else [], w[1..]);
      assert e == [e[0]] + e[1..];
      if |e'| > 0 { assert e' == [e'[0]] + e'[1..]; }
    }
  }

  /** At the overwritten set every other name is passed over, before and after. */
  lemma AtReplaced(d: seq<Slot>, r: seq<Slot>, cap: nat, m: nat, name: seq<Byte>, first: nat, size: nat, e: seq<Byte>)
    requires m < cap && cap + OVERRUN <= |d| && HitAt(d, m, name) && HitOf(d, m).secCount == 2
    requires 0 < |name| <= 15 && IsName(name) && first < U32 && size < U32
    requires Replaced(d, r, cap, m, EntrySet(name, first, size))
    ensures Advance(d, m) == Advance(r, m) == 3 && r[m][0] == 0x85 && !Overruns(r, cap, m)
    ensures HitAt(r, m, e) <==> e == name
    ensures HitAt(d, m, e) <==> e == name
    ensures HitAt(r, m, e) ==> HitOf(r, m) == Hit(first, size, m, 2, false)
  {
    hide EntrySet, Name, Matches, Field;
    var ents := EntrySet(name, first, size);
    assert r[m] == ents[0] && r[m + 1] == ents[1] && r[m + 2] == ents[2];
    SetHit(r, cap, m, name, first, size, e);
    MatchesOne(name, e, Name(d, m, d[m + 1][3]));
  }

  /** Overwriting the set of name in a cluster whose sets lead up to the end marker at z. */
  lemma {:induction false} ReplacedFrom(d: seq<Slot>, r: seq<Slot>, cap: nat, m: nat, z: nat, i: nat,
                                        name: seq<Byte>, first: nat, size: nat, e: seq<Byte>)
    requires cap + OVERRUN <= |d| && z < cap && d[z][0] == 0 && Lands(d, cap, i, z)
    requires Scan(d, cap, i, name).Found? && Scan(d, cap, i, name).hit.slot == m && Scan(d, cap, i, name).hit.secCount == 2
    requires 0 < |name| <= 15 && IsName(name) && first < U32 && size < U32
    requires Replaced(d, r, cap, m, EntrySet(name, first, size))
    ensures Scan(r, cap, i, e) == if e == name then Found(Hit(first, size, m, 2, false)) else Scan(d, cap, i, e)
    ensures Lands(r, cap, i, z) && r[z][0] == 0
    decreases cap - i
  {
    hide EntrySet, Field, HitOf;
    FoundAhead(d, cap, i, name);
    AtReplaced(d, r, cap, m, name, first, size, e);
    if i == m {
      hide HitAt, Advance;
      assert Lands(d, cap, m + 3, z);
      LandsKept(d, r, cap, z, m + 3, e);
    } else {
      BeforeMarker(d, r, cap, m, i, e);
      hide HitAt, Advance;
      ReplacedFrom(d, r, cap, m, z, i + Advance(d, i), name, first, size, e);
    }
  }

  /** Overwriting the set of name in a full cluster. */
  lemma {:induction false} ReplacedInFull(d: seq<Slot>, r: seq<Slot>, cap: nat, m: nat, i: nat,
                                          name: seq<Byte>, first: nat, size: nat, e: seq<Byte>)
    requires cap + OVERRUN <= |d| && Tidy(d, cap) && Passes(d, cap, i)
    requires Scan(d, cap, i, name).Found? && Scan(d, cap, i, name).hit.slot == m && Scan(d, cap, i, name).hit.secCount == 2
    requires 0 < |name| <= 15 && IsName(name) && first < U32 && size < U32
    requires Replaced(d, r, cap, m, EntrySet(name, first, size))
    ensures Scan(r, cap, i, e) == if e == name then Found(Hit(first, size, m, 2, false)) else Scan(d, cap, i, e)
    ensures Passes(r, cap, i)
    decreases cap - i
  {
    hide EntrySet, Field, HitOf, Tidy;
    FoundAhead(d, cap, i, name);
    AtReplaced(d, r, cap, m, name, first, size, e);
    if i == m {
      hide HitAt, Advance;
      ScanTidy(d, r, cap, m + 3, e);
      PassesKept(d, r, cap, m + 3);
    } else {
      BeforeMarker(d, r, cap, m, i, e);
      hide HitAt, Advance;
      ReplacedInFull(d, r, cap, m, i + Advance(d, i), name, first, size, e);
    }
  }

  lemma ReplacedTidy(d: seq<Slot>, r: seq<Slot>, cap: nat, m: nat, name: seq<Byte>, first: nat, size: nat)
    requires cap + OVERRUN <= |d| && Tidy(d, cap)
    requires 0 < |name| <= 15 && first < U32 && size < U32
    requires Replaced(d, r, cap, m, EntrySet(name, first, size))
    ensures Tidy(r, cap)
  {
    hide EntrySet, Field;
    var ents := EntrySet(name, first, size);
    PrintedFields(name, first, size);
    assert r[m] == ents[0] && r[m + 1] == ents[1] && r[m + 2] == ents[2];
    forall i | 0 <= i < cap && IsFile(r, i)
      ensures i + 1 < cap && (r[i + 1][0] == 0xC0 ==> i + 2 + NameEntries(r[i + 1][3]) <= cap)
    {
      if i != m { assert IsFile(d, i); }
    }
  }

  // ---------------------------------------------------------------- 8.3 names joined

  function Blanks(n: nat): (s: seq<Byte>)
    ensures |s| == n
  {
    seq(n, k => BLANK)
  }

  /** A padded base name and extension stand for the two joined by a dot, in upper case. */
  lemma ExpectedJoins(base: seq<Byte>, ext: seq<Byte>)
    requires |base| <= 8 && |ext| <= 3
    requires BLANK !in base && BLANK !in ext && 0 !in base && 0 !in ext
    ensures Expected(base + Blanks(8 - |base|) + ext + Blanks(3 - |ext|)) ==
            Uppers(base) + if |ext| == 0 then [] else [DOT] + Uppers(ext)
  {
    var n := base + Blanks(8 - |base|) + ext + Blanks(3 - |ext|);
    UntilIs(n[..8], BLANK, base);
    if |ext| > 0 {
      assert n[8] == ext[0];
      assert SkipBlanks(n[8..]) == n[8..];
      UntilIs(n[8..], BLANK, ext);
    } else {
      assert forall k :: 8 <= k < 11 ==> n[k] == BLANK;
      assert |SkipBlanks(n[8..])| == 0;
    }
    NoZeros(base);
    NoZeros(ext);
    UntilIs(Buffer(n), 0, Buffer(n));
  }

  /** Character by character: small letters become capitals, everything else stays. */
  lemma ExpectedLetters(base: seq<Byte>, ext: seq<Byte>, e: seq<Byte>)
    requires |base| <= 8 && |ext| <= 3
    requires BLANK !in base && BLANK !in ext && 0 !in base && 0 !in ext
    requires e == Expected(base + Blanks(8 - |base|) + ext + Blanks(3 - |ext|))
    ensures |e| == |base| + if |ext| == 0 then 0 else 1 + |ext|
    ensures forall k :: 0 <= k < |base| ==> e[k] == if 97 <= base[k] <= 122 then base[k] - 32 else base[k]
    ensures |ext| > 0 ==> e[|base|] == 46
    ensures |ext| > 0 ==> forall k :: 0 <= k < |ext| ==>
              e[|base| + 1 + k] == if 97 <= ext[k] <= 122 then ext[k] - 32 else ext[k]
  {
    hide Expected;
    ExpectedJoins(base, ext);
  }

  lemma NoZeros(s: seq<Byte>)
    requires 0 !in s
    ensures 0 !in Uppers(s)
  {
    forall k | 0 <= k < |s| ensures Upper(s[k]) != 0 {
      assert s[k] in s;
    }
  }

  lemma {:induction false} UntilIs(s: seq<Byte>, c: Byte, p: seq<Byte>)
    requires |p| <= |s| && s[..|p|] == p && c !in p
    requires |p| == |s| || s[|p|] == c
    ensures Until(s, c) == p
    decreases |s|
  {
    if |p| > 0 {
      assert s[0] == p[0] && p[0] in p;
      assert forall x :: x in p[1..] ==> x in p;
      UntilIs(s[1..], c, p[1..]);
    }
  }
}
