/** The loops of fat.c that print an entry set: 8.3 names, checksums and the set itself. */
module ExfatPrint {
  import opened Bytes
  import opened ExfatDirectory
  import opened FatVolume
  import opened ExfatBitmap

  /** build_expected_from_83 with a buffer large enough never to be full. */
  method BuildExpected(n11: seq<Byte>, out: array<Byte>)
    requires |n11| == 11 && out.Length == 64
    modifies out
    ensures out[..|Buffer(n11)| + 1] == Buffer(n11) + [0]
    ensures Until(out[..], 0) == Expected(n11)
  {
    hide Until, Uppers, SkipBlanks, Buffer, Expected, Extension, IsName, AllUpper;
    ghost var head := Until(n11[..8], BLANK);
    assert n11[0..8] == n11[..8];
    var bi := CopyUpper(n11, 0, 8, out, 0, head);
    assert out[..bi] == Uppers(head);
    var extStart := ExtensionStart(n11);
    ghost var ext := n11[extStart..];
    if extStart < 11 {
      ghost var base := out[..bi];
      out[bi] := DOT;
      bi := bi + 1;
      assert out[..bi] == base + [DOT];
      assert out[..bi] == Uppers(head) + [DOT];
      assert n11[extStart..11] == ext;
      bi := CopyUpper(n11, extStart, 11, out, bi, Until(ext, BLANK));
    }
    BufferIs(n11, head, ext);
    assert out[..bi] == Buffer(n11);
    Terminate(n11, out, bi);
  }

  /** The first of the last three characters that is no blank. */
  method ExtensionStart(n11: seq<Byte>) returns (extStart: nat)
    requires |n11| == 11
    ensures 8 <= extStart <= 11 && n11[extStart..] == SkipBlanks(n11[8..])
  {
    hide SkipBlanks;
    extStart := 8;
    while extStart < 11 && n11[extStart] == BLANK
      invariant 8 <= extStart <= 11
      invariant SkipBlanks(n11[extStart..]) == SkipBlanks(n11[8..])
    {
      SkipStep(n11[extStart..]);
      assert n11[extStart..][1..] == n11[extStart + 1..];
      extStart := extStart + 1;
    }
    SkipStep(n11[extStart..]);
  }

  method Terminate(n11: seq<Byte>, out: array<Byte>, bi: nat)
    requires |n11| == 11 && bi < out.Length && out[..bi] == Buffer(n11)
    modifies out
    ensures out[..|Buffer(n11)| + 1] == Buffer(n11) + [0]
    ensures Until(out[..], 0) == Expected(n11)
  {
    hide Until, Buffer, Expected;
    out[bi] := 0;
    assert out[..bi + 1] == Buffer(n11) + [0];
    UntilPrefix(out[..], Buffer(n11));
    ExpectedIs(n11);
  }

  lemma SkipStep(s: seq<Byte>)
    ensures |s| > 0 && s[0] == BLANK ==> SkipBlanks(s) == SkipBlanks(s[1..])
    ensures |s| == 0 || s[0] != BLANK ==> SkipBlanks(s) == s
  {
  }

  lemma BufferIs(n11: seq<Byte>, head: seq<Byte>, ext: seq<Byte>)
    requires |n11| == 11 && head == Until(n11[..8], BLANK) && ext == SkipBlanks(n11[8..])
    ensures Buffer(n11) == if |ext| == 0 then Uppers(head) else Uppers(head) + [DOT] + Uppers(Until(ext, BLANK))
  {
    hide Until, SkipBlanks, Uppers;
    assert Buffer(n11) == Uppers(head) + Extension(ext);
    if |ext| > 0 {
      var u := Uppers(Until(ext, BLANK));
      assert Uppers(head) + ([DOT] + u) == Uppers(head) + [DOT] + u;
    }
  }

  lemma ExpectedIs(n11: seq<Byte>)
    requires |n11| == 11
    ensures Expected(n11) == Until(Buffer(n11), 0)
  {
  }

  /** Appends the upper case of n11[from..to] up to the first blank. */
  method CopyUpper(n11: seq<Byte>, from: nat, to: nat, out: array<Byte>, at: nat, ghost part: seq<Byte>) returns (bi: nat)
    requires from <= to <= |n11| && at + (to - from) <= out.Length
    requires part == Until(n11[from..to], BLANK)
    modifies out
    ensures bi == at + |part|
    ensures out[..bi] == old(out[..at]) + Uppers(part)
  {
    hide Until, Upper;
    bi := at;
    var i := from;
    while i < to && n11[i] != BLANK
      invariant from <= i <= to && bi == at + (i - from)
      invariant i - from <= |part|
      invariant forall k :: at <= k < bi ==> out[k] == Upper(part[k - at])
      invariant forall k :: 0 <= k < at ==> out[k] == old(out[k])
    {
      StillInside(n11[from..to], part, i - from);
      out[bi] := Upper(n11[i]);
      bi := bi + 1;
      i := i + 1;
    }
    Ended(n11[from..to], part, i - from);
    assert out[..bi] == old(out[..at]) + Uppers(part);
  }

  lemma Ended(s: seq<Byte>, part: seq<Byte>, k: nat)
    requires part == Until(s, BLANK) && k <= |part|
    requires k == |s| || s[k] == BLANK
    ensures k == |part|
  {
    assert part == s[..|part|];
  }

  /** A non-blank at the scan position means the part goes on. */
  lemma StillInside(s: seq<Byte>, part: seq<Byte>, k: nat)
    requires part == Until(s, BLANK) && k < |s| && k <= |part| && s[k] != BLANK
    ensures k < |part| && part[k] == s[k]
  {
  }

  lemma UntilPrefix(s: seq<Byte>, p: seq<Byte>)
    requires |p| < |s| && s[..|p| + 1] == p + [0]
    ensures Until(s, 0) == Until(p, 0)
  {
    var u := Until(p, 0);
    assert s[..|p|] == p && s[|p|] == 0;
    assert s[..|u|] == p[..|u|] == u;
    UntilIs(s, 0, u);
  }

  /** exfat_name_utf16_from_83: the characters in front of the terminator. */
  method NameOf(n11: seq<Byte>) returns (name: seq<Byte>)
    requires |n11| == 11
    ensures name == Expected(n11)
  {
    hide Until, Buffer, Expected;
    var exp := new Byte[64];
    BuildExpected(n11, exp);
    ghost var e := Until(exp[..], 0);
    name := [];
    var i := 0;
    while exp[i] != 0 && i < 255
      invariant e == Until(exp[..], 0)
      invariant i <= |e| <= 12 && name == e[..i]
      decreases 64 - i
    {
      CharAt(exp[..], e, i);
      name := name + [exp[i]];
      i := i + 1;
    }
    CharAt(exp[..], e, i);
  }

  lemma CharAt(s: seq<Byte>, e: seq<Byte>, k: nat)
    requires e == Until(s, 0) && |e| < |s| && k <= |e|
    ensures s[k] == 0 <==> k == |e|
    ensures k < |e| ==> s[k] == e[k]
  {
    hide Until;
    if k < |e| { assert e == s[..|e|] && e[k] in e; }
  }

  /** exfat_chksum16_buf; the or of the two shifts joins disjoint bits. */
  method Chksum16Buf(data: seq<Byte>, sum: nat, skip: bool) returns (r: nat)
    requires sum < U16
    ensures r == Running(data, sum, skip) < U16
  {
    r := sum;
    for i := 0 to |data|
      invariant r == Running(data[..i], sum, skip) < U16
    {
      assert data[..i + 1][..i] == data[..i];
      if !(skip && (i == 2 || i == 3)) {
        r := (r * 32768 + r / 2 + data[i]) % U16;
      }
    }
    assert data[..|data|] == data;
  }

  // ---------------------------------------------------------------- fields

  /** p is q with v stored in n bytes at at. */
  ghost predicate Stored(p: seq<Byte>, q: seq<Byte>, at: nat, v: nat, n: nat)
    requires at + n <= |q|
  {
    |p| == |q| && forall k :: 0 <= k < |q| ==> p[k] == if at <= k < at + n then LE(v, n)[k - at] else q[k]
  }

  method Wr16(p: array<Byte>, at: nat, v: nat)
    requires at + 2 <= p.Length && v < U16
    modifies p
    ensures Stored(p[..], old(p[..]), at, v, 2)
  {
    TwoOf(v);
    p[at], p[at + 1] := v % 256, v / 256;
  }

  /** A 64-bit field holding a 32-bit value. */
  method Wr64(p: array<Byte>, at: nat, v: nat)
    requires at + 8 <= p.Length && v < U32
    modifies p
    ensures Stored(p[..], old(p[..]), at, v, 8)
  {
    hide LE;
    Powers();
    LEHigh(v, 4, 4);
    LEHigh(0, 0, 4);
    Wr32(p, at, v);
    Wr32(p, at + 4, 0);
  }

  lemma FourOf(v: nat)
    ensures LE(v, 4) == [v % 256, v / 256 % 256, v / 65536 % 256, v / 16777216 % 256]
  {
    assert LE(v, 4) == [v % 256] + LE(v / 256, 3);
    assert LE(v / 256, 3) == [v / 256 % 256] + LE(v / 256 / 256, 2);
    TwoOf(v / 256 / 256);
  }

  /** The three slots byte by byte: type, count, checksum and the archive attribute; type, flags, name
      length, name hash, data length and first cluster; type and the name in 16-bit characters. */
  lemma SetBytes(name: seq<Byte>, first: nat, size: nat)
    requires |name| <= 15 && first < U32 && size < U32
    ensures var s := EntrySet(name, first, size);
            var sum, hash := SetChecksum(Flat(s)), NameHash(Utf16(name));
            && |s| == 3
            && s[0][..5] == [0x85, 2, sum % 256, sum / 256, 0x20] && (forall k :: 5 <= k < 32 ==> s[0][k] == 0)
            && s[1][..8] == [0xC0, 1, 0, |name|, hash % 256, hash / 256, 0, 0]
            && s[1][8..12] == s[1][24..28] == [size % 256, size / 256 % 256, size / 65536 % 256, size / 16777216 % 256]
            && s[1][20..24] == [first % 256, first / 256 % 256, first / 65536 % 256, first / 16777216 % 256]
            && (forall k :: 12 <= k < 20 || 28 <= k < 32 ==> s[1][k] == 0)
            && s[2][..2] == [0xC1, 0]
            && (forall k :: 0 <= k < |name| ==> s[2][2 + 2 * k] == name[k] && s[2][3 + 2 * k] == 0)
            && (forall k :: 2 + 2 * |name| <= k < 32 ==> s[2][k] == 0)
  {
    hide SetChecksum, NameHash, LE, Flat, Utf16, FileSlot, StreamSlot, NameSlot;
    Powers();
    var sum, hash := SetChecksum(Flat(EntrySet(name, first, size))), NameHash(Utf16(name));
    EntrySetSum(name, first, size);
    FileBytes(sum);
    StreamBytes(|name|, hash, first, size);
    NameBytes(name);
  }

  lemma FileBytes(sum: nat)
    requires sum < U16
    ensures var s := FileSlot(sum);
            s[..5] == [0x85, 2, sum % 256, sum / 256, 0x20] && (forall k :: 5 <= k < 32 ==> s[k] == 0)
  {
    hide LE;
    TwoOf(sum);
  }

  lemma NameBytes(name: seq<Byte>)
    requires |name| <= 15
    ensures var s := NameSlot(name);
            && s[..2] == [0xC1, 0]
            && (forall k :: 0 <= k < |name| ==> s[2 + 2 * k] == name[k] && s[3 + 2 * k] == 0)
            && (forall k :: 2 + 2 * |name| <= k < 32 ==> s[k] == 0)
  {
    hide Utf16;
    var u := Utf16(name);
    forall k | 0 <= k < |name| ensures NameSlot(name)[2 + 2 * k] == name[k] && NameSlot(name)[3 + 2 * k] == 0 {
      assert u[2 * k] == name[k] && u[2 * k + 1] == 0;
    }
  }

  lemma StreamBytes(nameLen: Byte, hash: nat, first: nat, size: nat)
    requires hash < U16 && first < U32 && size < U32
    ensures var s := StreamSlot(nameLen, hash, first, size);
            && s[..8] == [0xC0, 1, 0, nameLen, hash % 256, hash / 256, 0, 0]
            && s[8..12] == s[24..28] == [size % 256, size / 256 % 256, size / 65536 % 256, size / 16777216 % 256]
            && s[20..24] == [first % 256, first / 256 % 256, first / 65536 % 256, first / 16777216 % 256]
            && (forall k :: 12 <= k < 20 || 28 <= k < 32 ==> s[k] == 0)
  {
    hide LE;
    Powers();
    TwoOf(hash);
    FourOf(size);
    FourOf(first);
    LEHigh(size, 4, 4);
    StreamParts(nameLen, hash, first, size);
  }

  lemma StreamParts(nameLen: Byte, hash: nat, first: nat, size: nat)
    ensures var s := StreamSlot(nameLen, hash, first, size);
            && s[..4] == [0xC0, 1, 0, nameLen] && s[4..6] == LE(hash, 2) && s[6..8] == [0, 0]
            && s[8..16] == LE(size, 8) && s[16..20] == Zeros(4) && s[20..24] == LE(first, 4) && s[24..32] == LE(size, 8)
  {
    hide LE;
  }

  /** The checksum in the set is that of the whole set, its own field skipped. */
  lemma EntrySetSum(name: seq<Byte>, first: nat, size: nat)
    requires |name| <= 15
    ensures EntrySet(name, first, size)[0] == FileSlot(SetChecksum(Flat(EntrySet(name, first, size))))
  {
    hide SetChecksum, NameHash, LE, Utf16;
    var s := EntrySet(name, first, size);
    FlatThree(s);
    ChecksumIgnoresField(Flat(s), FileSlot(0) + s[1] + s[2]);
  }

  lemma TwoOf(v: nat)
    ensures LE(v, 2) == [v % 256, v / 256 % 256]
  {
    assert LE(v, 2) == [v % 256] + LE(v / 256, 1);
  }

  lemma {:induction false} LEHigh(v: nat, n: nat, m: nat)
    requires v < Pow256(n)
    ensures LE(v, n + m) == LE(v, n) + Zeros(m)
    decreases n + m
  {
    if n > 0 {
      LEHigh(v / 256, n - 1, m);
    } else if m > 0 {
      LEHigh(0, 0, m - 1);
      assert [0] + Zeros(m - 1) == Zeros(m);
    }
  }

  function Rd16(s: seq<Byte>, at: nat): (v: nat)
    requires at + 2 <= |s|
    ensures v == Field(s, at, 2) < U16
  {
    TwoBytesOf(s[at..at + 2]);
    Word(s[at], s[at + 1], 0, 0)
  }

  lemma TwoBytesOf(s: seq<Byte>)
    requires |s| == 2
    ensures FromLE(s) == Word(s[0], s[1], 0, 0) < U16
  {
    assert s[1..][1..] == [];
    assert FromLE(s[1..]) == s[1];
  }

  function Rd64(s: seq<Byte>, at: nat): (v: nat)
    requires at + 8 <= |s|
    ensures v == Field(s, at, 8)
  {
    Powers();
    FromLESplit(s[at..at + 8], 4);
    assert s[at..at + 8][..4] == s[at..at + 4] && s[at..at + 8][4..] == s[at + 4..at + 8];
    Rd32(s, at) + U32 * Rd32(s, at + 4)
  }

  // ---------------------------------------------------------------- the set

  /** The entry set exfat_write_root builds for a name of at most 15 characters, which takes one
      name entry. */
  method BuildSet(name: seq<Byte>, first: nat, size: nat, buf: array<Byte>)
    requires 0 < |name| <= 15 && first < U32 && size < U32 && buf.Length == 768
    modifies buf
    ensures buf[0..32] == EntrySet(name, first, size)[0]
    ensures buf[32..64] == EntrySet(name, first, size)[1]
    ensures buf[64..96] == EntrySet(name, first, size)[2]
  {
    hide LE, SetChecksum, NameHash, Running, Utf16;
    var wname: seq<Byte> := Utf16(name);
    var hash := Chksum16Buf(wname, 0, false);
    RunningIsNameHash(wname);
    for i := 0 to 768
      invariant forall k :: 0 <= k < i ==> buf[k] == 0
    {
      buf[i] := 0;
    }
    FillFile(buf);
    FillStream(buf, |name|, hash, first, size);
    ghost var two := buf[0..64];
    assert two[0..32] == buf[0..32] && two[32..64] == buf[32..64];
    FillName(buf, name);
    assert buf[0..32] == two[0..32] && buf[32..64] == two[32..64];
    var dcs := SetSum(buf);
    ghost var was := buf[..];
    assert was[0..32] == buf[0..32] && was[32..64] == buf[32..64] && was[64..96] == buf[64..96];
    Wr16(buf, 2, dcs);
    ChecksumStored(was, buf[..], dcs);
    EntrySetIs(name, first, size, was[0..32], was[32..64], was[64..96]);
  }

  method SetSum(buf: array<Byte>) returns (dcs: nat)
    requires buf.Length == 768
    ensures dcs == SetChecksum(buf[0..32] + buf[32..64] + buf[64..96])
  {
    hide Running, SetChecksum;
    ghost var s0: seq<Byte>, s1: seq<Byte>, s2: seq<Byte> := buf[0..32], buf[32..64], buf[64..96];
    dcs := Chksum16Buf(buf[0..32], 0, true);
    for i := 1 to 3
      invariant dcs < U16
      invariant i == 1 ==> dcs == Running(s0, 0, true)
      invariant i == 2 ==> dcs == Running(s1, Running(s0, 0, true), false)
      invariant i == 3 ==> dcs == Running(s2, Running(s1, Running(s0, 0, true), false), false)
    {
      var slot: seq<Byte> := buf[32 * i..32 * i + 32];
      if i == 1 {
        assert slot == s1;
      } else {
        assert slot == s2;
      }
      dcs := Chksum16Buf(slot, dcs, false);
    }
    ThreeSlots(s0, s1, s2);
  }

  lemma EntrySetIs(name: seq<Byte>, first: nat, size: nat, s0: seq<Byte>, s1: seq<Byte>, s2: seq<Byte>)
    requires |name| <= 15
    requires s0 == FileSlot(0) && s1 == StreamSlot(|name|, NameHash(Utf16(name)), first, size) && s2 == NameSlot(name)
    ensures EntrySet(name, first, size) == [FileSlot(SetChecksum(s0 + s1 + s2)), s1, s2]
  {
    hide SetChecksum, NameHash, Utf16;
  }

  lemma ThreeSlots(s0: seq<Byte>, s1: seq<Byte>, s2: seq<Byte>)
    requires |s0| >= 4
    ensures Running(s2, Running(s1, Running(s0, 0, true), false), false) == SetChecksum(s0 + s1 + s2)
  {
    hide Running, SetChecksum;
    RunningAppend(s1, s2, Running(s0, 0, true));
    RunningIsSetChecksum(s0, s1 + s2);
    assert s0 + (s1 + s2) == s0 + s1 + s2;
  }

  lemma ChecksumStored(was: seq<Byte>, now: seq<Byte>, sum: nat)
    requires |was| == 768 && Stored(now, was, 2, sum, 2)
    requires was[0..32] == FileSlot(0)
    ensures now[0..32] == FileSlot(sum) && now[32..64] == was[32..64] && now[64..96] == was[64..96]
  {
    hide LE;
    assert now[2..4] == LE(sum, 2);
    assert was[4..32] == FileSlot(0)[4..] == [0x20] + Zeros(27);
    assert was[0..2] == [0x85, 2];
    assert now[0..32] == now[0..2] + now[2..4] + now[4..32];
    assert now[0..2] == was[0..2] && now[4..32] == was[4..32];
    assert FileSlot(sum) == [0x85, 2] + LE(sum, 2) + ([0x20] + Zeros(27));
  }

  method FillFile(buf: array<Byte>)
    requires buf.Length == 768 && forall k :: 0 <= k < 768 ==> buf[k] == 0
    modifies buf
    ensures buf[0..32] == FileSlot(0)
    ensures forall k :: 32 <= k < 768 ==> buf[k] == 0
  {
    FileSlotZero();
    buf[0] := 0x85;
    buf[1] := 2;
    buf[4], buf[5] := 0x20, 0;
  }

  lemma FileSlotZero()
    ensures FileSlot(0) == [0x85, 2, 0, 0, 0x20] + Zeros(27)
  {
    assert LE(0, 2) == [0] + LE(0, 1) == [0, 0];
  }

  method FillStream(buf: array<Byte>, nameLen: Byte, hash: nat, first: nat, size: nat)
    requires buf.Length == 768 && forall k :: 32 <= k < 768 ==> buf[k] == 0
    requires hash < U16 && size < U32 && first < U32
    modifies buf
    ensures buf[0..32] == old(buf[0..32])
    ensures buf[32..64] == StreamSlot(nameLen, hash, first, size)
    ensures forall k :: 64 <= k < 768 ==> buf[k] == 0
  {
    hide LE;
    ghost var b0 := buf[..];
    buf[32] := 0xC0;
    buf[33] := 1;
    buf[35] := nameLen;
    ghost var b1 := buf[..];
    Wr16(buf, 36, hash);
    ghost var b2 := buf[..];
    Wr64(buf, 40, size);
    ghost var b3 := buf[..];
    Wr32(buf, 52, first);
    ghost var b4 := buf[..];
    Wr64(buf, 56, size);
    StreamFilled(b1, b2, b3, b4, buf[..], nameLen, hash, first, size);
    assert buf[0..32] == b1[0..32] == b0[0..32];
    assert forall k :: 64 <= k < 768 ==> buf[..][k] == 0;
  }

  lemma StreamFilled(b1: seq<Byte>, b2: seq<Byte>, b3: seq<Byte>, b4: seq<Byte>, b5: seq<Byte>,
                     nameLen: Byte, hash: nat, first: nat, size: nat)
    requires |b1| == 768 && Stored(b2, b1, 36, hash, 2) && Stored(b3, b2, 40, size, 8)
    requires b4 == Patch4(b3, 52, first) && Stored(b5, b4, 56, size, 8)
    requires b1[32] == 0xC0 && b1[33] == 1 && b1[34] == 0 && b1[35] == nameLen
    requires forall k :: 36 <= k < 768 ==> b1[k] == 0
    ensures b5[32..64] == StreamSlot(nameLen, hash, first, size)
    ensures b5[0..32] == b1[0..32]
    ensures forall k :: 64 <= k < 768 ==> b5[k] == 0
  {
    hide LE;
    assert b2[36..38] == LE(hash, 2);
    assert b3[40..48] == LE(size, 8);
    assert b4[52..56] == LE(first, 4);
    assert b5[56..64] == LE(size, 8);
    assert b5[36..38] == b2[36..38];
    assert b5[40..48] == b3[40..48];
    assert b5[52..56] == b4[52..56];
    assert b5[48..52] == Zeros(4);
    assert b5[32..36] == [0xC0, 1, 0, nameLen];
    assert b5[38..40] == [0, 0];
    assert b5[32..64] == b5[32..36] + b5[36..38] + b5[38..40] + b5[40..48] + b5[48..52] + b5[52..56] + b5[56..64];
  }

  method FillName(buf: array<Byte>, name: seq<Byte>)
    requires buf.Length == 768 && forall k :: 64 <= k < 768 ==> buf[k] == 0
    requires 0 < |name| <= 15
    modifies buf
    ensures buf[0..64] == old(buf[0..64])
    ensures buf[64..96] == NameSlot(name)
  {
    hide Utf16;
    buf[64] := 0xC1;
    for j := 0 to |name|
      invariant forall k :: 0 <= k < 64 ==> buf[k] == old(buf[k])
      invariant buf[64] == 0xC1 && buf[65] == 0
      invariant forall k :: 0 <= k < j ==> buf[66 + 2 * k] == name[k] && buf[67 + 2 * k] == 0
      invariant forall k :: 66 + 2 * j <= k < 96 ==> buf[k] == 0
    {
      buf[66 + 2 * j], buf[67 + 2 * j] := name[j], 0;
    }
    var u := Utf16(name);
    forall i | 0 <= i < 2 * |name| ensures buf[66 + i] == u[i] {
      assert u[2 * (i / 2)] == name[i / 2] && u[2 * (i / 2) + 1] == 0;
      assert buf[66 + 2 * (i / 2)] == name[i / 2] && buf[67 + 2 * (i / 2)] == 0;
    }
  }
}
