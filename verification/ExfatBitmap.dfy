/** The allocation bitmap: one bit a cluster, least significant bit first, in the bytes of
    consecutive sectors. */
module ExfatBitmap {
  import opened Bytes
  import opened FatImage
  import opened FatDisk
  import opened FatFiles

  // ---------------------------------------------------------------- bits of a byte

  /** 1 << k. */
  function Mask(k: nat): (m: nat)
    ensures m > 0
  {
    if k == 0 then 1 else 2 * Mask(k - 1)
  }

  /** Bit k of b. */
  function BitOf(b: nat, k: nat): bool {
    if k == 0 then b % 2 == 1 else BitOf(b / 2, k - 1)
  }

  /** b with bit k replaced. */
  function SetBit(b: nat, k: nat, v: bool): (r: nat) {
    if k == 0 then b / 2 * 2 + (if v then 1 else 0) else 2 * SetBit(b / 2, k - 1, v) + b % 2
  }

  lemma {:induction false} BitAfterSet(b: nat, k: nat, v: bool, j: nat)
    ensures BitOf(SetBit(b, k, v), j) == if j == k then v else BitOf(b, j)
    decreases k
  {
    if k > 0 && j > 0 {
      BitAfterSet(b / 2, k - 1, v, j - 1);
    } else {
      var r := SetBit(b, k, v);
      assert k == 0 ==> r / 2 == b / 2;
    }
  }

  /** Replacing a bit of an n-bit number leaves an n-bit number. */
  lemma {:induction false} SetBitBound(b: nat, k: nat, v: bool, n: nat)
    requires k < n && b < Mask(n)
    ensures SetBit(b, k, v) < Mask(n)
    decreases k
  {
    if k > 0 { SetBitBound(b / 2, k - 1, v, n - 1); }
  }

  /** The shift-and-mask form: (b >> k) & 1. */
  lemma {:induction false} BitByShift(b: nat, k: nat)
    ensures BitOf(b, k) <==> b / Mask(k) % 2 == 1
    decreases k
  {
    if k > 0 {
      BitByShift(b / 2, k - 1);
      DivDiv(b, Mask(k - 1));
    }
  }

  lemma DivDiv(b: nat, m: nat)
    requires m > 0
    ensures b / 2 / m == b / (2 * m)
  {
    var q, t := b / 2, b / 2 / m;
    assert q == m * t + q % m;
    assert b == (2 * m) * t + (2 * (q % m) + b % 2);
    Quotient(b, 2 * m, t, 2 * (q % m) + b % 2);
  }

  lemma Quotient(b: nat, n: nat, t: nat, r: nat)
    requires r < n && b == n * t + r
    ensures b / n == t
  {
    var u, x := b / n, b % n;
    assert n * (u - t) == r - x by {
      assert b == n * u + x;
      assert n * (u - t) == n * u - n * t;
    }
    if u != t { Multiple(n, u - t); }
  }

  lemma Multiple(n: int, d: int)
    requires n > 0 && d != 0
    ensures n * d >= n || n * d <= 0 - n
  {
    if d >= 1 {
      assert n * (d - 1) >= 0;
    } else {
      assert n * (0 - d - 1) >= 0;
    }
  }

  /** The read-modify-write form: b |= 1 << k sets the bit, b &= ~(1 << k) clears it. */
  lemma {:induction false} SetByMask(b: nat, k: nat, v: bool)
    ensures SetBit(b, k, v) == if BitOf(b, k) == v then b else if v then b + Mask(k) else b - Mask(k)
    decreases k
  {
    if k > 0 { SetByMask(b / 2, k - 1, v); }
  }

  lemma {:induction false} BitsDetermine(a: nat, b: nat, n: nat)
    requires a < Mask(n) && b < Mask(n)
    requires forall k: nat :: k < n ==> BitOf(a, k) == BitOf(b, k)
    ensures a == b
    decreases n
  {
    if n > 0 {
      assert BitOf(a, 0) == BitOf(b, 0);
      forall k: nat | k < n - 1 ensures BitOf(a / 2, k) == BitOf(b / 2, k) {
        assert BitOf(a, k + 1) == BitOf(b, k + 1);
      }
      BitsDetermine(a / 2, b / 2, n - 1);
    }
  }

  lemma ByteMask()
    ensures Mask(8) == 256
  {
    assert Mask(4) == 16;
    assert Mask(6) == 64;
  }

  function SetByteBit(b: Byte, k: nat, v: bool): (r: Byte)
    requires k < 8
  {
    ByteMask();
    SetBitBound(b, k, v, 8);
    SetBit(b, k, v)
  }

  // ---------------------------------------------------------------- the bitmap on the disk

  datatype Bitmap = Bitmap(lba: nat, bytes: nat) {
    function Sectors(): nat { (bytes + SECTOR - 1) / SECTOR }

    predicate Fits(r: Disk) { lba + Sectors() <= |r| }
  }

  lemma InSectors(m: Bitmap, i: nat)
    requires i < m.bytes
    ensures i / SECTOR < m.Sectors()
  {
  }

  function ByteAt(r: Disk, m: Bitmap, i: nat): Byte
    requires m.Fits(r) && i < m.bytes
  {
    InSectors(m, i);
    r[m.lba + i / SECTOR][i % SECTOR]
  }

  /** Bit k says whether cluster k + 2 is in use. */
  function Bits(r: Disk, m: Bitmap): (b: seq<bool>)
    requires m.Fits(r)
    ensures |b| == 8 * m.bytes
  {
    seq(8 * m.bytes, k requires 0 <= k < 8 * m.bytes => BitOf(ByteAt(r, m, k / 8), k % 8))
  }

  /** Byte x of sector l belongs to the bitmap. */
  predicate InBitmap(m: Bitmap, l: nat, x: nat) {
    m.lba <= l && SECTOR * (l - m.lba) + x < m.bytes
  }

  /** The disk with the bitmap's bytes blanked. */
  function Besides(r: Disk, m: Bitmap): (o: Disk)
    ensures |o| == |r|
  {
    seq(|r|, l requires 0 <= l < |r| => Blanked(r[l], m, l))
  }

  function Blanked(s: Sector, m: Bitmap, l: nat): Sector {
    seq(SECTOR, x requires 0 <= x < SECTOR => if InBitmap(m, l, x) then 0 else s[x])
  }

  /** The read-modify-write of one bit. */
  function PutBit(r: Disk, m: Bitmap, k: nat, v: bool): (w: Disk)
    requires m.Fits(r) && k < 8 * m.bytes
    ensures |w| == |r|
  {
    InSectors(m, k / 8);
    var l, x := m.lba + k / 8 / SECTOR, k / 8 % SECTOR;
    r[l := r[l][x := SetByteBit(r[l][x], k % 8, v)]]
  }

  /** It changes that bit and nothing else. */
  lemma PutBitBits(r: Disk, m: Bitmap, k: nat, v: bool)
    requires m.Fits(r) && k < 8 * m.bytes
    ensures Bits(PutBit(r, m, k, v), m) == Bits(r, m)[k := v]
    ensures Besides(PutBit(r, m, k, v), m) == Besides(r, m)
  {
    hide BitOf, SetBit, Mask;
    var w := PutBit(r, m, k, v);
    forall j: nat | j < 8 * m.bytes ensures Bits(w, m)[j] == Bits(r, m)[k := v][j] {
      PutBitByte(r, m, k, v, j / 8);
      BitAfterSet(ByteAt(r, m, k / 8), k % 8, v, j % 8);
    }
    forall l: nat | l < |r| ensures Blanked(w[l], m, l) == Blanked(r[l], m, l) {
      PutBitBesides(r, m, k, v, l);
    }
  }

  lemma PutBitByte(r: Disk, m: Bitmap, k: nat, v: bool, i: nat)
    requires m.Fits(r) && k < 8 * m.bytes && i < m.bytes
    ensures ByteAt(PutBit(r, m, k, v), m, i) ==
            if i == k / 8 then SetByteBit(ByteAt(r, m, i), k % 8, v) else ByteAt(r, m, i)
  {
    hide SetByteBit, Bitmap.Sectors;
    var q := k / 8;
    InSectors(m, i);
    InSectors(m, q);
    assert i == SECTOR * (i / SECTOR) + i % SECTOR && q == SECTOR * (q / SECTOR) + q % SECTOR;
  }

  lemma PutBitBesides(r: Disk, m: Bitmap, k: nat, v: bool, l: nat)
    requires m.Fits(r) && k < 8 * m.bytes && l < |r|
    ensures Blanked(PutBit(r, m, k, v)[l], m, l) == Blanked(r[l], m, l)
  {
    hide SetByteBit, Bitmap.Sectors;
    var q := k / 8;
    InSectors(m, q);
    assert q == SECTOR * (q / SECTOR) + q % SECTOR;
    assert InBitmap(m, m.lba + q / SECTOR, q % SECTOR);
  }

  /** The bits and the rest determine the disk. */
  lemma BitsAndRestDetermine(r: Disk, w: Disk, m: Bitmap)
    requires m.Fits(r) && |w| == |r|
    requires Bits(r, m) == Bits(w, m) && Besides(r, m) == Besides(w, m)
    ensures r == w
  {
    hide BitOf;
    forall l, x: nat | 0 <= l < |r| && x < SECTOR ensures r[l][x] == w[l][x] {
      if InBitmap(m, l, x) {
        SameBitmapByte(r, w, m, l, x);
      } else {
        assert Besides(r, m)[l][x] == Besides(w, m)[l][x];
      }
    }
    forall l | 0 <= l < |r| ensures r[l] == w[l] { }
  }

  lemma SameBitmapByte(r: Disk, w: Disk, m: Bitmap, l: nat, x: nat)
    requires m.Fits(r) && |w| == |r| && l < |r| && x < SECTOR
    requires Bits(r, m) == Bits(w, m) && InBitmap(m, l, x)
    ensures r[l][x] == w[l][x]
  {
    hide BitOf;
    var i := SECTOR * (l - m.lba) + x;
    assert i / SECTOR == l - m.lba && i % SECTOR == x;
    forall k: nat | k < 8 ensures BitOf(ByteAt(r, m, i), k) == BitOf(ByteAt(w, m, i), k) {
      assert (8 * i + k) / 8 == i && (8 * i + k) % 8 == k;
      assert Bits(r, m)[8 * i + k] == Bits(w, m)[8 * i + k];
    }
    ByteMask();
    BitsDetermine(ByteAt(r, m, i), ByteAt(w, m, i), 8);
  }

  /** The bits depend on the bitmap's sectors only. */
  lemma BitsFrame(r: Disk, w: Disk, m: Bitmap)
    requires m.Fits(r) && |w| == |r|
    requires forall l :: m.lba <= l < m.lba + m.Sectors() ==> w[l] == r[l]
    ensures Bits(w, m) == Bits(r, m)
  {
    hide BitOf;
    forall i: nat | i < m.bytes ensures ByteAt(w, m, i) == ByteAt(r, m, i) {
      InSectors(m, i);
    }
  }
}
