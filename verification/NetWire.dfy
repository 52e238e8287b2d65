/** Packet formats of the loopback stack: TCP segments inside IPv4 datagrams, and their
    checksums. Multi-byte fields are big-endian. */
module NetWire {
  import opened Bytes

  type Word16 = x: int | 0 <= x < 0x1_0000
  type Word32 = x: int | 0 <= x < 0x1_0000_0000

  function BE16(v: Word16): (s: seq<Byte>)
    ensures |s| == 2
  {
    [v / 256, v % 256]
  }

  function BE32(v: Word32): (s: seq<Byte>)
    ensures |s| == 4
  {
    [v / 0x100_0000, v / 0x1_0000 % 256, v / 256 % 256, v % 256]
  }

  function Rd16(s: seq<Byte>, i: nat): Word16
    requires i + 2 <= |s|
  {
    var hi: int, lo: int := s[i], s[i + 1];
    256 * hi + lo
  }

  function Rd32(s: seq<Byte>, i: nat): Word32
    requires i + 4 <= |s|
  {
    var b0: int, b1: int, b2: int, b3: int := s[i], s[i + 1], s[i + 2], s[i + 3];
    0x100_0000 * b0 + 0x1_0000 * b1 + 256 * b2 + b3
  }

  lemma BERoundTrip(v: Word16, w: Word32)
    ensures Rd16(BE16(v), 0) == v && Rd32(BE32(w), 0) == w
  {
    LongRoundTrip(w);
    hide BE32, Rd32;
  }

  lemma LongRoundTrip(w: Word32)
    ensures Rd32(BE32(w), 0) == w
  {
    var x: int := w;
    var a, b, c := x / 256, x / 256 / 256, x / 256 / 256 / 256;
    DivMod(x, 65536, b, 256 * (a % 256) + x % 256);
    DivMod(x, 16777216, c, 65536 * (b % 256) + 256 * (a % 256) + x % 256);
  }

  // ---------------------------------------------------------------- checksums

  const M: int := 0xFFFF

  /** Sum of the big-endian 16-bit words of s, an odd last byte counting as a high byte. */
  function WordSum(s: seq<Byte>): (n: nat)
    ensures n <= M * ((|s| + 1) / 2)
    decreases |s|
  {
    if |s| == 0 then 0
    else if |s| == 1 then 256 * s[0]
    else 256 * s[0] + s[1] + WordSum(s[2..])
  }

  /** End-around carry until 16 bits are left. */
  function Fold(x: nat): (r: nat)
    ensures r <= M
    decreases x
  {
    if x < U16 then x else Fold(x % U16 + x / U16)
  }

  /** Folding is the residue modulo 2^16 - 1, with 2^16 - 1 standing for a non-zero multiple. */
  lemma {:induction false} FoldIsResidue(x: nat)
    ensures Fold(x) == if x == 0 then 0 else (x - 1) % M + 1
    decreases x
  {
    if x >= U16 {
      var y := x % U16 + x / U16;
      assert x == y + M * (x / U16);
      ModShift(y - 1, x / U16);
      FoldIsResidue(y);
    }
  }

  lemma {:induction false} ModShift(a: nat, k: nat)
    ensures (a + M * k) % M == a % M
  {
    if k > 0 {
      ModShift(a, k - 1);
      assert (a + M * k) == (a + M * (k - 1)) + M;
    }
  }

  /** A sum and the complement of its fold fold to all ones. */
  lemma FoldComplement(x: nat)
    requires x > 0
    ensures Fold(x + (M - Fold(x))) == M
  {
    hide Fold;
    FoldIsResidue(x);
    FoldIsResidue(x + (M - Fold(x)));
    var q := (x - 1) / M;
    assert x - 1 == M * q + (x - 1) % M;
    assert x + (M - Fold(x)) - 1 == M * q + (M - 1);
    ModShift(M - 1, q);
  }

  const IP_PROTO_ICMP: Byte := 1
  const IP_PROTO_TCP: Byte := 6

  function PseudoSum(saddr: Word32, daddr: Word32, len: nat): nat {
    saddr / U16 + saddr % U16 + daddr / U16 + daddr % U16 + IP_PROTO_TCP + len % U16
  }

  function TcpChecksum(saddr: Word32, daddr: Word32, tcp: seq<Byte>): Word16 {
    M - Fold(PseudoSum(saddr, daddr, |tcp|) + WordSum(tcp))
  }

  /** net_checksum16: little-endian words, an odd last byte counting as a high byte. */
  function NativeSum(s: seq<Byte>): nat
    decreases |s|
  {
    if |s| == 0 then 0
    else if |s| == 1 then 256 * s[0]
    else s[0] + 256 * s[1] + NativeSum(s[2..])
  }

  function NetChecksum(s: seq<Byte>): Word16 {
    M - Fold(NativeSum(s))
  }

  // ---------------------------------------------------------------- segments

  datatype Segment = Segment(sport: Word16, dport: Word16, seqNo: Word32, ack: Word32, flags: Byte, payload: seq<Byte>)

  const WINDOW: Word16 := 16384

  /** The header fields in front of the checksum. */
  function SegmentHead(s: Segment): (b: seq<Byte>)
    ensures |b| == 16
  {
    var sp, dp, q, a := BE16(s.sport), BE16(s.dport), BE32(s.seqNo), BE32(s.ack);
    [sp[0], sp[1], dp[0], dp[1], q[0], q[1], q[2], q[3], a[0], a[1], a[2], a[3], 0x50, s.flags] + BE16(WINDOW)
  }

  /** The segment with checksum field c. */
  function SegmentBytes(s: Segment, c: Word16): (b: seq<Byte>)
    ensures |b| == 20 + |s.payload|
  {
    SegmentHead(s) + BE16(c) + [0, 0] + s.payload
  }

  function TcpBytes(src: Word32, dst: Word32, s: Segment): (b: seq<Byte>)
    ensures |b| == 20 + |s.payload|
  {
    SegmentBytes(s, TcpChecksum(src, dst, SegmentBytes(s, 0)))
  }

  lemma {:induction false} WordSumAppend(a: seq<Byte>, b: seq<Byte>)
    requires |a| % 2 == 0
    ensures WordSum(a + b) == WordSum(a) + WordSum(b)
    decreases |a|
  {
    if |a| == 0 {
      assert a + b == b;
    } else {
      assert (a + b)[2..] == a[2..] + b;
      WordSumAppend(a[2..], b);
    }
  }

  lemma FieldSum(s: Segment, c: Word16)
    ensures WordSum(SegmentBytes(s, c)) == WordSum(SegmentBytes(s, 0)) + c
  {
    var head := SegmentHead(s);
    var tail := [0, 0] + s.payload;
    assert SegmentBytes(s, c) == head + (BE16(c) + tail);
    assert SegmentBytes(s, 0) == head + (BE16(0) + tail);
    WordSumAppend(head, BE16(c) + tail);
    WordSumAppend(head, BE16(0) + tail);
    WordSumAppend(BE16(c), tail);
    WordSumAppend(BE16(0), tail);
    WordSumPair(c);
    WordSumPair(0);
  }

  lemma WordSumPair(c: Word16)
    ensures WordSum(BE16(c)) == c
  {
    assert BE16(c)[2..] == [];
  }

  /** Recomputing the checksum over a finished segment gives 0. */
  lemma ChecksumVerifies(src: Word32, dst: Word32, s: Segment)
    ensures TcpChecksum(src, dst, TcpBytes(src, dst, s)) == 0
  {
    var plain := SegmentBytes(s, 0);
    var x := PseudoSum(src, dst, |plain|) + WordSum(plain);
    var c := TcpChecksum(src, dst, plain);
    FieldSum(s, c);
    FoldComplement(x);
  }

  /** No 32-bit accumulator overflows on a segment of up to 65535 bytes. */
  lemma SumFits(saddr: Word32, daddr: Word32, tcp: seq<Byte>)
    requires |tcp| < U16
    ensures PseudoSum(saddr, daddr, |tcp|) + WordSum(tcp) < U32
  {
  }

  // ---------------------------------------------------------------- datagrams

  function IpHeader(proto: Byte, src: Word32, dst: Word32, total: nat, c: Word16): (b: seq<Byte>)
    ensures |b| == 20
  {
    var t, h, s, d := BE16(total % U16), BE16(c), BE32(src), BE32(dst);
    [0x45, 0, t[0], t[1], 0, 0, 0, 0, 64, proto, h[0], h[1], s[0], s[1], s[2], s[3], d[0], d[1], d[2], d[3]]
  }

  function IpBytes(proto: Byte, src: Word32, dst: Word32, payload: seq<Byte>): (b: seq<Byte>)
    ensures |b| == 20 + |payload|
  {
    var total := 20 + |payload|;
    IpHeader(proto, src, dst, total, NetChecksum(IpHeader(proto, src, dst, total, 0))) + payload
  }

  /** Header length in bytes as the first byte states it. */
  function Ihl(pkt: seq<Byte>): nat
    requires |pkt| >= 1
  {
    pkt[0] % 16 * 4
  }

  predicate IpAccepted(pkt: seq<Byte>) {
    |pkt| >= 20 && Ihl(pkt) >= 20 && |pkt| >= Ihl(pkt)
  }

  datatype Option<T> = None | Some(value: T)

  /** What tcp_ipv4_input makes of a datagram: nothing when it is cut short. */
  function ParseTcp(pkt: seq<Byte>): Option<Segment>
    requires IpAccepted(pkt)
  {
    var ihl := Ihl(pkt);
    if |pkt| < ihl + 20 then None
    else
      var th := pkt[ihl..];
      var off := th[12] / 16 * 4;
      if off < 20 || |th| < off then None
      else Some(Segment(Rd16(th, 0), Rd16(th, 2), Rd32(th, 4), Rd32(th, 8), th[13], th[off..]))
  }

  /** Everything sent parses back to what was sent. */
  lemma SegmentRoundTrip(src: Word32, dst: Word32, s: Segment)
    ensures var pkt := IpBytes(IP_PROTO_TCP, src, dst, TcpBytes(src, dst, s));
            && IpAccepted(pkt) && pkt[9] == IP_PROTO_TCP
            && Rd32(pkt, 12) == src && Rd32(pkt, 16) == dst
            && ParseTcp(pkt) == Some(s)
  {
    hide WordSum, Fold, NativeSum, TcpChecksum, NetChecksum;
    var t := TcpBytes(src, dst, s);
    var pkt := IpBytes(IP_PROTO_TCP, src, dst, t);
    assert pkt[20..] == t;
    assert t[20..] == s.payload;
    SegmentFields(s, TcpChecksum(src, dst, SegmentBytes(s, 0)));
    IpFields(IP_PROTO_TCP, src, dst, t);
  }

  lemma SegmentFields(s: Segment, c: Word16)
    ensures var t := SegmentBytes(s, c);
            && Rd16(t, 0) == s.sport && Rd16(t, 2) == s.dport && Rd32(t, 4) == s.seqNo && Rd32(t, 8) == s.ack
            && t[12] == 0x50 && t[13] == s.flags
  {
    var t, h := SegmentBytes(s, c), SegmentHead(s);
    BERoundTrip(s.sport, s.seqNo);
    BERoundTrip(s.dport, s.ack);
    assert forall i :: 0 <= i < 14 ==> t[i] == h[i];
  }

  lemma IpFields(proto: Byte, src: Word32, dst: Word32, payload: seq<Byte>)
    ensures var pkt := IpBytes(proto, src, dst, payload);
            && pkt[0] == 0x45 && pkt[9] == proto && Rd32(pkt, 12) == src && Rd32(pkt, 16) == dst
  {
    hide NetChecksum;
    BERoundTrip(0, src);
    BERoundTrip(0, dst);
    var total := 20 + |payload|;
    var h := IpHeader(proto, src, dst, total, NetChecksum(IpHeader(proto, src, dst, total, 0)));
    assert forall i :: 0 <= i < 20 ==> IpBytes(proto, src, dst, payload)[i] == h[i];
  }
}
