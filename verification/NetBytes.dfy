/** The network formats byte by byte, and the TCP blocks' arrows: what the functions of the model
    mean without any of their helpers. */
module NetBytes {
  import opened Bytes
  import opened NetWire
  import opened TcpModel
  import opened TcpRuns

  // ---------------------------------------------------------------- checksums

  /** The pseudo-header of section 3.1 of RFC 9293: source, destination, zero, protocol, length. */
  lemma PseudoMeans(src: Word32, dst: Word32, n: nat)
    ensures PseudoSum(src, dst, n) == WordSum(BE32(src) + BE32(dst) + [0, 6] + BE16(n % U16))
  {
    var len := n % U16;
    WordSumAppend(BE32(src) + BE32(dst) + [0, 6], BE16(len));
    WordSumAppend(BE32(src) + BE32(dst), [0, 6]);
    WordSumAppend(BE32(src), BE32(dst));
    LongSum(src);
    LongSum(dst);
    WordSumPair(len);
    WordSumPair(6);
    assert BE16(6) == [0, 6];
  }

  lemma LongSum(v: Word32)
    ensures WordSum(BE32(v)) == v / U16 + v % U16
  {
    LongWords(v);
    hide WordSum, BE16, BE32;
    WordSumAppend(BE16(v / U16), BE16(v % U16));
    WordSumPair(v / U16);
    WordSumPair(v % U16);
  }

  lemma LongWords(v: Word32)
    ensures BE32(v) == BE16(v / U16) + BE16(v % U16)
  {
    var hi, lo := v / 65536, v % 65536;
    HalfBytes(hi, lo);
  }

  lemma HalfBytes(hi: nat, lo: nat)
    requires lo < 65536
    ensures var v := 65536 * hi + lo;
            v / 16777216 == hi / 256 && v / 65536 == hi && v / 256 % 256 == lo / 256 && v % 256 == lo % 256
  {
    var a, b, c, d := hi / 256, hi % 256, lo / 256, lo % 256;
    var v := 65536 * hi + lo;
    assert v == 16777216 * a + (65536 * b + 256 * c + d);
    assert v / 256 == 65536 * a + 256 * b + c;
  }

  /** The TCP checksum is the complement of the folded sum over pseudo-header and segment. */
  lemma TcpChecksumMeans(src: Word32, dst: Word32, tcp: seq<Byte>)
    ensures TcpChecksum(src, dst, tcp) ==
            0xFFFF - Fold(WordSum(BE32(src) + BE32(dst) + [0, 6] + BE16(|tcp| % U16) + tcp))
  {
    hide Fold, PseudoSum, WordSum, BE16, BE32;
    var pseudo := BE32(src) + BE32(dst) + [0, 6] + BE16(|tcp| % U16);
    PseudoMeans(src, dst, |tcp|);
    assert |pseudo| == 12;
    WordSumAppend(pseudo, tcp);
    Complement(src, dst, tcp, WordSum(pseudo + tcp));
  }

  lemma Complement(src: Word32, dst: Word32, tcp: seq<Byte>, sum: nat)
    requires PseudoSum(src, dst, |tcp|) + WordSum(tcp) == sum
    ensures TcpChecksum(src, dst, tcp) == 0xFFFF - Fold(sum)
  {
    hide Fold, PseudoSum, WordSum;
  }

  /** A sum counts the bytes at even places 256-fold, an odd last one included. */
  lemma {:induction false} WordSumAt(s: seq<Byte>, b: Byte)
    ensures WordSum(s + [b]) == WordSum(s) + if |s| % 2 == 0 then 256 * (b as int) else b as int
    decreases |s|
  {
    if |s| >= 2 {
      assert (s + [b])[2..] == s[2..] + [b];
      WordSumAt(s[2..], b);
    } else if |s| == 1 {
      assert (s + [b])[2..] == [];
    }
  }

  /** The byte order law of section 2 of RFC 1071: summing native words gives the same residue with
      its bytes swapped. */
  lemma {:induction false} ByteOrder(s: seq<Byte>)
    requires |s| % 2 == 0
    ensures exists k: int :: 256 * NativeSum(s) == WordSum(s) + 65535 * k
    decreases |s|
  {
    if |s| == 0 {
      assert 256 * NativeSum(s) == WordSum(s) + 65535 * 0;
    } else {
      ByteOrder(s[2..]);
      var k: int :| 256 * NativeSum(s[2..]) == WordSum(s[2..]) + 65535 * k;
      var lo: int, hi: int := s[0], s[1];
      assert 256 * NativeSum(s) == WordSum(s) + 65535 * (k + hi);
    }
  }

  /** The other checksum is the complement of the folded sum of native words; an odd last byte is
      taken for the high one all the same. */
  lemma {:induction false} NativeMeans(s: seq<Byte>, b: Byte)
    ensures NetChecksum(s) == 0xFFFF - Fold(NativeSum(s))
    ensures NativeSum([]) == 0
    ensures |s| % 2 == 0 ==> NativeSum(s + [b]) == NativeSum(s) + 256 * (b as int)
    decreases |s|
  {
    hide Fold;
    if |s| >= 2 {
      assert (s + [b])[2..] == s[2..] + [b];
      NativeMeans(s[2..], b);
    }
  }

  // ---------------------------------------------------------------- layouts

  /** A TCP segment: ports, numbers, header length 20, flags, window 16384, checksum, payload. */
  lemma SegmentLayout(src: Word32, dst: Word32, s: Segment)
    ensures var t, c := TcpBytes(src, dst, s), TcpChecksum(src, dst, SegmentBytes(s, 0));
            && |t| == 20 + |s.payload| && t[20..] == s.payload
            && t[0] == s.sport / 256 && t[1] == s.sport % 256 && t[2] == s.dport / 256 && t[3] == s.dport % 256
            && t[4] == s.seqNo / 16777216 && t[5] == s.seqNo / 65536 % 256 && t[6] == s.seqNo / 256 % 256 && t[7] == s.seqNo % 256
            && t[8] == s.ack / 16777216 && t[9] == s.ack / 65536 % 256 && t[10] == s.ack / 256 % 256 && t[11] == s.ack % 256
            && t[12] == 80 && t[13] == s.flags && t[14] == 64 && t[15] == 0
            && t[16] == c / 256 && t[17] == c % 256 && t[18] == 0 && t[19] == 0
  {
    hide TcpChecksum;
    var c := TcpChecksum(src, dst, SegmentBytes(s, 0));
    var t, h := SegmentBytes(s, c), SegmentHead(s);
    assert t == h + (BE16(c) + [0, 0] + s.payload);
    assert forall i :: 0 <= i < 16 ==> t[i] == h[i];
    assert t[20..] == s.payload;
  }

  /** The segment the checksum is taken over differs in the checksum field only, which is 0. */
  lemma PlainSegment(src: Word32, dst: Word32, s: Segment)
    ensures var t := TcpBytes(src, dst, s); SegmentBytes(s, 0) == t[..16] + [0, 0] + t[18..]
  {
    hide TcpChecksum;
    var c := TcpChecksum(src, dst, SegmentBytes(s, 0));
    assert SegmentBytes(s, c)[..16] == SegmentHead(s) == SegmentBytes(s, 0)[..16];
    assert SegmentBytes(s, c)[18..] == [0, 0] + s.payload == SegmentBytes(s, 0)[18..];
    assert SegmentBytes(s, 0)[16..18] == [0, 0];
  }

  /** An IPv4 datagram: version and header length, total length, time to live 64, protocol,
      checksum, addresses. */
  lemma DatagramLayout(proto: Byte, src: Word32, dst: Word32, payload: seq<Byte>)
    ensures var p := IpBytes(proto, src, dst, payload);
            && |p| == 20 + |payload| && p[20..] == payload
            && p[0] == 0x45 && p[1] == 0 && p[2] == |p| % U16 / 256 && p[3] == |p| % U16 % 256
            && p[4] == p[5] == p[6] == p[7] == 0 && p[8] == 64 && p[9] == proto
            && p[12] == src / 16777216 && p[13] == src / 65536 % 256 && p[14] == src / 256 % 256 && p[15] == src % 256
            && p[16] == dst / 16777216 && p[17] == dst / 65536 % 256 && p[18] == dst / 256 % 256 && p[19] == dst % 256
    ensures var p := IpBytes(proto, src, dst, payload);
            var c := NetChecksum(p[..10] + [0, 0] + p[12..20]);
            p[10] == c / 256 && p[11] == c % 256
  {
    hide NetChecksum;
    var p, total := IpBytes(proto, src, dst, payload), 20 + |payload|;
    var plain := IpHeader(proto, src, dst, total, 0);
    var h := IpHeader(proto, src, dst, total, NetChecksum(plain));
    assert p == h + payload;
    assert p[..20] == h && p[20..] == payload;
    var z := p[..10] + [0, 0] + p[12..20];
    assert |z| == 20 && forall i :: 0 <= i < 20 ==> z[i] == plain[i];
    assert z == plain;
  }

  /** A datagram is looked at when its header is whole: header length in words in the low half of the
      first byte. */
  lemma AcceptedMeans(pkt: seq<Byte>)
    ensures IpAccepted(pkt) <==> |pkt| >= 20 && 5 <= pkt[0] % 16 && 4 * (pkt[0] % 16) as int <= |pkt|
  {
  }

  /** A received segment is taken when its header, the length in words in the upper half of byte 12,
      is whole; the fields stand where they are sent, high byte first. */
  lemma ParseMeans(pkt: seq<Byte>, i: nat, off: nat)
    requires IpAccepted(pkt) && i == 4 * (pkt[0] % 16) as int
    requires i + 20 <= |pkt| ==> off == 4 * (pkt[i + 12] / 16) as int
    ensures ParseTcp(pkt).Some? <==> i + 20 <= |pkt| && 20 <= off && i + off <= |pkt|
    ensures ParseTcp(pkt).Some? ==>
              var s := ParseTcp(pkt).value;
              var b0: int, b1: int, b2: int, b3: int := pkt[i], pkt[i + 1], pkt[i + 2], pkt[i + 3];
              var b4: int, b5: int, b6: int, b7: int := pkt[i + 4], pkt[i + 5], pkt[i + 6], pkt[i + 7];
              var b8: int, b9: int, b10: int, b11: int := pkt[i + 8], pkt[i + 9], pkt[i + 10], pkt[i + 11];
              && s.sport == 256 * b0 + b1 && s.dport == 256 * b2 + b3
              && s.seqNo == 16777216 * b4 + 65536 * b5 + 256 * b6 + b7
              && s.ack == 16777216 * b8 + 65536 * b9 + 256 * b10 + b11
              && s.flags == pkt[i + 13] && s.payload == pkt[i + off..]
  {
    if i + 20 <= |pkt| {
      var th := pkt[i..];
      assert forall k :: 0 <= k < 20 ==> th[k] == pkt[i + k];
      if off <= |th| { assert th[off..] == pkt[i + off..]; }
    }
  }

  // ---------------------------------------------------------------- ICMP

  /** An echo reply goes back to the sender: addresses swapped, type 0, everything behind the ICMP
      checksum as it came, and the ICMP checksum taken with its field zero. */
  lemma EchoMeans(pkt: Packet, i: nat)
    requires IpAccepted(pkt) && i == 4 * (pkt[0] % 16) as int && |pkt| >= i + 8
    ensures var r := EchoReply(pkt);
            && |r| == 20 + |pkt| - i && r[0] == 0x45 && r[9] == 1
            && r[12..16] == pkt[16..20] && r[16..20] == pkt[12..16]
            && r[20] == 0 && r[21] == pkt[i + 1] && r[24..] == pkt[i + 4..]
            && var c := NetChecksum([0, pkt[i + 1], 0, 0] + pkt[i + 4..]); r[22] == c / 256 && r[23] == c % 256
  {
    hide NetChecksum;
    var icmp := pkt[i..];
    assert icmp[4..] == pkt[i + 4..] && icmp[1] == pkt[i + 1];
    var c := NetChecksum([0, icmp[1], 0, 0] + icmp[4..]);
    var body: seq<Byte> := [0, icmp[1], c / 256, c % 256] + icmp[4..];
    DatagramLayout(1, Rd32(pkt, 16), Rd32(pkt, 12), body);
    AddressBytes(pkt, 12);
    AddressBytes(pkt, 16);
    hide IpBytes;
    var r := IpBytes(1, Rd32(pkt, 16), Rd32(pkt, 12), body);
    assert r == EchoReply(pkt);
    assert r[20] == body[0] && r[21] == body[1] && r[22] == body[2] && r[23] == body[3];
    assert r[24..] == r[20..][4..] == body[4..] == icmp[4..];
    assert r[12..16] == [r[12], r[13], r[14], r[15]] && r[16..20] == [r[16], r[17], r[18], r[19]];
    assert pkt[12..16] == [pkt[12], pkt[13], pkt[14], pkt[15]] && pkt[16..20] == [pkt[16], pkt[17], pkt[18], pkt[19]];
  }

  lemma AddressBytes(pkt: Packet, at: nat)
    requires at + 4 <= |pkt|
    ensures var v := Rd32(pkt, at);
            v / 16777216 == pkt[at] && v / 65536 % 256 == pkt[at + 1] && v / 256 % 256 == pkt[at + 2] && v % 256 == pkt[at + 3]
  {
    var b0: int, b1: int, b2: int, b3: int := pkt[at], pkt[at + 1], pkt[at + 2], pkt[at + 3];
    var v: int := Rd32(pkt, at);
    DivMod(v, 16777216, b0, 65536 * b1 + 256 * b2 + b3);
    DivMod(v, 65536, 256 * b0 + b1, 256 * b2 + b3);
    DivMod(256 * b0 + b1, 256, b0, b1);
    DivMod(v, 256, 65536 * b0 + 256 * b1 + b2, b3);
    DivMod(65536 * b0 + 256 * b1 + b2, 256, 256 * b0 + b1, b2);
  }

  /** ICMP: replies are counted, requests of up to 576 bytes with their IP header are answered, and
      nothing else happens. */
  lemma IcmpMeans(n: Net, pkt: Packet, i: nat)
    requires IpAccepted(pkt) && i == 4 * (pkt[0] % 16) as int
    ensures var m := IcmpInput(n, pkt);
            && m.srv == n.srv && m.cli == n.cli
            && m.echoReplies == n.echoReplies + (if |pkt| >= i + 8 && pkt[i] == 0 then 1 else 0)
            && m.queue == if |pkt| >= i + 8 && pkt[i] == 8 && 20 + |pkt| - i <= 576 && |n.queue| < 15
                          then n.queue + [EchoReply(pkt)] else n.queue
  {
    hide EchoReply;
  }

  // ---------------------------------------------------------------- the queue and the blocks

  /** A packet is queued unless it is empty, longer than 2048 bytes, or the ring holds 15. */
  lemma EmitMeans(q: seq<Packet>, proto: Byte, src: Word32, dst: Word32, payload: seq<Byte>)
    ensures Emit(q, proto, src, dst, payload) ==
            if 20 + |payload| <= 2048 && |q| < 15 then q + [IpBytes(proto, src, dst, payload)] else q
  {
    hide IpBytes;
  }

  /** The server goes from LISTEN on a SYN without ACK, from SYN_RCVD on an ACK without SYN that
      acknowledges its number, and from ESTABLISHED to CLOSED on a push, all on port 80; the client,
      on port 49152, from SYN_SENT on SYN and ACK, and from ESTABLISHED to CLOSED on a FIN without
      push. Every other segment leaves the states alone. */
  lemma TcpArrows(srv: Block, cli: Block, src: Word32, dst: Word32, s: Segment, resp: seq<Byte>)
    ensures var o, f := TcpInput(srv, cli, src, dst, s, resp), s.flags;
            && o.srv.state ==
               (if s.dport == 80 && srv.state.Listen? && f / 2 % 2 == 1 && f / 16 % 2 == 0 then SynRcvd
                else if && s.dport == 80 && srv.state.SynRcvd? && f / 16 % 2 == 1 && f / 2 % 2 == 0
                        && s.ack == (srv.iss + 1) % U32 then Established
                else if s.dport == 80 && srv.state.Established? && f / 8 % 2 == 1 then Closed
                else srv.state)
            && o.cli.state ==
               (if s.dport == 49152 && cli.state.SynSent? && f / 2 % 2 == 1 && f / 16 % 2 == 1 then Established
                else if s.dport == 49152 && cli.state.Established? && f / 8 % 2 == 0 && f % 2 == 1 then Closed
                else cli.state)
  {
  }

  /** Received data: pushed segments on the established client are appended while they fit below 4096
      bytes; the server's buffer is never filled. */
  lemma TcpReceives(srv: Block, cli: Block, src: Word32, dst: Word32, s: Segment, resp: seq<Byte>)
    ensures var o := TcpInput(srv, cli, src, dst, s, resp);
            && o.srv.rx == srv.rx
            && o.cli.rx == if s.dport == 49152 && cli.state.Established? && s.flags / 8 % 2 == 1 && |s.payload| + |cli.rx| < 4096
                           then cli.rx + s.payload else cli.rx
  {
  }

  /** What is answered, always with source and destination exchanged and to the sender's port: a
      SYN and ACK with number 50000, an acknowledgement, or, to a request, an acknowledgement and
      the response. */
  lemma TcpAnswers(srv: Block, cli: Block, src: Word32, dst: Word32, s: Segment, resp: seq<Byte>)
    ensures var o, f := TcpInput(srv, cli, src, dst, s, resp), s.flags;
            var after := (s.seqNo + |s.payload|) % U32;
            o.out ==
            if s.dport == 80 && srv.state.Listen? && f / 2 % 2 == 1 && f / 16 % 2 == 0 then
              [Sent(dst, src, Segment(80, s.sport, 50000, (s.seqNo + 1) % U32, 18, []))]
            else if s.dport == 80 && srv.state.Established? && f / 8 % 2 == 1 then
              [Sent(dst, src, Segment(80, s.sport, srv.sndNxt, after, 16, [])),
               Sent(dst, src, Segment(80, s.sport, srv.sndNxt, after, 24, resp))]
            else if s.dport == 49152 && cli.state.SynSent? && f / 2 % 2 == 1 && f / 16 % 2 == 1 then
              [Sent(dst, src, Segment(49152, s.sport, s.ack, (s.seqNo + 1) % U32, 16, []))]
            else if s.dport == 49152 && cli.state.Established? && f / 8 % 2 == 1 then
              [Sent(dst, src, Segment(49152, s.sport, cli.sndNxt, after, 16, []))]
            else []
  {
  }

  /** The numbers the blocks keep: what is expected next, and what is sent next. */
  lemma TcpNumbers(srv: Block, cli: Block, src: Word32, dst: Word32, s: Segment, resp: seq<Byte>)
    ensures var o, f := TcpInput(srv, cli, src, dst, s, resp), s.flags;
            && (srv.state.Listen? && o.srv.state.SynRcvd? ==>
                  && o.srv.rcvNxt == (s.seqNo + 1) % U32 && o.srv.iss == o.srv.sndUna == 50000 && o.srv.sndNxt == 50001
                  && o.srv.remoteIp == src && o.srv.remotePort == s.sport)
            && (srv.state.SynRcvd? && o.srv.state.Established? ==>
                  o.srv == srv.(state := Established, rcvNxt := (s.seqNo + 1) % U32))
            && (srv.state.Established? && o.srv.state.Closed? ==>
                  && o.srv.rcvNxt == (s.seqNo + |s.payload|) % U32 && o.srv.sndNxt == (srv.sndNxt + |resp|) % U32)
            && (o.srv.state == srv.state ==> o.srv == srv)
            && (cli.state.SynSent? && o.cli.state.Established? ==>
                  o.cli == cli.(state := Established, rcvNxt := (s.seqNo + 1) % U32, sndNxt := s.ack))
            && (cli.state.Established? && o.cli.state.Closed? ==> o.cli == cli.(state := Closed))
            && (o.cli.state == cli.state ==>
                  o.cli == if cli.state.Established? && s.dport == 49152 && f / 8 % 2 == 1
                           then cli.(rx := o.cli.rx, rcvNxt := (s.seqNo + |s.payload|) % U32) else cli)
  {
  }

  /** A connect resets both ends and sends a SYN with number 10000 from port 49152 to port 80. */
  lemma ConnectMeans(n: Net, ip: Word32)
    ensures var m := Connect(n, ip);
            && m.srv == n.srv.(state := Listen, rx := []) && m.echoReplies == n.echoReplies
            && m.cli.state.SynSent? && m.cli.rx == []
            && m.cli.localPort == 49152 && m.cli.remotePort == 80 && m.cli.remoteIp == ip
            && m.cli.iss == m.cli.sndUna == 10000 && m.cli.sndNxt == 10001 && m.cli.rcvNxt == n.cli.rcvNxt
            && m.queue == if |n.queue| < 15
                          then n.queue + [Wire(Sent(0x7F00_0001, 0x7F00_0001, Segment(49152, 80, 10000, 0, 2, [])))] else n.queue
  {
    hide IpBytes, TcpBytes;
    OneSent(n.queue, Sent(LOOPBACK, LOOPBACK, Segment(CLI_PORT, SRV_PORT, CLI_ISS, 0, SYN, [])));
  }

  /** A request goes out with ACK and PSH as soon as the client is established. */
  lemma RequestMeans(n: Net, data: seq<Byte>)
    requires |data| <= MAX_DATA
    ensures var m := Request(n, data);
            if !n.cli.state.Established? then m == n
            else && m == n.(cli := n.cli.(sndNxt := (n.cli.sndNxt + |data|) % U32), queue := m.queue)
                 && m.queue == if |n.queue| < 15
                               then n.queue + [Wire(Sent(0x7F00_0001, 0x7F00_0001,
                                                         Segment(49152, 80, n.cli.sndNxt, n.cli.rcvNxt, 24, data)))] else n.queue
  {
    hide IpBytes, TcpBytes;
    OneSent(n.queue, Sent(LOOPBACK, LOOPBACK, Segment(CLI_PORT, SRV_PORT, n.cli.sndNxt, n.cli.rcvNxt, ACK + PSH, data)));
  }

  lemma OneSent(q: seq<Packet>, x: Sent)
    requires |x.seg.payload| <= MAX_DATA
    ensures EmitAll(q, [x]) == if |q| < 15 then q + [Wire(x)] else q
  {
    hide IpBytes, TcpBytes;
    EmitMeans(q, IP_PROTO_TCP, x.src, x.dst, TcpBytes(x.src, x.dst, x.seg));
    assert EmitAll(Emit(q, IP_PROTO_TCP, x.src, x.dst, TcpBytes(x.src, x.dst, x.seg)), [x][1..])
        == Emit(q, IP_PROTO_TCP, x.src, x.dst, TcpBytes(x.src, x.dst, x.seg));
  }
}
