/** net_tcp.c and net_ipv4.c as a step system on values: two control blocks, a bounded packet
    queue and what one received datagram does to them. */
module TcpModel {
  import opened Bytes
  import opened NetWire

  const FIN: Byte := 0x01
  const SYN: Byte := 0x02
  const PSH: Byte := 0x08
  const ACK: Byte := 0x10

  const SRV_PORT: Word16 := 80
  const CLI_PORT: Word16 := 49152
  const LOOPBACK: Word32 := 0x7F00_0001
  const RX_SIZE: nat := 4096
  const SRV_ISS: Word32 := 50000
  const CLI_ISS: Word32 := 10000

  /** Most packets the ring can hold, and the largest datagram. */
  const RING: nat := 15
  const MTU: nat := 2048

  datatype State = Closed | Listen | SynSent | SynRcvd | Established

  datatype Block = Block(state: State, localPort: Word16, remoteIp: Word32, remotePort: Word16,
                         sndUna: Word32, sndNxt: Word32, iss: Word32, rcvNxt: Word32, rx: seq<Byte>)

  /** fl & bit for a single-bit mask. */
  predicate Has(fl: Byte, bit: Byte)
    requires bit > 0
  {
    fl / bit % 2 == 1
  }

  function Add32(a: Word32, n: nat): Word32 {
    (a + n) % 0x1_0000_0000
  }

  datatype Sent = Sent(src: Word32, dst: Word32, seg: Segment)

  datatype Outcome = Outcome(srv: Block, cli: Block, out: seq<Sent>)

  /** tcp_ipv4_input on a well-formed segment: the first branch that applies. */
  function TcpInput(srv: Block, cli: Block, src: Word32, dst: Word32, s: Segment, resp: seq<Byte>): Outcome {
    var fl := s.flags;
    if s.dport == SRV_PORT && srv.state.Listen? && Has(fl, SYN) && !Has(fl, ACK) then
      var srv1 := srv.(state := SynRcvd, remoteIp := src, remotePort := s.sport, rcvNxt := Add32(s.seqNo, 1),
                       iss := SRV_ISS, sndUna := SRV_ISS, sndNxt := Add32(SRV_ISS, 1));
      Outcome(srv1, cli, [Sent(dst, src, Segment(SRV_PORT, s.sport, SRV_ISS, srv1.rcvNxt, SYN + ACK, []))])
    else if s.dport == SRV_PORT && srv.state.SynRcvd? && Has(fl, ACK) && !Has(fl, SYN) then
      if s.ack == Add32(srv.iss, 1) then Outcome(srv.(state := Established, rcvNxt := Add32(s.seqNo, 1)), cli, [])
      else Outcome(srv, cli, [])
    else if s.dport == SRV_PORT && srv.state.Established? && Has(fl, PSH) then
      var rcv := Add32(s.seqNo, |s.payload|);
      Outcome(srv.(state := Closed, rcvNxt := rcv, sndNxt := Add32(srv.sndNxt, |resp|)), cli,
              [Sent(dst, src, Segment(SRV_PORT, s.sport, srv.sndNxt, rcv, ACK, [])),
               Sent(dst, src, Segment(SRV_PORT, s.sport, srv.sndNxt, rcv, ACK + PSH, resp))])
    else if s.dport == CLI_PORT && cli.state.SynSent? && Has(fl, SYN) && Has(fl, ACK) then
      var cli1 := cli.(state := Established, rcvNxt := Add32(s.seqNo, 1), sndNxt := s.ack);
      Outcome(srv, cli1, [Sent(dst, src, Segment(CLI_PORT, s.sport, cli1.sndNxt, cli1.rcvNxt, ACK, []))])
    else if s.dport == CLI_PORT && cli.state.Established? && Has(fl, PSH) then
      var rx := if |s.payload| + |cli.rx| < RX_SIZE then cli.rx + s.payload else cli.rx;
      var cli1 := cli.(rx := rx, rcvNxt := Add32(s.seqNo, |s.payload|));
      Outcome(srv, cli1, [Sent(dst, src, Segment(CLI_PORT, s.sport, cli1.sndNxt, cli1.rcvNxt, ACK, []))])
    else if s.dport == CLI_PORT && Has(fl, FIN) && cli.state.Established? then
      Outcome(srv, cli.(state := Closed), [])
    else Outcome(srv, cli, [])
  }

  // ---------------------------------------------------------------- the queue

  type Packet = seq<Byte>

  /** loopback_xmit: empty and oversized packets are ignored, a full ring drops. */
  function Xmit(q: seq<Packet>, p: Packet): seq<Packet> {
    if 0 < |p| <= MTU && |q| < RING then q + [p] else q
  }

  function Emit(q: seq<Packet>, proto: Byte, src: Word32, dst: Word32, payload: seq<Byte>): seq<Packet> {
    if 20 + |payload| > MTU then q else Xmit(q, IpBytes(proto, src, dst, payload))
  }

  function Wire(x: Sent): Packet {
    IpBytes(IP_PROTO_TCP, x.src, x.dst, TcpBytes(x.src, x.dst, x.seg))
  }

  function EmitAll(q: seq<Packet>, out: seq<Sent>): seq<Packet>
    decreases |out|
  {
    if |out| == 0 then q
    else EmitAll(Emit(q, IP_PROTO_TCP, out[0].src, out[0].dst, TcpBytes(out[0].src, out[0].dst, out[0].seg)), out[1..])
  }

  // ---------------------------------------------------------------- one datagram

  datatype Net = Net(srv: Block, cli: Block, echoReplies: nat, queue: seq<Packet>)

  const ICMP_ECHO: Byte := 8
  const ICMP_BUF: nat := 576

  /** The echo reply: addresses swapped, type 0, both checksums recomputed. */
  function EchoReply(pkt: Packet): (r: Packet)
    requires IpAccepted(pkt) && |pkt| >= Ihl(pkt) + 8
    ensures |r| == 20 + |pkt| - Ihl(pkt)
  {
    var icmp := pkt[Ihl(pkt)..];
    var blank := [0, icmp[1], 0, 0] + icmp[4..];
    var c := BE16(NetChecksum(blank));
    IpBytes(IP_PROTO_ICMP, Rd32(pkt, 16), Rd32(pkt, 12), [0, icmp[1], c[0], c[1]] + icmp[4..])
  }

  function IcmpInput(n: Net, pkt: Packet): Net
    requires IpAccepted(pkt)
  {
    if |pkt| < Ihl(pkt) + 8 then n
    else if pkt[Ihl(pkt)] == 0 then n.(echoReplies := n.echoReplies + 1)
    else if pkt[Ihl(pkt)] != ICMP_ECHO then n
    else if ICMP_BUF < 20 + |pkt| - Ihl(pkt) then n
    else n.(queue := Xmit(n.queue, EchoReply(pkt)))
  }

  function TcpDatagram(n: Net, pkt: Packet, resp: seq<Byte>): Net
    requires IpAccepted(pkt)
  {
    match ParseTcp(pkt)
    case None => n
    case Some(s) =>
      var o := TcpInput(n.srv, n.cli, Rd32(pkt, 12), Rd32(pkt, 16), s, resp);
      Net(o.srv, o.cli, n.echoReplies, EmitAll(n.queue, o.out))
  }

  /** ipv4_input. */
  function IpInput(n: Net, pkt: Packet, resp: seq<Byte>): Net {
    if !IpAccepted(pkt) then n
    else if pkt[9] == IP_PROTO_ICMP then IcmpInput(n, pkt)
    else if pkt[9] == IP_PROTO_TCP then TcpDatagram(n, pkt, resp)
    else n
  }

  /** One round of net_poll. */
  function Deliver(n: Net, resp: seq<Byte>): Net
    requires |n.queue| > 0
  {
    IpInput(n.(queue := n.queue[1..]), n.queue[0], resp)
  }

  // ---------------------------------------------------------------- the drain loop terminates

  function SegmentWeight(s: Segment): nat {
    if Has(s.flags, PSH) || (Has(s.flags, SYN) && Has(s.flags, ACK)) then 2 else 1
  }

  /** How many more packets a packet may still cause, itself included. */
  function PacketWeight(pkt: Packet): (w: nat)
    ensures 1 <= w <= 2
  {
    if !IpAccepted(pkt) then 1
    else if pkt[9] == IP_PROTO_ICMP then
      if |pkt| >= Ihl(pkt) + 8 && pkt[Ihl(pkt)] == ICMP_ECHO then 2 else 1
    else if pkt[9] == IP_PROTO_TCP then
      match ParseTcp(pkt) case None => 1 case Some(s) => SegmentWeight(s)
    else 1
  }

  function QueueWeight(q: seq<Packet>): nat {
    if |q| == 0 then 0 else QueueWeight(q[..|q| - 1]) + PacketWeight(q[|q| - 1])
  }

  /** What the server may still add on top. */
  function ServerBonus(s: State): nat {
    match s
    case Listen => 4
    case SynRcvd => 2
    case Established => 2
    case _ => 0
  }

  function Weight(n: Net): nat {
    QueueWeight(n.queue) + ServerBonus(n.srv.state)
  }

  lemma {:induction false} QueueWeightHead(q: seq<Packet>)
    requires |q| > 0
    ensures QueueWeight(q) == PacketWeight(q[0]) + QueueWeight(q[1..])
    decreases |q|
  {
    if |q| > 1 {
      QueueWeightHead(q[..|q| - 1]);
      assert q[..|q| - 1][1..] == q[1..][..|q| - 2];
      assert q[1..][|q| - 2] == q[|q| - 1];
    }
  }

  lemma XmitWeight(q: seq<Packet>, p: Packet)
    ensures QueueWeight(Xmit(q, p)) <= QueueWeight(q) + PacketWeight(p)
  {
    assert (q + [p])[..|q|] == q;
  }

  lemma WireWeight(x: Sent)
    ensures PacketWeight(Wire(x)) == SegmentWeight(x.seg)
  {
    hide TcpBytes, IpBytes;
    SegmentRoundTrip(x.src, x.dst, x.seg);
  }

  lemma EmitAllWeight(q: seq<Packet>, out: seq<Sent>)
    requires |out| <= 2
    ensures QueueWeight(EmitAll(q, out)) <= QueueWeight(q) + (if |out| > 0 then SegmentWeight(out[0].seg) else 0)
                                            + (if |out| > 1 then SegmentWeight(out[1].seg) else 0)
  {
    hide QueueWeight, PacketWeight, TcpBytes, IpBytes, SegmentWeight;
    if |out| > 0 {
      var q1 := Emit(q, IP_PROTO_TCP, out[0].src, out[0].dst, TcpBytes(out[0].src, out[0].dst, out[0].seg));
      EmitOneWeight(q, out[0]);
      assert EmitAll(q, out) == EmitAll(q1, out[1..]);
      if |out| > 1 {
        var q2 := Emit(q1, IP_PROTO_TCP, out[1].src, out[1].dst, TcpBytes(out[1].src, out[1].dst, out[1].seg));
        EmitOneWeight(q1, out[1]);
        assert EmitAll(q1, out[1..]) == EmitAll(q2, out[1..][1..]);
      }
    }
  }

  lemma EmitOneWeight(q: seq<Packet>, x: Sent)
    ensures QueueWeight(Emit(q, IP_PROTO_TCP, x.src, x.dst, TcpBytes(x.src, x.dst, x.seg))) <= QueueWeight(q) + SegmentWeight(x.seg)
  {
    WireWeight(x);
    XmitWeight(q, Wire(x));
  }

  lemma FlagBits()
    ensures !Has(ACK, PSH) && !Has(ACK, SYN) && Has(SYN + ACK, SYN) && Has(SYN + ACK, ACK) && Has(ACK + PSH, PSH) && !Has(SYN, ACK)
    ensures Has(ACK + PSH, ACK) && !Has(ACK + PSH, SYN) && Has(SYN, SYN) && !Has(SYN, PSH) && Has(ACK, ACK)
    ensures !Has(ACK, FIN) && !Has(SYN + ACK, PSH) && !Has(ACK + PSH, FIN) && !Has(SYN + ACK, FIN) && !Has(SYN, FIN)
  {
  }

  /** Every datagram in every state, stray flags included, makes the measure smaller. */
  lemma DeliverDecreases(n: Net, resp: seq<Byte>)
    requires |n.queue| > 0
    ensures Weight(Deliver(n, resp)) < Weight(n)
  {
    hide QueueWeight, TcpBytes, IpBytes, EmitAll, Has, NetChecksum;
    var pkt, rest := n.queue[0], n.queue[1..];
    QueueWeightHead(n.queue);
    if IpAccepted(pkt) {
      if pkt[9] == IP_PROTO_ICMP {
        if |pkt| >= Ihl(pkt) + 8 && pkt[Ihl(pkt)] == ICMP_ECHO && ICMP_BUF >= 20 + |pkt| - Ihl(pkt) {
          EchoReplyWeight(pkt);
          XmitWeight(rest, EchoReply(pkt));
        }
      } else if pkt[9] == IP_PROTO_TCP && ParseTcp(pkt).Some? {
        var o := TcpInput(n.srv, n.cli, Rd32(pkt, 12), Rd32(pkt, 16), ParseTcp(pkt).value, resp);
        FlagBits();
        EmitAllWeight(rest, o.out);
      }
    }
  }

  lemma EchoReplyWeight(pkt: Packet)
    requires IpAccepted(pkt) && |pkt| >= Ihl(pkt) + 8
    ensures PacketWeight(EchoReply(pkt)) == 1
  {
    hide NetChecksum;
    var icmp := pkt[Ihl(pkt)..];
    var blank := [0, icmp[1], 0, 0] + icmp[4..];
    var c := BE16(NetChecksum(blank));
    var body := [0, icmp[1], c[0], c[1]] + icmp[4..];
    var r := IpBytes(IP_PROTO_ICMP, Rd32(pkt, 16), Rd32(pkt, 12), body);
    IpFields(IP_PROTO_ICMP, Rd32(pkt, 16), Rd32(pkt, 12), body);
    assert r[20..] == body;
    assert r[20] == body[0] == 0;
  }

  /** net_poll as a function: deliver until the queue is empty. */
  function Drain(n: Net, resp: seq<Byte>): (r: Net)
    ensures r.queue == []
    decreases Weight(n)
  {
    if |n.queue| == 0 then n else DeliverDecreases(n, resp); Drain(Deliver(n, resp), resp)
  }
}
