/** The network code as it runs: control blocks and the packet ring updated in place, segments
    and datagrams filled into buffers. Every method is tied to the functions of TcpModel. */
module NetStack {
  import opened Bytes
  import opened NetWire
  import opened TcpModel
  import opened TcpRuns
  import opened LoopbackRing

  class Tcb {
    var state: State
    var localPort: Word16
    var remoteIp: Word32
    var remotePort: Word16
    var sndUna: Word32
    var sndNxt: Word32
    var iss: Word32
    var rcvNxt: Word32
    const rx: array<Byte>
    var rxLen: nat

    ghost predicate Valid()
      reads this
    {
      rx.Length == RX_SIZE && rxLen <= RX_SIZE
    }

    ghost function Val(): Block
      requires Valid()
      reads this, rx
    {
      Block(state, localPort, remoteIp, remotePort, sndUna, sndNxt, iss, rcvNxt, rx[..rxLen])
    }

    constructor ()
      ensures Valid() && state == Closed && rxLen == 0 && fresh(rx)
    {
      state, localPort, remoteIp, remotePort := Closed, 0, 0, 0;
      sndUna, sndNxt, iss, rcvNxt, rxLen := 0, 0, 0, 0, 0;
      rx := new Byte[RX_SIZE](_ => 0);
    }
  }

  /** wr16 of net_tcp.c. */
  method Wr16(p: array<Byte>, at: nat, v: Word16)
    requires at + 2 <= p.Length
    modifies p
    ensures p[at] == BE16(v)[0] && p[at + 1] == BE16(v)[1]
    ensures forall i :: 0 <= i < p.Length && !(at <= i < at + 2) ==> p[i] == old(p[i])
  {
    p[at], p[at + 1] := v / 256, v % 256;
  }

  method Wr32(p: array<Byte>, at: nat, v: Word32)
    requires at + 4 <= p.Length
    modifies p
    ensures p[at] == BE32(v)[0] && p[at + 1] == BE32(v)[1] && p[at + 2] == BE32(v)[2] && p[at + 3] == BE32(v)[3]
    ensures forall i :: 0 <= i < p.Length && !(at <= i < at + 4) ==> p[i] == old(p[i])
  {
    p[at], p[at + 1], p[at + 2], p[at + 3] := v / 0x100_0000, v / 0x1_0000 % 256, v / 256 % 256, v % 256;
  }

  /** The carry loop at the end of both checksums. */
  method FoldSum(sum: nat) returns (r: nat)
    ensures r == Fold(sum)
  {
    r := sum;
    while r >= U16
      invariant Fold(r) == Fold(sum)
      decreases r
    {
      r := r % U16 + r / U16;
    }
  }

  function Rest(s: seq<Byte>, i: nat): seq<Byte> {
    if i <= |s| then s[i..] else []
  }

  /** One round of the word loop. */
  lemma WordSumStep(s: seq<Byte>, i: nat)
    ensures i < |s| ==>
              var hi: int := s[i];
              var lo: int := if i + 1 < |s| then s[i + 1] else 0;
              WordSum(Rest(s, i)) == 256 * hi + lo + WordSum(Rest(s, i + 2))
    ensures i >= |s| ==> WordSum(Rest(s, i)) == 0
  {
    if i + 1 < |s| {
      assert s[i..][2..] == s[i + 2..];
    }
  }

  /** The accumulator loop; the 32-bit sum never wraps. */
  method AddWords(start: nat, tcp: seq<Byte>) returns (sum: nat)
    requires start + WordSum(tcp) < U32
    ensures sum == start + WordSum(tcp)
  {
    hide WordSum;
    sum := start;
    var i: nat := 0;
    assert tcp[0..] == tcp;
    while i < |tcp|
      invariant i % 2 == 0 && sum + WordSum(Rest(tcp, i)) == start + WordSum(tcp) < U32
    {
      var w: int;
      WordSumStep(tcp, i);
      var hi: int := tcp[i];
      if i + 1 < |tcp| {
        var lo: int := tcp[i + 1];
        w := 256 * hi + lo;
      } else {
        w := 256 * hi;
      }
      assert sum + w < U32;
      sum := sum + w;
      i := i + 2;
    }
    WordSumStep(tcp, i);
  }

  /** tcp_cksum: no addition exceeds 32 bits. */
  method TcpCksum(saddr: Word32, daddr: Word32, tcp: seq<Byte>) returns (r: Word16)
    requires |tcp| < U16
    ensures r == TcpChecksum(saddr, daddr, tcp)
  {
    hide Fold, WordSum;
    var sum: int := saddr / U16 + saddr % U16;
    sum := sum + daddr / U16 + daddr % U16;
    sum := sum + IP_PROTO_TCP;
    sum := sum + |tcp| % U16;
    SumFits(saddr, daddr, tcp);
    sum := AddWords(sum, tcp);
    var folded := FoldSum(sum);
    return M - folded;
  }

  /** net_checksum16. */
  method NetChecksum16(data: seq<Byte>) returns (r: Word16)
    ensures r == NetChecksum(data)
  {
    var sum: int := 0;
    var p := 0;
    assert data[0..] == data;
    while |data| - p > 1
      invariant 0 <= p <= |data| && 0 <= sum && sum + NativeSum(data[p..]) == NativeSum(data)
    {
      var lo: int, hi: int := data[p], data[p + 1];
      assert data[p..][2..] == data[p + 2..];
      sum := sum + lo + 256 * hi;
      p := p + 2;
    }
    if p < |data| {
      var last: int := data[p];
      sum := sum + 256 * last;
    }
    var folded := FoldSum(sum);
    return M - folded;
  }

  /** Fills the header and the data of a segment into a fresh buffer, checksum field 0. */
  method FillSegment(sport: Word16, dport: Word16, seqNo: Word32, ack: Word32, flags: Byte, data: seq<Byte>)
    returns (seg: array<Byte>)
    requires |data| <= MAX_DATA
    ensures fresh(seg) && seg.Length == 1280
    ensures seg[..20 + |data|] == SegmentBytes(Segment(sport, dport, seqNo, ack, flags, data), 0)
  {
    hide SegmentHead, BE16;
    seg := new Byte[1280](_ => 0);
    ghost var s := Segment(sport, dport, seqNo, ack, flags, data);
    FillTcpHeader(seg, s, sport, dport, seqNo, ack, flags);
    FillPayload(seg, data);
    ZeroField();
  }

  method FillTcpHeader(seg: array<Byte>, ghost s: Segment, sport: Word16, dport: Word16, seqNo: Word32, ack: Word32, flags: Byte)
    requires seg.Length >= 20
    requires s == Segment(sport, dport, seqNo, ack, flags, s.payload)
    modifies seg
    ensures seg[..20] == SegmentHead(s) + BE16(0) + [0, 0]
  {
    hide BE16, BE32;
    Wr16(seg, 0, sport);
    Wr16(seg, 2, dport);
    Wr32(seg, 4, seqNo);
    Wr32(seg, 8, ack);
    seg[12] := 0x50;
    seg[13] := flags;
    Wr16(seg, 14, WINDOW);
    Wr16(seg, 16, 0);
    Wr16(seg, 18, 0);
    ZeroField();
    assert seg[..14] == SegmentHead(s)[..14];
    assert seg[14..16] == BE16(WINDOW);
    assert seg[16..20] == BE16(0) + [0, 0];
    assert seg[..20] == seg[..14] + seg[14..16] + seg[16..20];
  }

  lemma ZeroField()
    ensures BE16(0) == [0, 0]
  {
  }

  /** The data loop shared by segments and datagrams: data behind a 20-byte header. */
  method FillPayload(p: array<Byte>, data: seq<Byte>)
    requires 20 + |data| <= p.Length
    modifies p
    ensures p[..20 + |data|] == old(p[..20]) + data
  {
    for i := 0 to |data|
      invariant forall j :: 0 <= j < 20 ==> p[j] == old(p[j])
      invariant forall j :: 0 <= j < i ==> p[20 + j] == data[j]
    {
      p[20 + i] := data[i];
    }
  }

  class Stack {
    const srv: Tcb
    const cli: Tcb
    const lb: Loopback
    const resp: seq<Byte>
    var echoReplies: nat

    ghost predicate Valid()
      reads this, srv, cli, lb, lb.buf, lb.len
    {
      && srv.Valid() && cli.Valid() && lb.Valid()
      && srv != cli && srv.rx != cli.rx && srv.rx as object != lb.len && cli.rx as object != lb.len
      && srv.rx as object != lb.buf && cli.rx as object != lb.buf && lb.len as object != lb.buf
      && |resp| <= MAX_DATA
    }

    ghost function Abs(): Net
      requires Valid()
      reads this, srv, cli, srv.rx, cli.rx, lb, lb.buf, lb.len
    {
      Net(srv.Val(), cli.Val(), echoReplies, lb.queue)
    }

    constructor (response: seq<Byte>)
      requires |response| <= MAX_DATA
      ensures Valid() && resp == response && lb.queue == []
      ensures Abs().srv.state == Listen && Abs().cli.state == Closed
      ensures fresh(srv) && fresh(cli) && fresh(lb)
    {
      srv := new Tcb();
      cli := new Tcb();
      lb := new Loopback();
      resp := response;
      echoReplies := 0;
      new;
      srv.state := Listen;
      srv.localPort := SRV_PORT;
    }

    /** ipv4_output. */
    method Ipv4Output(proto: Byte, src: Word32, dst: Word32, payload: seq<Byte>)
      requires Valid()
      modifies lb, lb.buf, lb.len
      ensures Valid() && Abs() == old(Abs()).(queue := Emit(old(lb.queue), proto, src, dst, payload))
    {
      var total := 20 + |payload|;
      if total > MTU {
        return;
      }
      var pkt := FillDatagram(proto, src, dst, payload);
      lb.Xmit(pkt[..total]);
    }

    method TcpSendFlags(src: Word32, dst: Word32, sport: Word16, dport: Word16, seqNo: Word32, ack: Word32,
                        flags: Byte, data: seq<Byte>)
      requires Valid() && |data| <= MAX_DATA
      modifies lb, lb.buf, lb.len
      ensures Valid()
      ensures Abs() == old(Abs()).(queue := EmitAll(old(lb.queue),
                         [Sent(src, dst, Segment(sport, dport, seqNo, ack, flags, data))]))
    {
      hide TcpChecksum, SegmentBytes, Emit;
      var total := 20 + |data|;
      var seg := FillSegment(sport, dport, seqNo, ack, flags, data);
      ghost var s := Segment(sport, dport, seqNo, ack, flags, data);
      var c := TcpCksum(src, dst, seg[..total]);
      ghost var was := seg[..];
      Wr16(seg, 16, c);
      assert seg[..] == was[..16] + BE16(c) + was[18..];
      ChecksumField(s, c, was, seg[..]);
      Ipv4Output(IP_PROTO_TCP, src, dst, seg[..total]);
      EmitOne(old(lb.queue), Sent(src, dst, s));
    }

    // -------------------------------------------------------------- TCP input

    /** tcp_ipv4_input behind its header checks. */
    method TcpSegment(src: Word32, dst: Word32, sport: Word16, dport: Word16, seqNo: Word32, ack: Word32,
                      fl: Byte, payload: seq<Byte>)
      requires Valid()
      modifies srv, cli, cli.rx, lb, lb.buf, lb.len
      ensures Valid()
      ensures var n := old(Abs());
              var o := TcpInput(n.srv, n.cli, src, dst, Segment(sport, dport, seqNo, ack, fl, payload), resp);
              Abs() == Net(o.srv, o.cli, n.echoReplies, EmitAll(n.queue, o.out))
    {
      hide EmitAll, Has, Add32;
      ghost var n := Abs();
      EmitNone(n.queue);
      if dport == SRV_PORT && srv.state == Listen && Has(fl, SYN) && !Has(fl, ACK) {
        AcceptSyn(src, dst, sport, seqNo);
        return;
      }
      if dport == SRV_PORT && srv.state == SynRcvd && Has(fl, ACK) && !Has(fl, SYN) {
        if ack == Add32(srv.iss, 1) {
          srv.state := Established;
          srv.rcvNxt := Add32(seqNo, 1);
        }
        return;
      }
      if dport == SRV_PORT && srv.state == Established && Has(fl, PSH) {
        srv.rcvNxt := Add32(seqNo, |payload|);
        Respond(src, dst, sport);
        srv.sndNxt := Add32(srv.sndNxt, |resp|);
        srv.state := Closed;
        return;
      }
      if dport == CLI_PORT && cli.state == SynSent && Has(fl, SYN) && Has(fl, ACK) {
        cli.rcvNxt := Add32(seqNo, 1);
        cli.sndNxt := ack;
        TcpSendFlags(dst, src, CLI_PORT, sport, cli.sndNxt, cli.rcvNxt, ACK, []);
        cli.state := Established;
        return;
      }
      if dport == CLI_PORT && cli.state == Established && Has(fl, PSH) {
        AcceptData(src, dst, sport, seqNo, payload);
        return;
      }
      if dport == CLI_PORT && Has(fl, FIN) && cli.state == Established {
        cli.state := Closed;
        return;
      }
    }

    /** The branch of a connection request. */
    method AcceptSyn(src: Word32, dst: Word32, sport: Word16, seqNo: Word32)
      requires Valid()
      modifies srv, lb, lb.buf, lb.len
      ensures Valid()
      ensures var b := old(srv.Val()).(state := SynRcvd, remoteIp := src, remotePort := sport, rcvNxt := Add32(seqNo, 1),
                                       iss := SRV_ISS, sndUna := SRV_ISS, sndNxt := Add32(SRV_ISS, 1));
              Abs() == old(Abs()).(srv := b, queue := EmitAll(old(lb.queue),
                [Sent(dst, src, Segment(SRV_PORT, sport, SRV_ISS, b.rcvNxt, SYN + ACK, []))]))
    {
      hide EmitAll, Add32;
      srv.state := SynRcvd;
      srv.remoteIp := src;
      srv.remotePort := sport;
      srv.rcvNxt := Add32(seqNo, 1);
      srv.iss := SRV_ISS;
      srv.sndUna := srv.iss;
      srv.sndNxt := Add32(srv.iss, 1);
      TcpSendFlags(dst, src, SRV_PORT, sport, srv.iss, srv.rcvNxt, SYN + ACK, []);
    }

    /** The branch of data for the client. */
    method AcceptData(src: Word32, dst: Word32, sport: Word16, seqNo: Word32, payload: seq<Byte>)
      requires Valid()
      modifies cli, cli.rx, lb, lb.buf, lb.len
      ensures Valid()
      ensures var c := old(cli.Val());
              var rx := if |payload| + |c.rx| < RX_SIZE then c.rx + payload else c.rx;
              var b := c.(rx := rx, rcvNxt := Add32(seqNo, |payload|));
              Abs() == old(Abs()).(cli := b, queue := EmitAll(old(lb.queue),
                [Sent(dst, src, Segment(CLI_PORT, sport, b.sndNxt, b.rcvNxt, ACK, []))]))
    {
      hide EmitAll, Add32;
      if |payload| + cli.rxLen < RX_SIZE {
        AppendRx(payload);
      }
      cli.rcvNxt := Add32(seqNo, |payload|);
      TcpSendFlags(dst, src, CLI_PORT, sport, cli.sndNxt, cli.rcvNxt, ACK, []);
    }

    /** The acknowledgement and the response of the HTTP branch. */
    method Respond(src: Word32, dst: Word32, sport: Word16)
      requires Valid()
      modifies lb, lb.buf, lb.len
      ensures Valid()
      ensures Abs() == old(Abs()).(queue := EmitAll(old(lb.queue),
                [Sent(dst, src, Segment(SRV_PORT, sport, srv.sndNxt, srv.rcvNxt, ACK, [])),
                 Sent(dst, src, Segment(SRV_PORT, sport, srv.sndNxt, srv.rcvNxt, ACK + PSH, resp))]))
    {
      hide EmitAll;
      TcpSendFlags(dst, src, SRV_PORT, sport, srv.sndNxt, srv.rcvNxt, ACK, []);
      TcpSendFlags(dst, src, SRV_PORT, sport, srv.sndNxt, srv.rcvNxt, ACK + PSH, resp);
      EmitTwo(old(lb.queue), Sent(dst, src, Segment(SRV_PORT, sport, srv.sndNxt, srv.rcvNxt, ACK, [])),
              Sent(dst, src, Segment(SRV_PORT, sport, srv.sndNxt, srv.rcvNxt, ACK + PSH, resp)));
    }

    /** Appends payload to the client's receive buffer. */
    method AppendRx(payload: seq<Byte>)
      requires Valid() && |payload| + cli.rxLen < RX_SIZE
      modifies cli`rxLen, cli.rx
      ensures Valid() && Abs() == old(Abs()).(cli := old(cli.Val()).(rx := old(cli.Val()).rx + payload))
    {
      for i := 0 to |payload|
        modifies cli`rxLen, cli.rx
        invariant cli.rxLen == old(cli.rxLen) + i
        invariant forall j :: 0 <= j < old(cli.rxLen) ==> cli.rx[j] == old(cli.rx[j])
        invariant forall j :: 0 <= j < i ==> cli.rx[old(cli.rxLen) + j] == payload[j]
      {
        cli.rx[cli.rxLen] := payload[i];
        cli.rxLen := cli.rxLen + 1;
      }
      assert cli.rx[..cli.rxLen] == old(cli.rx[..cli.rxLen]) + payload;
    }

    method TcpIpv4Input(pkt: seq<Byte>, src: Word32, dst: Word32)
      requires Valid() && IpAccepted(pkt) && src == Rd32(pkt, 12) && dst == Rd32(pkt, 16)
      modifies srv, cli, cli.rx, lb, lb.buf, lb.len
      ensures Valid() && Abs() == TcpDatagram(old(Abs()), pkt, resp)
    {
      hide TcpInput, EmitAll;
      var ihl: int := pkt[0] % 16 * 4;
      if |pkt| < ihl + 20 {
        return;
      }
      var th := pkt[ihl..];
      var off := th[12] / 16 * 4;
      if off < 20 || |th| < off {
        return;
      }
      TcpSegment(src, dst, Rd16(th, 0), Rd16(th, 2), Rd32(th, 4), Rd32(th, 8), th[13], th[off..]);
    }

    // -------------------------------------------------------------- datagrams

    method IcmpInput(ip: seq<Byte>)
      requires Valid() && IpAccepted(ip)
      modifies this`echoReplies, lb, lb.buf, lb.len
      ensures Valid() && Abs() == TcpModel.IcmpInput(old(Abs()), ip)
    {
      var ihl: int := ip[0] % 16 * 4;
      if |ip| < ihl + 8 {
        return;
      }
      if ip[ihl] == 0 {
        echoReplies := echoReplies + 1;
        return;
      }
      if ip[ihl] != ICMP_ECHO {
        return;
      }
      var icmpLen := |ip| - ihl;
      if ICMP_BUF < 20 + icmpLen {
        return;
      }
      var out := FillEchoReply(ip, ihl);
      lb.Xmit(out[..20 + icmpLen]);
    }

    method Ipv4Input(pkt: seq<Byte>)
      requires Valid()
      modifies this`echoReplies, srv, cli, cli.rx, lb, lb.buf, lb.len
      ensures Valid() && Abs() == IpInput(old(Abs()), pkt, resp)
    {
      hide TcpDatagram, TcpModel.IcmpInput;
      if |pkt| < 20 {
        return;
      }
      var ihl: int := pkt[0] % 16 * 4;
      if ihl < 20 || |pkt| < ihl {
        return;
      }
      var proto := pkt[9];
      var src := Rd32(pkt, 12);
      var dst := Rd32(pkt, 16);
      if proto == IP_PROTO_ICMP {
        IcmpInput(pkt);
      } else if proto == IP_PROTO_TCP {
        TcpIpv4Input(pkt, src, dst);
      }
    }

    /** Handles queued packets until none is left. Terminates from every state and every queue. */
    method NetPoll()
      requires Valid()
      modifies this`echoReplies, srv, cli, cli.rx, lb, lb.buf, lb.len
      ensures Valid() && Abs() == Drain(old(Abs()), resp)
    {
      hide Weight, Deliver, Drain, IpInput;
      var buf := new Byte[MTU](_ => 0);
      var n := FetchNext(buf);
      while n > 0
        invariant Valid() && 0 <= n <= MTU
        invariant n == 0 ==> lb.queue == []
        invariant Drain(InHand(buf[..n]), resp) == Drain(old(Abs()), resp)
        decreases Weight(InHand(buf[..n]))
      {
        ghost var was := InHand(buf[..n]);
        DrainStep(was, resp);
        DeliverDecreases(was, resp);
        DeliverHead(Abs(), buf[..n], resp);
        Ipv4Input(buf[..n]);
        n := FetchNext(buf);
      }
      DrainEmpty(Abs(), resp);
    }

    /** loopback_fetch into the poll buffer; every queued packet fits it. */
    method FetchNext(buf: array<Byte>) returns (n: nat)
      requires Valid() && buf.Length == MTU
      requires buf != srv.rx && buf != cli.rx && buf as object != lb.len && buf as object != lb.buf
      modifies lb, buf
      ensures Valid() && n <= MTU
      ensures n == 0 ==> lb.queue == []
      ensures InHand(buf[..n]) == old(Abs())
    {
      ghost var q := lb.queue;
      n := lb.Fetch(buf, MTU);
      if q != [] {
        assert q[0][..|q[0]|] == q[0];
        assert [q[0]] + q[1..] == q;
      }
    }

    // -------------------------------------------------------------- the HTTP client

    /** Back to a listening server and a closed client. */
    method TcpReset()
      requires Valid()
      modifies srv, cli
      ensures Valid()
      ensures Abs() == Reset(old(Abs()))
    {
      srv.state := Listen;
      srv.localPort := SRV_PORT;
      cli.state := Closed;
      cli.rxLen := 0;
      srv.rxLen := 0;
    }

    method TcpConnectSendGet(ip: Word32)
      requires Valid()
      modifies srv, cli, lb, lb.buf, lb.len
      ensures Valid() && Abs() == Connect(old(Abs()), ip)
    {
      hide EmitAll, Add32;
      cli.state := SynSent;
      cli.localPort := CLI_PORT;
      cli.remoteIp := ip;
      cli.remotePort := SRV_PORT;
      cli.iss := CLI_ISS;
      cli.sndUna := cli.iss;
      cli.sndNxt := Add32(cli.iss, 1);
      cli.rxLen := 0;
      srv.state := Listen;
      srv.rxLen := 0;
      TcpSendFlags(LOOPBACK, LOOPBACK, CLI_PORT, SRV_PORT, cli.iss, 0, SYN, []);
    }

    method TcpSendData(data: seq<Byte>) returns (ok: bool)
      requires Valid() && |data| <= MAX_DATA
      modifies cli, lb, lb.buf, lb.len
      ensures Valid() && ok == old(Abs()).cli.state.Established?
      ensures Abs() == Request(old(Abs()), data)
    {
      if cli.state != Established {
        return false;
      }
      TcpSendFlags(LOOPBACK, LOOPBACK, CLI_PORT, SRV_PORT, cli.sndNxt, cli.rcvNxt, ACK + PSH, data);
      cli.sndNxt := Add32(cli.sndNxt, |data|);
      return true;
    }

    /** The 8000-fold polling of net.c: one drain, the rest finds nothing. */
    method PollLoop()
      requires Valid()
      modifies this`echoReplies, srv, cli, cli.rx, lb, lb.buf, lb.len
      ensures Valid() && Abs() == Drain(old(Abs()), resp)
    {
      hide Drain;
      for i := 0 to 8000
        invariant Valid()
        invariant if i == 0 then Abs() == old(Abs()) else Abs() == Drain(old(Abs()), resp)
      {
        NetPoll();
        DrainTwice(old(Abs()), resp);
      }
    }

    /** net_http_get_loopback: connects, sends the request and, when all goes well, gives the
        caller the body of the response, cut to fit and NUL-terminated; -1 otherwise. From an
        empty queue all goes well. */
    method HttpGet(req: seq<Byte>, out: array<Byte>) returns (j: int)
      requires Valid() && |req| <= MAX_DATA
      requires out != srv.rx && out != cli.rx && out as object != lb.len && out as object != lb.buf
      modifies this`echoReplies, srv, cli, cli.rx, lb, lb.buf, lb.len, out
      ensures Valid()
      ensures out.Length < 2 ==> j == -1 && Abs() == old(Abs()) && out[..] == old(out[..])
      ensures out.Length >= 2 ==>
                var up := Drain(Connect(Reset(old(Abs())), LOOPBACK), resp);
                && Abs() == (if up.cli.state.Established? then Drain(Request(up, req), resp) else up)
                && (if !up.cli.state.Established? || Abs().cli.rx == [] then j == -1 && out[0] == 0
                    else GotBody(Abs().cli.rx, out[..], j))
      ensures out.Length >= 2 && old(lb.queue) == [] && |resp| > 0 ==>
                lb.queue == [] && Served(Abs(), req, resp) && GotBody(resp, out[..], j)
    {
      hide Drain, In, Connect, Request, GotBody, Served;
      if out.Length < 2 {
        return -1;
      }
      ghost var n0 := Abs();
      TcpReset();
      TcpConnectSendGet(LOOPBACK);
      PollLoop();
      ghost var up := Abs();
      var ok := TcpSendData(req);
      if n0.queue == [] {
        Exchanged(n0, req, resp);
      }
      if !ok {
        NotSent(up, req);
        out[0] := 0;
        return -1;
      }
      PollLoop();
      var n := cli.rxLen;
      if n <= 0 {
        out[0] := 0;
        return -1;
      }
      j := CopyBody(cli.rx[..n], out);
    }

    /** The end of net_http_get_loopback: finds the blank line and copies what follows. */
    method CopyBody(rx: seq<Byte>, out: array<Byte>) returns (j: nat)
      requires out.Length >= 2
      modifies out
      ensures GotBody(rx, out[..], j)
    {
      var n := |rx|;
      var body := FindBody(rx);
      j := 0;
      var i := body;
      while i < n && j < out.Length - 1
        invariant body <= i <= n && j == i - body && j <= out.Length - 1
        invariant forall k :: 0 <= k < j ==> out[k] == rx[body + k]
      {
        out[j] := rx[i];
        j := j + 1;
        i := i + 1;
      }
      out[j] := 0;
    }

    method FindBody(rx: seq<Byte>) returns (body: nat)
      ensures body == BlankLine(rx, 0)
    {
      var i: nat := 0;
      while i + 3 < |rx|
        invariant BlankLine(rx, i) == BlankLine(rx, 0)
      {
        assert rx[i..i + 4] == [rx[i], rx[i + 1], rx[i + 2], rx[i + 3]];
        if rx[i] == 13 && rx[i + 1] == 10 && rx[i + 2] == 13 && rx[i + 3] == 10 {
          return i + 4;
        }
        i := i + 1;
      }
      return 0;
    }

    /** The state with a fetched packet still counted as queued. */
    ghost function InHand(pkt: Packet): Net
      requires Valid()
      reads this, srv, cli, srv.rx, cli.rx, lb, lb.buf, lb.len
    {
      if pkt == [] then Abs() else Abs().(queue := [pkt] + lb.queue)
    }
  }

  lemma DrainStep(n: Net, resp: seq<Byte>)
    requires |n.queue| > 0
    ensures Drain(n, resp) == Drain(Deliver(n, resp), resp)
  {
    hide Deliver, Weight;
  }

  lemma DrainEmpty(n: Net, resp: seq<Byte>)
    requires n.queue == []
    ensures Drain(n, resp) == n
  {
    hide Deliver, Weight;
  }

  lemma DeliverHead(n: Net, pkt: Packet, resp: seq<Byte>)
    ensures Deliver(n.(queue := [pkt] + n.queue), resp) == IpInput(n, pkt, resp)
  {
    hide IpInput;
    assert ([pkt] + n.queue)[1..] == n.queue;
  }

  lemma EmitOne(q: seq<Packet>, x: Sent)
    ensures EmitAll(q, [x]) == Emit(q, IP_PROTO_TCP, x.src, x.dst, TcpBytes(x.src, x.dst, x.seg))
  {
    hide TcpBytes, Emit;
    assert [x][1..] == [];
  }

  /** Storing the checksum at offset 16 completes the segment. */
  lemma ChecksumField(s: Segment, c: Word16, was: seq<Byte>, now: seq<Byte>)
    requires |was| >= 20 + |s.payload| && was[..20 + |s.payload|] == SegmentBytes(s, 0)
    requires now == was[..16] + BE16(c) + was[18..]
    ensures |now| == |was| && now[..20 + |s.payload|] == SegmentBytes(s, c)
  {
    var n := 20 + |s.payload|;
    var a, b := SegmentBytes(s, 0), SegmentBytes(s, c);
    forall i | 0 <= i < n ensures now[i] == b[i] {
      if i < 16 || i >= 18 {
        assert now[i] == was[i] == was[..n][i];
      }
    }
  }

  /** Fills an IPv4 datagram into a fresh buffer. */
  method FillDatagram(proto: Byte, src: Word32, dst: Word32, payload: seq<Byte>) returns (pkt: array<Byte>)
    requires 20 + |payload| <= MTU
    ensures fresh(pkt) && pkt.Length == MTU
    ensures pkt[..20 + |payload|] == IpBytes(proto, src, dst, payload)
  {
    hide NetChecksum, BE16, IpHeader;
    var total := 20 + |payload|;
    pkt := new Byte[MTU](_ => 0);
    FillIpHeader(pkt, proto, src, dst, total);
    FillPayload(pkt, payload);
    ghost var was := pkt[..];
    assert pkt[..20] == was[..total][..20] == IpHeader(proto, src, dst, total, 0);
    var hc := NetChecksum16(pkt[..20]);
    Wr16(pkt, 10, hc);
    HeaderChecksum(proto, src, dst, total, hc, was[..20], pkt[..20]);
    assert pkt[20..total] == was[20..total] == was[..total][20..] == payload;
    assert pkt[..total] == pkt[..20] + pkt[20..total];
  }

  method FillIpHeader(pkt: array<Byte>, proto: Byte, src: Word32, dst: Word32, total: nat)
    requires pkt.Length >= 20
    modifies pkt
    ensures pkt[..20] == IpHeader(proto, src, dst, total, 0)
  {
    hide BE16, BE32;
    pkt[0] := 0x45;
    pkt[1] := 0;
    Wr16(pkt, 2, total % U16);
    pkt[4], pkt[5] := 0, 0;
    pkt[6], pkt[7] := 0, 0;
    pkt[8] := 64;
    pkt[9] := proto;
    pkt[10], pkt[11] := 0, 0;
    ghost var h := IpHeader(proto, src, dst, total, 0);
    ZeroField();
    assert forall i :: 0 <= i < 12 ==> pkt[i] == h[i];
    Wr32(pkt, 12, src);
    Wr32(pkt, 16, dst);
    assert forall i :: 12 <= i < 20 ==> pkt[i] == h[i];
  }

  /** Storing the checksum at offset 10 completes the header. */
  lemma HeaderChecksum(proto: Byte, src: Word32, dst: Word32, total: nat, c: Word16, was: seq<Byte>, now: seq<Byte>)
    requires was == IpHeader(proto, src, dst, total, 0)
    requires |now| == 20 && now[10] == BE16(c)[0] && now[11] == BE16(c)[1]
    requires forall i :: 0 <= i < 20 && i != 10 && i != 11 ==> now[i] == was[i]
    ensures now == IpHeader(proto, src, dst, total, c)
  {
    hide BE16, BE32;
  }

  lemma EmitNone(q: seq<Packet>)
    ensures EmitAll(q, []) == q
  {
  }

  lemma EmitTwo(q: seq<Packet>, x: Sent, y: Sent)
    ensures EmitAll(EmitAll(q, [x]), [y]) == EmitAll(q, [x, y])
  {
    hide TcpBytes, Emit;
    EmitOne(q, x);
    EmitOne(EmitAll(q, [x]), y);
    assert [x, y][1..] == [y];
  }

  /** The echo reply buffer: the ICMP message copied behind a fresh header. */
  method FillEchoReply(ip: seq<Byte>, ihl: nat) returns (out: array<Byte>)
    requires IpAccepted(ip) && ihl == Ihl(ip) && |ip| >= ihl + 8 && 20 + |ip| - ihl <= ICMP_BUF
    ensures fresh(out) && out.Length == ICMP_BUF
    ensures out[..20 + |ip| - ihl] == EchoReply(ip)
  {
    hide NetChecksum, BE16, IpHeader;
    var icmpLen := |ip| - ihl;
    var total := 20 + icmpLen;
    out := new Byte[ICMP_BUF](_ => 0);
    FillIpHeader(out, IP_PROTO_ICMP, Rd32(ip, 16), Rd32(ip, 12), total);
    ghost var head := out[..20];
    ghost var body := FillIcmp(out, ip[ihl..]);
    ghost var was := out[..];
    var hc := NetChecksum16(out[..20]);
    Wr16(out, 10, hc);
    HeaderChecksum(IP_PROTO_ICMP, Rd32(ip, 16), Rd32(ip, 12), total, hc, was[..20], out[..20]);
    assert out[20..total] == was[20..total] == body;
    assert out[..total] == out[..20] + out[20..total];
  }

  /** The reply message behind the IP header: type 0, its own checksum, the rest copied. */
  method FillIcmp(out: array<Byte>, icmp: seq<Byte>) returns (ghost body: seq<Byte>)
    requires |icmp| >= 8 && 20 + |icmp| <= out.Length
    modifies out
    ensures out[..20] == old(out[..20])
    ensures out[20..20 + |icmp|] == body
    ensures var c := BE16(NetChecksum([0, icmp[1], 0, 0] + icmp[4..]));
            body == [0, icmp[1], c[0], c[1]] + icmp[4..]
  {
    hide NetChecksum, BE16;
    var total := 20 + |icmp|;
    FillPayload(out, icmp);
    assert out[..20] == out[..total][..20] == old(out[..20]);
    assert out[20..total] == out[..total][20..] == icmp;
    out[20] := 0;
    out[22], out[23] := 0, 0;
    ghost var blank := [0, icmp[1], 0, 0] + icmp[4..];
    assert out[20..total] == blank;
    var csum := NetChecksum16(out[20..total]);
    Wr16(out, 22, csum);
    body := [0, icmp[1], BE16(csum)[0], BE16(csum)[1]] + icmp[4..];
    assert forall i :: 24 <= i < total ==> out[i] == blank[i - 20];
    assert out[20] == blank[0] && out[21] == blank[1];
    assert out[20..total] == body;
  }

  lemma DrainTwice(n: Net, resp: seq<Byte>)
    ensures Drain(Drain(n, resp), resp) == Drain(n, resp)
  {
    DrainEmpty(Drain(n, resp), resp);
  }

  /** tcp_reset on values: a listening server, a closed client, empty buffers. */
  function Reset(n: Net): Net {
    n.(srv := n.srv.(state := Listen, localPort := SRV_PORT, rx := []), cli := n.cli.(state := Closed, rx := []))
  }

  /** out starts with the first j bytes of the body in rx and a NUL; j is all of it, or what fits. */
  predicate GotBody(rx: seq<Byte>, out: seq<Byte>, j: int) {
    && |out| > 0
    && j == (if |Body(rx)| < |out| then |Body(rx)| else |out| - 1)
    && out[..j] == Body(rx)[..j] && out[j] == 0
  }

  /** A request the client is not ready for changes nothing. */
  lemma NotSent(n: Net, req: seq<Byte>)
    requires !n.cli.state.Established?
    ensures Request(n, req) == n
  {
  }

  /** From an empty queue the connection comes up and the request is served. */
  lemma Exchanged(n: Net, req: seq<Byte>, resp: seq<Byte>)
    requires n.queue == [] && |req| <= MAX_DATA && |resp| <= MAX_DATA
    ensures var up := Drain(Connect(Reset(n), LOOPBACK), resp);
            var done := Drain(Request(up, req), resp);
            up.cli.state.Established? && done.queue == [] && Served(done, req, resp) && done.cli.rx == resp
  {
    hide Drain, In, Connect, Request;
    var up := Drain(Connect(Reset(n), LOOPBACK), resp);
    ConnectStarts(Reset(n), LOOPBACK, [], resp);
    DrainSettles(Connect(Reset(n), LOOPBACK), SynSentOut, [], resp);
    QuietMeans(up, resp);
    RequestStep(up, Quiet, req, resp);
    DrainSettles(Request(up, req), ReqOut, req, resp);
    DoneMeans(Drain(Request(up, req), resp), req, resp);
  }

  lemma QuietMeans(n: Net, resp: seq<Byte>)
    requires In(n, Quiet, [], resp)
    ensures n.cli.state.Established? && n.queue == []
  {
  }

  lemma DoneMeans(n: Net, data: seq<Byte>, resp: seq<Byte>)
    requires In(n, Done, data, resp)
    ensures Served(n, data, resp) && n.queue == []
  {
  }

  /** Where the text after the first blank line at or behind i starts; 0 without one. */
  function BlankLine(s: seq<Byte>, i: nat): (b: nat)
    ensures b == 0 || i + 4 <= b <= |s|
    decreases |s| - i
  {
    if i + 3 >= |s| then 0
    else if s[i..i + 4] == [13, 10, 13, 10] then i + 4
    else BlankLine(s, i + 1)
  }

  /** A place it finds is behind a CR LF CR LF that starts at or behind i. */
  lemma {:induction false} BlankLineEnds(s: seq<Byte>, i: nat)
    ensures var b := BlankLine(s, i); b != 0 ==> i + 4 <= b <= |s| && s[b - 4..b] == [13, 10, 13, 10]
    decreases |s| - i
  {
    if i + 4 <= |s| && s[i..i + 4] != [13, 10, 13, 10] {
      BlankLineEnds(s, i + 1);
    }
  }

  /** It is the first: no CR LF CR LF starts at a j in front of the one found, none at all when
      the answer is 0. */
  lemma {:induction false} BlankLineFirst(s: seq<Byte>, i: nat, j: nat)
    requires i <= j <= |s| - 4 && s[j..j + 4] == [13, 10, 13, 10]
    ensures 0 < BlankLine(s, i) <= j + 4
    decreases j - i
  {
    if i < j && s[i..i + 4] != [13, 10, 13, 10] {
      BlankLineFirst(s, i + 1, j);
    }
  }

  /** The body of an HTTP response, the whole text when it has no blank line. */
  function Body(s: seq<Byte>): seq<Byte> {
    s[BlankLine(s, 0)..]
  }

  /** What the caller gets: the bytes of the response from behind the blank line on, as many as
      leave room for the NUL that follows them. */
  lemma GotBodyMeans(rx: seq<Byte>, out: seq<Byte>, j: int)
    requires |out| > 0
    ensures var b := BlankLine(rx, 0);
            GotBody(rx, out, j) <==>
            j == (if |rx| - b < |out| then |rx| - b else |out| - 1) && out[..j] == rx[b..b + j] && out[j] == 0
  {
    hide BlankLine;
    var b := BlankLine(rx, 0);
    if 0 <= j <= |rx| - b {
      assert Body(rx)[..j] == rx[b..b + j];
    }
  }
}
