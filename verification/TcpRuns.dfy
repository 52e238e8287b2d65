/** One HTTP exchange over the loopback queue, from connect on an empty queue, with deliveries
    and one request attempted at any moment. */
module TcpRuns {
  import opened Bytes
  import opened NetWire
  import opened TcpModel

  /** Longest payload that fits the segment buffer behind the 20-byte header. */
  const MAX_DATA: nat := 1260

  /** tcp_connect_send_get. */
  function Connect(n: Net, ip: Word32): Net {
    var cli := Block(SynSent, CLI_PORT, ip, SRV_PORT, CLI_ISS, Add32(CLI_ISS, 1), CLI_ISS, n.cli.rcvNxt, []);
    Net(n.srv.(state := Listen, rx := []), cli, n.echoReplies,
        EmitAll(n.queue, [Sent(LOOPBACK, LOOPBACK, Segment(CLI_PORT, SRV_PORT, CLI_ISS, 0, SYN, []))]))
  }

  /** tcp_send_data: refused unless the client is established. */
  function Request(n: Net, data: seq<Byte>): Net {
    if !n.cli.state.Established? then n
    else n.(cli := n.cli.(sndNxt := Add32(n.cli.sndNxt, |data|)),
            queue := EmitAll(n.queue, [Sent(LOOPBACK, LOOPBACK,
              Segment(CLI_PORT, SRV_PORT, n.cli.sndNxt, n.cli.rcvNxt, ACK + PSH, data))]))
  }

  // ---------------------------------------------------------------- packets on the wire

  function ToServer(seqNo: Word32, ack: Word32, flags: Byte, data: seq<Byte>): Sent {
    Sent(LOOPBACK, LOOPBACK, Segment(CLI_PORT, SRV_PORT, seqNo, ack, flags, data))
  }

  function ToClient(seqNo: Word32, ack: Word32, flags: Byte, data: seq<Byte>): Sent {
    Sent(LOOPBACK, LOOPBACK, Segment(SRV_PORT, CLI_PORT, seqNo, ack, flags, data))
  }

  const CLI_NEXT: Word32 := 10001
  const SRV_NEXT: Word32 := 50001

  /** Delivering an encoded segment is handling that segment. */
  lemma DeliverWire(n: Net, x: Sent, resp: seq<Byte>)
    requires |n.queue| > 0 && n.queue[0] == Wire(x)
    ensures var o := TcpInput(n.srv, n.cli, x.src, x.dst, x.seg, resp);
            Deliver(n, resp) == Net(o.srv, o.cli, n.echoReplies, EmitAll(n.queue[1..], o.out))
  {
    hide TcpBytes, IpBytes, TcpInput, EmitAll;
    SegmentRoundTrip(x.src, x.dst, x.seg);
  }

  /** With room in the ring every emitted segment is queued. */
  lemma EmitRoom(q: seq<Packet>, out: seq<Sent>)
    requires |out| <= 2 && |q| + |out| <= RING
    requires forall i :: 0 <= i < |out| ==> |out[i].seg.payload| <= MAX_DATA
    ensures EmitAll(q, out) == q + (if |out| > 0 then [Wire(out[0])] else []) + (if |out| > 1 then [Wire(out[1])] else [])
  {
    hide TcpBytes, IpBytes;
    if |out| > 0 {
      var q1 := q + [Wire(out[0])];
      assert EmitAll(q, out) == EmitAll(q1, out[1..]);
      if |out| > 1 {
        assert EmitAll(q1, out[1..]) == EmitAll(q1 + [Wire(out[1])], out[1..][1..]);
      }
    }
  }

  // ---------------------------------------------------------------- the phases of an exchange

  datatype Phase =
    | SynSentOut | SynAckOut | AckOut | Quiet            // before the request is accepted
    | ReqBehindAck | ReqOut | RespOut | RespLast | FinalAck | Done  // after

  /** n is in phase ph; data is the accepted request, if any. */
  ghost predicate In(n: Net, ph: Phase, data: seq<Byte>, resp: seq<Byte>) {
    var cliNext := Add32(CLI_NEXT, |data|);
    var srvNext := Add32(SRV_NEXT, |resp|);
    var ack := ToServer(CLI_NEXT, SRV_NEXT, ACK, []);
    var req := ToServer(CLI_NEXT, SRV_NEXT, ACK + PSH, data);
    match ph
    case SynSentOut =>
      && n.cli.state.SynSent? && n.srv.state.Listen? && n.cli.rx == []
      && n.queue == [Wire(ToServer(CLI_ISS, 0, SYN, []))]
    case SynAckOut =>
      && n.cli.state.SynSent? && n.srv.state.SynRcvd? && n.cli.rx == []
      && n.srv.iss == SRV_ISS && n.srv.sndNxt == SRV_NEXT
      && n.queue == [Wire(ToClient(SRV_ISS, CLI_NEXT, SYN + ACK, []))]
    case AckOut =>
      && ClientUp(n, CLI_NEXT) && n.srv.state.SynRcvd? && n.srv.iss == SRV_ISS && n.srv.sndNxt == SRV_NEXT
      && n.queue == [Wire(ack)]
    case Quiet =>
      && ClientUp(n, CLI_NEXT) && n.srv.state.Established? && n.srv.sndNxt == SRV_NEXT
      && n.queue == []
    case ReqBehindAck =>
      && ClientUp(n, cliNext) && n.srv.state.SynRcvd? && n.srv.iss == SRV_ISS && n.srv.sndNxt == SRV_NEXT
      && n.queue == [Wire(ack), Wire(req)]
    case ReqOut =>
      && ClientUp(n, cliNext) && n.srv.state.Established? && n.srv.sndNxt == SRV_NEXT
      && n.queue == [Wire(req)]
    case RespOut =>
      && ClientUp(n, cliNext) && n.srv.state.Closed? && n.srv.sndNxt == srvNext && n.srv.rcvNxt == cliNext
      && n.queue == [Wire(ToClient(SRV_NEXT, cliNext, ACK, [])), Wire(ToClient(SRV_NEXT, cliNext, ACK + PSH, resp))]
    case RespLast =>
      && ClientUp(n, cliNext) && n.srv.state.Closed? && n.srv.sndNxt == srvNext && n.srv.rcvNxt == cliNext
      && n.queue == [Wire(ToClient(SRV_NEXT, cliNext, ACK + PSH, resp))]
    case FinalAck =>
      && Served(n, data, resp) && n.queue == [Wire(ToServer(cliNext, srvNext, ACK, []))]
    case Done =>
      Served(n, data, resp) && n.queue == []
  }

  /** The client is established and has received nothing yet. */
  predicate ClientUp(n: Net, next: Word32) {
    n.cli.state.Established? && n.cli.sndNxt == next && n.cli.rcvNxt == SRV_NEXT && n.cli.rx == []
  }

  /** The client holds the response exactly once and both sides agree on both sequence numbers. */
  predicate Served(n: Net, data: seq<Byte>, resp: seq<Byte>) {
    && n.cli.state.Established? && n.srv.state.Closed? && n.cli.rx == resp
    && n.cli.sndNxt == n.srv.rcvNxt == Add32(CLI_NEXT, |data|)
    && n.srv.sndNxt == n.cli.rcvNxt == Add32(SRV_NEXT, |resp|)
  }

  function AfterDelivery(ph: Phase): Phase {
    match ph
    case SynSentOut => SynAckOut
    case SynAckOut => AckOut
    case AckOut => Quiet
    case Quiet => Quiet
    case ReqBehindAck => ReqOut
    case ReqOut => RespOut
    case RespOut => RespLast
    case RespLast => FinalAck
    case FinalAck => Done
    case Done => Done
  }

  predicate Accepted(ph: Phase) {
    ph.ReqBehindAck? || ph.ReqOut? || ph.RespOut? || ph.RespLast? || ph.FinalAck? || ph.Done?
  }

  lemma DeliveryStep(n: Net, ph: Phase, data: seq<Byte>, resp: seq<Byte>)
    requires In(n, ph, data, resp) && |n.queue| > 0
    requires |data| <= MAX_DATA && |resp| <= MAX_DATA
    ensures In(Deliver(n, resp), AfterDelivery(ph), data, resp)
  {
    hide Wire, Has, EmitAll, Deliver;
    FlagBits();
    var x := Head(ph, data, resp);
    DeliverWire(n, x, resp);
    EmitRoom(n.queue[1..], TcpInput(n.srv, n.cli, x.src, x.dst, x.seg, resp).out);
  }

  /** The segment at the head of the queue. */
  function Head(ph: Phase, data: seq<Byte>, resp: seq<Byte>): Sent {
    var cliNext := Add32(CLI_NEXT, |data|);
    match ph
    case SynSentOut => ToServer(CLI_ISS, 0, SYN, [])
    case SynAckOut => ToClient(SRV_ISS, CLI_NEXT, SYN + ACK, [])
    case AckOut => ToServer(CLI_NEXT, SRV_NEXT, ACK, [])
    case ReqBehindAck => ToServer(CLI_NEXT, SRV_NEXT, ACK, [])
    case ReqOut => ToServer(CLI_NEXT, SRV_NEXT, ACK + PSH, data)
    case RespOut => ToClient(SRV_NEXT, cliNext, ACK, [])
    case RespLast => ToClient(SRV_NEXT, cliNext, ACK + PSH, resp)
    case FinalAck => ToServer(cliNext, Add32(SRV_NEXT, |resp|), ACK, [])
    case _ => ToServer(0, 0, ACK, [])
  }

  lemma ConnectStarts(n: Net, ip: Word32, data: seq<Byte>, resp: seq<Byte>)
    requires n.queue == []
    ensures In(Connect(n, ip), SynSentOut, data, resp)
  {
    hide Wire, EmitAll;
    EmitRoom([], [ToServer(CLI_ISS, 0, SYN, [])]);
  }

  /** A request moves an idle or half-open exchange into its accepted half. */
  lemma RequestStep(n: Net, ph: Phase, data: seq<Byte>, resp: seq<Byte>)
    requires In(n, ph, [], resp) && !Accepted(ph) && |data| <= MAX_DATA
    ensures n.cli.state.Established? <==> ph.AckOut? || ph.Quiet?
    ensures In(Request(n, data), if ph.AckOut? then ReqBehindAck else if ph.Quiet? then ReqOut else ph, data, resp)
  {
    hide Wire, EmitAll;
    if n.cli.state.Established? {
      EmitRoom(n.queue, [ToServer(CLI_NEXT, SRV_NEXT, ACK + PSH, data)]);
    }
  }

  // ---------------------------------------------------------------- whole runs

  datatype Action = Poll | Attempt(data: seq<Byte>)

  /** accepted remembers the request tcp_send_data took. */
  datatype World = World(net: Net, accepted: Option<seq<Byte>>)

  predicate Allowed(w: World, a: Action) {
    a.Attempt? ==> w.accepted.None? && |a.data| <= MAX_DATA
  }

  function Step(w: World, a: Action, resp: seq<Byte>): World {
    match a
    case Poll => if |w.net.queue| == 0 then w else World(Deliver(w.net, resp), w.accepted)
    case Attempt(data) => World(Request(w.net, data), if w.net.cli.state.Established? then Some(data) else w.accepted)
  }

  /** ws are the worlds before and after each of the actions acts. */
  ghost predicate Run(ws: seq<World>, acts: seq<Action>, resp: seq<Byte>) {
    && |ws| == |acts| + 1
    && forall i :: 0 <= i < |acts| ==> Allowed(ws[i], acts[i]) && ws[i + 1] == Step(ws[i], acts[i], resp)
  }

  function Data(w: World): seq<Byte> {
    if w.accepted.Some? then w.accepted.value else []
  }

  ghost predicate Inv(w: World, resp: seq<Byte>) {
    && |Data(w)| <= MAX_DATA
    && exists ph :: In(w.net, ph, Data(w), resp) && (Accepted(ph) <==> w.accepted.Some?)
  }

  lemma StepKeepsInv(w: World, a: Action, resp: seq<Byte>)
    requires Inv(w, resp) && Allowed(w, a) && |resp| <= MAX_DATA
    ensures Inv(Step(w, a, resp), resp)
  {
    hide In;
    var ph :| In(w.net, ph, Data(w), resp) && (Accepted(ph) <==> w.accepted.Some?);
    match a {
      case Poll =>
        if |w.net.queue| > 0 {
          DeliveryStep(w.net, ph, Data(w), resp);
          assert In(Step(w, a, resp).net, AfterDelivery(ph), Data(w), resp);
        }
      case Attempt(data) =>
        RequestStep(w.net, ph, data, resp);
        if !w.net.cli.state.Established? {
          assert Request(w.net, data) == w.net;
          assert In(w.net, ph, [], resp);
        }
    }
  }

  /** The next packet is a request for the server. */
  predicate RequestNext(n: Net) {
    && |n.queue| > 0 && IpAccepted(n.queue[0]) && n.queue[0][9] == IP_PROTO_TCP
    && var s := ParseTcp(n.queue[0]);
       s.Some? && s.value.dport == SRV_PORT && Has(s.value.flags, PSH)
  }

  /** What holds at every moment of a run. */
  ghost predicate Safe(w: World, resp: seq<Byte>) {
    var n := w.net;
    && (n.cli.state.Established? ==> !n.srv.state.Listen?)
    && (RequestNext(n) ==> n.srv.state.Established?)
    && |n.queue| <= 2
    && (n.cli.rx == [] || n.cli.rx == resp)
    && (w.accepted.None? ==> n.cli.rx == [])
    && (w.accepted.Some? && n.queue == [] ==> Served(n, w.accepted.value, resp))
  }

  lemma InvIsSafe(w: World, resp: seq<Byte>)
    requires Inv(w, resp)
    ensures Safe(w, resp)
  {
    hide Wire, Has, ParseTcp;
    var ph :| In(w.net, ph, Data(w), resp) && (Accepted(ph) <==> w.accepted.Some?);
    FlagBits();
    var x := Head(ph, Data(w), resp);
    HeadParses(x);
  }

  lemma HeadParses(x: Sent)
    ensures var p := Wire(x);
            IpAccepted(p) && p[9] == IP_PROTO_TCP && ParseTcp(p) == Some(x.seg)
  {
    hide TcpBytes, IpBytes;
    SegmentRoundTrip(x.src, x.dst, x.seg);
  }

  /** Every moment of every run that starts with connect on an empty queue is safe. */
  lemma {:induction false} WholeRun(ws: seq<World>, acts: seq<Action>, resp: seq<Byte>, n: Net, ip: Word32)
    requires Run(ws, acts, resp) && n.queue == [] && ws[0] == World(Connect(n, ip), None)
    requires |resp| <= MAX_DATA
    ensures forall i :: 0 <= i < |ws| ==> Inv(ws[i], resp) && Safe(ws[i], resp)
    decreases |acts|
  {
    hide In, Safe;
    if |acts| == 0 {
      ConnectStarts(n, ip, [], resp);
      assert In(ws[0].net, SynSentOut, [], resp);
      InvIsSafe(ws[0], resp);
    } else {
      var k := |acts| - 1;
      assert Allowed(ws[k], acts[k]) && ws[k + 1] == Step(ws[k], acts[k], resp);
      WholeRun(ws[..k + 1], acts[..k], resp, n, ip);
      assert Inv(ws[..k + 1][k], resp);
      StepKeepsInv(ws[k], acts[k], resp);
      InvIsSafe(ws[k + 1], resp);
      forall i | 0 <= i < |ws| ensures Inv(ws[i], resp) && Safe(ws[i], resp) {
        if i <= k { assert ws[..k + 1][i] == ws[i]; }
      }
    }
  }

  /** Draining any moment of a run ends idle, or served when a request was accepted. */
  lemma {:induction false} DrainSettles(n: Net, ph: Phase, data: seq<Byte>, resp: seq<Byte>)
    requires In(n, ph, data, resp) && |data| <= MAX_DATA && |resp| <= MAX_DATA
    ensures In(Drain(n, resp), if Accepted(ph) then Done else Quiet, data, resp)
    decreases Weight(n)
  {
    if |n.queue| > 0 {
      DeliveryStep(n, ph, data, resp);
      DeliverDecreases(n, resp);
      SamePromise(ph);
      hide In, Deliver, Weight, AfterDelivery, Accepted;
      DrainSettles(Deliver(n, resp), AfterDelivery(ph), data, resp);
    } else {
      EmptyQueue(n, ph, data, resp);
    }
  }

  lemma SamePromise(ph: Phase)
    ensures Accepted(AfterDelivery(ph)) == Accepted(ph)
  {
  }

  lemma EmptyQueue(n: Net, ph: Phase, data: seq<Byte>, resp: seq<Byte>)
    requires In(n, ph, data, resp) && n.queue == []
    ensures ph == if Accepted(ph) then Done else Quiet
  {
    hide Wire;
  }
}
