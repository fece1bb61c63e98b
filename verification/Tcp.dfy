/** One TCP connection of the passive-open server: its control block, what it has sent, and the
    transition a segment causes. */
module TcpConnection {
  import opened Machine
  import opened Bytes
  import Wire

  datatype State = Closed | Listen | SynReceived | Established | CloseWait | LastAck | TimeWait

  datatype Tcb = Tcb(
    localIp: nat, remoteIp: nat, localPort: nat, remotePort: nat, state: State,
    sndUna: nat, sndNxt: nat, rcvNxt: nat, rcvWnd: nat, sndWnd: nat)

  const FIN: int := 0x01
  const SYN: int := 0x02
  const RST: int := 0x04
  const PSH: int := 0x08
  const ACK: int := 0x10
  const DEFAULT_WINDOW: int := 8192

  predicate HasFin(flags: nat) { flags % 2 == 1 }
  predicate HasSyn(flags: nat) { flags / 2 % 2 == 1 }
  predicate HasRst(flags: nat) { flags / 4 % 2 == 1 }
  predicate HasAck(flags: nat) { flags / 16 % 2 == 1 }

  /** A segment handed to IPv4, with the addresses its checksum covers. */
  datatype Out = Out(fields: Wire.Fields, src: nat, dst: nat, payload: seq<Byte>)

  /** A segment that passed the header and checksum checks. */
  datatype Seg = Seg(src: nat, dst: nat, srcPort: nat, dstPort: nat, seqNo: nat, ackNo: nat, flags: nat, payload: seq<Byte>)

  /** A payload handed to the application and the sequence number of its first byte. */
  datatype Delivery = Delivery(seqNo: nat, payload: seq<Byte>)

  /** The life of a connection: our and the peer's initial sequence numbers, every segment sent,
      every payload delivered. */
  datatype Log = Log(isn: nat, irs: nat, sent: seq<Out>, delivered: seq<Delivery>)

  datatype Conn = Conn(tcb: Tcb, log: Log)

  // ---------------------------------------------------------------------------------------
  // Sending
  // ---------------------------------------------------------------------------------------

  /** `tcp_send_segment`. Without memory for the buffer it does nothing; else it hands over the
      segment and advances `snd_nxt`. */
  function Send(c: Conn, flags: nat, payload: seq<Byte>, granted: bool): Conn {
    if !granted then c
    else
      var t := c.tcb;
      var out := Out(Wire.Fields(t.localPort, t.remotePort, t.sndNxt, t.rcvNxt, flags, t.rcvWnd), t.localIp, t.remoteIp, payload);
      var bump := if HasSyn(flags) || HasFin(flags) then 1 else 0;
      c.(tcb := t.(sndNxt := ((t.sndNxt + bump) % U32 + |payload|) % U32), log := c.log.(sent := c.log.sent + [out]))
  }

  function SendData(c: Conn, payload: seq<Byte>, granted: bool): Conn {
    if c.tcb.state != Established then c else Send(c, PSH + ACK, payload, granted)
  }

  function Close(c: Conn, granted: bool): Conn {
    if c.tcb.state == Established || c.tcb.state == CloseWait then
      Send(c.(tcb := c.tcb.(state := LastAck)), FIN + ACK, [], granted)
    else c
  }

  /** `socket_dispatch`: sends the one response and closes. */
  function Dispatch(c: Conn, seqNo: nat, payload: seq<Byte>, response: seq<Byte>, mem: seq<bool>): Conn {
    var heard := c.(log := c.log.(delivered := c.log.delivered + [Delivery(seqNo, payload)]));
    Close(SendData(heard, response, Granted(mem, 0)), Granted(mem, 1))
  }

  /** Outcome of the `i`-th buffer allocation of a step. */
  function Granted(mem: seq<bool>, i: nat): bool { i < |mem| && mem[i] }

  // ---------------------------------------------------------------------------------------
  // The state machine
  // ---------------------------------------------------------------------------------------

  datatype Outcome = Keep(conn: Conn) | Remove(conn: Conn)

  function Open(seg: Seg, isn: nat, granted: bool): Conn {
    var t := Tcb(seg.dst, seg.src, seg.dstPort, seg.srcPort, SynReceived, isn, isn, (seg.seqNo + 1) % U32,
                 DEFAULT_WINDOW, DEFAULT_WINDOW);
    Send(Conn(t, Log(isn, seg.seqNo, [], [])), SYN + ACK, [], granted)
  }

  /** Data in order is delivered and acknowledged; anything else is ignored. */
  function OnData(c: Conn, seg: Seg, response: seq<Byte>, mem: seq<bool>): Conn {
    if |seg.payload| > 0 && seg.seqNo == c.tcb.rcvNxt then
      var c1 := c.(tcb := c.tcb.(rcvNxt := (c.tcb.rcvNxt + |seg.payload|) % U32));
      Send(Dispatch(c1, seg.seqNo, seg.payload, response, mem), ACK, [], Granted(mem, 2))
    else c
  }

  function OnFin(c: Conn, seg: Seg, mem: seq<bool>): Conn {
    if HasFin(seg.flags) then
      var c1 := Send(c.(tcb := c.tcb.(rcvNxt := (seg.seqNo + 1) % U32)), ACK, [], Granted(mem, 3));
      Close(c1.(tcb := c1.tcb.(state := CloseWait)), Granted(mem, 4))
    else c
  }

  function Advance(c: Conn, seg: Seg, response: seq<Byte>, mem: seq<bool>): Outcome {
    match c.tcb.state
    case SynReceived =>
      if HasAck(seg.flags) then Keep(c.(tcb := c.tcb.(sndUna := seg.ackNo, state := Established))) else Keep(c)
    case Established =>
      Keep(OnFin(OnData(c, seg, response, mem), seg, mem))
    case LastAck =>
      if HasAck(seg.flags) then Remove(c.(tcb := c.tcb.(state := Closed))) else Keep(c)
    case _ =>
      if HasRst(seg.flags) then Remove(c) else Keep(c)
  }

  // ---------------------------------------------------------------------------------------
  // What holds of every connection
  // ---------------------------------------------------------------------------------------

  /** Sequence space of a segment, section 3.3 of RFC 793: its data, plus one for SYN and for FIN. */
  function SeqLen(o: Out): nat {
    |o.payload| + (if HasSyn(o.fields.flags) then 1 else 0) + (if HasFin(o.fields.flags) then 1 else 0)
  }

  function SeqSpace(sent: seq<Out>): nat {
    if sent == [] then 0 else SeqSpace(sent[..|sent| - 1]) + SeqLen(sent[|sent| - 1])
  }

  /** Each segment starts where the previous ones ended, modulo 2^32. */
  ghost predicate Contiguous(isn: nat, sent: seq<Out>) {
    if sent == [] then true
    else
      var k := |sent| - 1;
      Contiguous(isn, sent[..k]) && sent[k].fields.seqNo == (isn + SeqSpace(sent[..k])) % U32
  }

  lemma {:induction false} ContiguousAt(isn: nat, sent: seq<Out>, k: nat)
    requires Contiguous(isn, sent) && k < |sent|
    ensures sent[k].fields.seqNo == (isn + SeqSpace(sent[..k])) % U32
    decreases |sent|
  {
    var last := |sent| - 1;
    if k < last {
      ContiguousAt(isn, sent[..last], k);
      assert sent[..last][..k] == sent[..k];
    }
  }

  /** Every field fits the header field it is written to. */
  ghost predicate Ranges(t: Tcb) {
    && t.localIp < U32 && t.remoteIp < U32 && t.localPort < 0x1_0000 && t.remotePort < 0x1_0000
    && t.sndNxt < U32 && t.rcvNxt < U32 && t.rcvWnd < 0x1_0000
  }

  ghost predicate SegRanges(seg: Seg) {
    && seg.src < U32 && seg.dst < U32 && seg.srcPort < 0x1_0000 && seg.dstPort < 0x1_0000
    && seg.seqNo < U32 && seg.ackNo < U32 && seg.flags < 256
  }

  /** The largest payload that survives the IPv4 length field. */
  const MAX_PAYLOAD: int := 65495

  ghost predicate Sendable(o: Out) {
    Wire.InRange(o.fields) && o.src < U32 && o.dst < U32 && |o.payload| <= MAX_PAYLOAD
  }

  ghost predicate SendOk(c: Conn) {
    && Ranges(c.tcb) && (forall i | 0 <= i < |c.log.sent| :: Sendable(c.log.sent[i]))
    && c.tcb.sndNxt == (c.log.isn + SeqSpace(c.log.sent)) % U32
    && Contiguous(c.log.isn, c.log.sent)
  }

  /** At most one delivery, of data that starts right after the peer's SYN. */
  ghost predicate DeliveredOk(log: Log) {
    |log.delivered| <= 1 && forall i | 0 <= i < |log.delivered| :: log.delivered[i].seqNo == (log.irs + 1) % U32
  }

  /** Until the connection closes nothing has been delivered and the window has not moved. */
  ghost predicate Fresh(c: Conn) {
    c.log.delivered == [] && c.tcb.rcvNxt == (c.log.irs + 1) % U32
  }

  /** Between segments a connection is in one of three states. */
  ghost predicate Ok(c: Conn) {
    && SendOk(c) && DeliveredOk(c.log)
    && c.tcb.state in {SynReceived, Established, LastAck}
    && (c.tcb.state != LastAck ==> Fresh(c))
  }

  lemma AddWrap(a: nat, b: nat, c: nat)
    ensures ((a + b) % U32 + c) % U32 == (a + b + c) % U32
  {
  }

  /** For every 8-bit flags and every 16-bit payload length: a segment keeps the numbering in order
      if and only if no buffer was granted, or it does not carry both SYN and FIN, which the code
      counts as one, and its payload survives the IPv4 length field. Nothing else is touched. */
  lemma SendKeeps(c: Conn, flags: nat, payload: seq<Byte>, granted: bool)
    requires SendOk(c) && flags < 256 && |payload| < 0x1_0000
    ensures var c' := Send(c, flags, payload, granted);
            && (SendOk(c') <==> !granted || (!(HasSyn(flags) && HasFin(flags)) && |payload| <= MAX_PAYLOAD))
            && c'.tcb.state == c.tcb.state && c'.tcb.rcvNxt == c.tcb.rcvNxt
            && c'.log == c.log.(sent := c'.log.sent) && c'.tcb == c.tcb.(sndNxt := c'.tcb.sndNxt)
  {
    if granted {
      var c' := Send(c, flags, payload, granted);
      var sent, sent' := c.log.sent, c'.log.sent;
      assert sent'[..|sent' | - 1] == sent;
      var last := sent'[|sent'| - 1];
      assert Sendable(last) <==> |payload| <= MAX_PAYLOAD;
      forall i | 0 <= i < |sent'| ensures Sendable(sent'[i]) || sent'[i] == last {
        if i < |sent| { assert sent'[i] == sent[i]; }
      }
      hide HasSyn, HasFin, Sendable;
      var bump := if HasSyn(flags) || HasFin(flags) then 1 else 0;
      AddWrap(c.tcb.sndNxt, bump, |payload|);
      AddWrap(c.log.isn, SeqSpace(sent), bump + |payload|);
      OffByOne(c.tcb.sndNxt + bump + |payload|);
      AddWrap(c.log.isn, SeqSpace(sent), SeqLen(last));
      hide Contiguous;
    }
  }

  lemma OffByOne(a: nat)
    ensures a % U32 != (a + 1) % U32
  {
  }

  lemma CloseKeeps(c: Conn, granted: bool)
    requires SendOk(c)
    ensures var c' := Close(c, granted);
            && SendOk(c') && c'.tcb.rcvNxt == c.tcb.rcvNxt && c'.log == c.log.(sent := c'.log.sent)
            && c'.tcb.state == if c.tcb.state in {Established, CloseWait} then LastAck else c.tcb.state
  {
    var c1 := c.(tcb := c.tcb.(state := LastAck));
    SendOkRanges(c);
    SendOkFrame(c, c1);
    hide Send, SendOk;
    SendKeeps(c1, FIN + ACK, [], granted);
  }

  lemma SendDataKeeps(c: Conn, payload: seq<Byte>, granted: bool)
    requires SendOk(c) && |payload| <= MAX_PAYLOAD
    ensures var c' := SendData(c, payload, granted);
            SendOk(c') && c'.tcb.state == c.tcb.state && c'.tcb.rcvNxt == c.tcb.rcvNxt && c'.log == c.log.(sent := c'.log.sent)
  {
    hide Send, SendOk;
    SendKeeps(c, PSH + ACK, payload, granted);
  }

  lemma OnDataKeeps(c: Conn, seg: Seg, response: seq<Byte>, mem: seq<bool>)
    requires Ok(c) && c.tcb.state == Established && |response| <= MAX_PAYLOAD
    ensures var c' := OnData(c, seg, response, mem);
            && SendOk(c') && DeliveredOk(c'.log) && c'.log.isn == c.log.isn && c'.log.irs == c.log.irs
            && (if |seg.payload| > 0 && seg.seqNo == c.tcb.rcvNxt
                then c'.tcb.state == LastAck && c'.log.delivered == [Delivery(seg.seqNo, seg.payload)]
                else c' == c)
  {
    hide Send, Dispatch, SendOk, HasFin, HasSyn;
    if |seg.payload| > 0 && seg.seqNo == c.tcb.rcvNxt {
      var c1 := c.(tcb := c.tcb.(rcvNxt := (c.tcb.rcvNxt + |seg.payload|) % U32));
      SendOkRanges(c);
      SendOkFrame(c, c1);
      hide Ranges;
      DispatchKeeps(c1, seg.seqNo, seg.payload, response, mem);
      AckKeeps(Dispatch(c1, seg.seqNo, seg.payload, response, mem), Granted(mem, 2));
    }
  }

  /** The application sees the payload once, answers once, and the connection is closing. */
  lemma DispatchKeeps(c: Conn, seqNo: nat, payload: seq<Byte>, response: seq<Byte>, mem: seq<bool>)
    requires SendOk(c) && c.tcb.state == Established && |response| <= MAX_PAYLOAD
    ensures var c' := Dispatch(c, seqNo, payload, response, mem);
            && SendOk(c') && c'.tcb.state == LastAck && c'.tcb.rcvNxt == c.tcb.rcvNxt
            && c'.log == c.log.(sent := c'.log.sent, delivered := c.log.delivered + [Delivery(seqNo, payload)])
  {
    var c2 := c.(log := c.log.(delivered := c.log.delivered + [Delivery(seqNo, payload)]));
    assert SendOk(c2) by { SendOkRanges(c); SendOkFrame(c, c2); }
    hide Send, SendData, Close, SendOk;
    SendDataKeeps(c2, response, Granted(mem, 0));
    CloseKeeps(SendData(c2, response, Granted(mem, 0)), Granted(mem, 1));
  }

  lemma AckKeeps(c: Conn, granted: bool)
    requires SendOk(c)
    ensures var c' := Send(c, ACK, [], granted);
            SendOk(c') && c'.log == c.log.(sent := c'.log.sent) && c'.tcb == c.tcb.(sndNxt := c'.tcb.sndNxt)
  {
    SendKeeps(c, ACK, [], granted);
  }

  lemma SendOkRanges(c: Conn)
    requires SendOk(c)
    ensures Ranges(c.tcb)
  {
  }

  lemma SendOkFrame(c: Conn, c': Conn)
    requires SendOk(c) && Ranges(c'.tcb) && c'.tcb.sndNxt == c.tcb.sndNxt && c'.log.sent == c.log.sent && c'.log.isn == c.log.isn
    ensures SendOk(c')
  {
  }

  lemma OnFinKeeps(c: Conn, seg: Seg, mem: seq<bool>)
    requires SendOk(c)
    ensures var c' := OnFin(c, seg, mem);
            && SendOk(c') && c'.log == c.log.(sent := c'.log.sent)
            && (if HasFin(seg.flags) then c'.tcb.state == LastAck else c' == c)
  {
    assert Ranges(c.tcb);
    hide Send, Close, SendOk;
    if HasFin(seg.flags) {
      var c0 := c.(tcb := c.tcb.(rcvNxt := (seg.seqNo + 1) % U32));
      SendOkFrame(c, c0);
      AckKeeps(c0, Granted(mem, 3));
      var c1 := Send(c0, ACK, [], Granted(mem, 3));
      SendOkRanges(c1);
      SendOkFrame(c1, c1.(tcb := c1.tcb.(state := CloseWait)));
      CloseKeeps(c1.(tcb := c1.tcb.(state := CloseWait)), Granted(mem, 4));
    }
  }

  /** A new connection is in order from its first segment on. */
  lemma OpenOk(seg: Seg, isn: nat, granted: bool)
    requires isn < U32 && SegRanges(seg)
    ensures var c := Open(seg, isn, granted);
            Ok(c) && c.tcb.state == SynReceived && c.log.isn == isn && c.log.irs == seg.seqNo
  {
    var t := Tcb(seg.dst, seg.src, seg.dstPort, seg.srcPort, SynReceived, isn, isn, (seg.seqNo + 1) % U32,
                 DEFAULT_WINDOW, DEFAULT_WINDOW);
    SendKeeps(Conn(t, Log(isn, seg.seqNo, [], [])), SYN + ACK, [], granted);
  }

  function Rank(s: State): nat {
    match s
    case SynReceived => 1
    case Established => 2
    case LastAck => 3
    case Closed => 4
    case _ => 0
  }

  /** Every segment keeps a connection in order and moves it forward only; it is removed only from
      LAST_ACK, on an ACK, and never through the default branch. */
  lemma AdvanceKeeps(c: Conn, seg: Seg, response: seq<Byte>, mem: seq<bool>)
    requires Ok(c) && SegRanges(seg) && |response| <= MAX_PAYLOAD
    ensures var o := Advance(c, seg, response, mem);
            && Rank(o.conn.tcb.state) >= Rank(c.tcb.state) >= 1
            && o.conn.log.isn == c.log.isn && o.conn.log.irs == c.log.irs
            && (o.Keep? ==> Ok(o.conn))
            && (o.Remove? <==> c.tcb.state == LastAck && HasAck(seg.flags))
            && (o.Remove? ==> o.conn.log == c.log)
  {
    hide OnData, OnFin, SendOk, HasFin, HasAck, HasRst;
    SendOkRanges(c);
    match c.tcb.state
    case SynReceived => SendOkFrame(c, c.(tcb := c.tcb.(sndUna := seg.ackNo, state := Established)));
    case Established =>
      OnDataKeeps(c, seg, response, mem);
      OnFinKeeps(OnData(c, seg, response, mem), seg, mem);
    case LastAck =>
  }

  /** The segments sent before a step are a prefix of those sent after it, and a delivery, once
      made, stays: logs only grow. */
  lemma LogsGrow(c: Conn, seg: Seg, response: seq<Byte>, mem: seq<bool>)
    ensures var o := Advance(c, seg, response, mem);
            c.log.sent <= o.conn.log.sent && c.log.delivered <= o.conn.log.delivered
  {
    hide OnData, OnFin, HasAck, HasRst;
    DataGrows(c, seg, response, mem);
    FinGrows(OnData(c, seg, response, mem), seg, mem);
  }

  lemma DataGrows(c: Conn, seg: Seg, response: seq<Byte>, mem: seq<bool>)
    ensures var c' := OnData(c, seg, response, mem);
            c.log.sent <= c'.log.sent && c.log.delivered <= c'.log.delivered
  {
    hide HasSyn, HasFin;
  }

  lemma FinGrows(c: Conn, seg: Seg, mem: seq<bool>)
    ensures var c' := OnFin(c, seg, mem);
            c.log.sent <= c'.log.sent && c'.log.delivered == c.log.delivered
  {
    hide HasSyn, HasFin;
  }

  /** Every segment was sent from the connection's own address. */
  ghost predicate SentFrom(c: Conn) {
    forall i | 0 <= i < |c.log.sent| :: c.log.sent[i].src == c.tcb.localIp
  }

  lemma SendFrom(c: Conn, flags: nat, payload: seq<Byte>, granted: bool)
    requires SentFrom(c)
    ensures SentFrom(Send(c, flags, payload, granted)) && Send(c, flags, payload, granted).tcb.localIp == c.tcb.localIp
  {
  }

  lemma DispatchFrom(c: Conn, seqNo: nat, payload: seq<Byte>, response: seq<Byte>, mem: seq<bool>)
    requires SentFrom(c)
    ensures var c' := Dispatch(c, seqNo, payload, response, mem); SentFrom(c') && c'.tcb.localIp == c.tcb.localIp
  {
    hide Send;
    var heard := c.(log := c.log.(delivered := c.log.delivered + [Delivery(seqNo, payload)]));
    SendFrom(heard, PSH + ACK, response, Granted(mem, 0));
    var c1 := SendData(heard, response, Granted(mem, 0));
    SendFrom(c1.(tcb := c1.tcb.(state := LastAck)), FIN + ACK, [], Granted(mem, 1));
  }

  lemma DataFrom(c: Conn, seg: Seg, response: seq<Byte>, mem: seq<bool>)
    requires SentFrom(c)
    ensures SentFrom(OnData(c, seg, response, mem)) && OnData(c, seg, response, mem).tcb.localIp == c.tcb.localIp
  {
    hide Send, Dispatch;
    var c1 := c.(tcb := c.tcb.(rcvNxt := (c.tcb.rcvNxt + |seg.payload|) % U32));
    DispatchFrom(c1, seg.seqNo, seg.payload, response, mem);
    SendFrom(Dispatch(c1, seg.seqNo, seg.payload, response, mem), ACK, [], Granted(mem, 2));
  }

  lemma FinFrom(c: Conn, seg: Seg, mem: seq<bool>)
    requires SentFrom(c)
    ensures SentFrom(OnFin(c, seg, mem))
  {
    hide Send;
    var c0 := c.(tcb := c.tcb.(rcvNxt := (seg.seqNo + 1) % U32));
    SendFrom(c0, ACK, [], Granted(mem, 3));
    var c1 := Send(c0, ACK, [], Granted(mem, 3));
    SendFrom(c1.(tcb := c1.tcb.(state := LastAck)), FIN + ACK, [], Granted(mem, 4));
  }

  lemma AdvanceFrom(c: Conn, seg: Seg, response: seq<Byte>, mem: seq<bool>)
    requires SentFrom(c)
    ensures SentFrom(Advance(c, seg, response, mem).conn)
  {
    hide OnData, OnFin;
    DataFrom(c, seg, response, mem);
    FinFrom(OnData(c, seg, response, mem), seg, mem);
  }

  /** An address is fixed for the life of a connection. */
  lemma SameKey(c: Conn, seg: Seg, response: seq<Byte>, mem: seq<bool>)
    ensures var t, t' := c.tcb, Advance(c, seg, response, mem).conn.tcb;
            t'.localIp == t.localIp && t'.remoteIp == t.remoteIp && t'.localPort == t.localPort && t'.remotePort == t.remotePort
  {
  }

  /** Whatever a connection at address `me` has sent, a peer running the same code accepts it, field by
      field, from the packet that IPv4 builds around it with `me` as its source, padded or not. */
  lemma SentIsAccepted(c: Conn, me: nat, k: nat, pad: seq<Byte>)
    requires Ok(c) && SentFrom(c) && c.tcb.localIp == me && k < |c.log.sent|
    ensures me < U32 && Sendable(c.log.sent[k])
    ensures var o := c.log.sent[k];
            var s := Wire.BuildTcp(o.fields, o.src, o.dst, o.payload);
            && Wire.HandleIp(Wire.BuildIp(6, me, o.dst, s) + pad, o.dst) == Wire.Deliver(6, me, o.dst, s)
            && Wire.ParseTcp(s, me, o.dst)
               == Wire.Accept(o.fields.srcPort, o.fields.dstPort, o.fields.seqNo, o.fields.ackNo, o.fields.flags, o.payload)
  {
    var o := c.log.sent[k];
    Wire.FullStackRoundTrip(o.fields, me, o.dst, o.payload, pad);
    hide Wire.BuildTcp, Wire.HandleIp, Wire.BuildIp, Wire.ParseTcp;
  }

  /** The exchange the server exists for: SYN, ACK, one request, final ACK. With memory for its
      buffers the server answers with SYN-ACK, the response, FIN and an ACK of the request, at
      consecutive sequence numbers, delivers the request once, and forgets the connection. */
  lemma OneRequest(syn: Seg, ack: Seg, data: Seg, last: Seg, isn: nat, response: seq<Byte>)
    requires isn < U32 && SegRanges(syn) && HasAck(ack.flags) && HasAck(last.flags)
    requires data.seqNo == (syn.seqNo + 1) % U32 && |data.payload| > 0 && !HasFin(data.flags)
    ensures var mem := [true, true, true];
            var c0 := Open(syn, isn, true);
            var c1 := Advance(c0, ack, response, mem).conn;
            var c2 := Advance(c1, data, response, mem).conn;
            var o := Advance(c2, last, response, mem);
            var n := |response|;
            var acked := (data.seqNo + |data.payload|) % U32;
            && c1.tcb.state == Established && c1.tcb.sndUna == ack.ackNo
            && o.Remove? && o.conn.log == c2.log && c2.log.delivered == [Delivery(data.seqNo, data.payload)]
            && |c2.log.sent| == 4
            && c2.log.sent[0] == Answer(syn, isn, data.seqNo, SYN + ACK, [])
            && c2.log.sent[1] == Answer(syn, (isn + 1) % U32, acked, PSH + ACK, response)
            && c2.log.sent[2] == Answer(syn, (isn + 1 + n) % U32, acked, FIN + ACK, [])
            && c2.log.sent[3] == Answer(syn, (isn + 2 + n) % U32, acked, ACK, [])
  {
    hide Open, Advance, HasFin, HasAck;
    OpenAnswers(syn, isn);
    var c0, mem := Open(syn, isn, true), [true, true, true];
    Acknowledged(c0, ack, response, mem);
    var c1 := Advance(c0, ack, response, mem).conn;
    RequestAnswered(c1, data, response, mem);
    Forgotten(Advance(c1, data, response, mem).conn, last, response, mem);
    AddWrap(isn, 1, |response|);
    AddWrap(isn, 1, 1 + |response|);
  }

  lemma OpenAnswers(syn: Seg, isn: nat)
    requires isn < U32
    ensures var c := Open(syn, isn, true);
            && c.tcb == Tcb(syn.dst, syn.src, syn.dstPort, syn.srcPort, SynReceived, isn, (isn + 1) % U32,
                            (syn.seqNo + 1) % U32, DEFAULT_WINDOW, DEFAULT_WINDOW)
            && c.log == Log(isn, syn.seqNo, [Answer(syn, isn, (syn.seqNo + 1) % U32, SYN + ACK, [])], [])
  {
    AddWrap(isn, 1, 0);
  }

  lemma Acknowledged(c: Conn, ack: Seg, response: seq<Byte>, mem: seq<bool>)
    requires c.tcb.state == SynReceived && HasAck(ack.flags)
    ensures Advance(c, ack, response, mem) == Keep(c.(tcb := c.tcb.(sndUna := ack.ackNo, state := Established)))
  {
  }

  lemma Forgotten(c: Conn, last: Seg, response: seq<Byte>, mem: seq<bool>)
    requires c.tcb.state == LastAck && HasAck(last.flags)
    ensures Advance(c, last, response, mem) == Remove(c.(tcb := c.tcb.(state := Closed)))
  {
  }

  /** A segment of the connection itself. */
  function Own(t: Tcb, seqNo: nat, ackNo: nat, flags: nat, payload: seq<Byte>): Out {
    Out(Wire.Fields(t.localPort, t.remotePort, seqNo, ackNo, flags, t.rcvWnd), t.localIp, t.remoteIp, payload)
  }

  /** A request in order is delivered and answered, whatever memory there is, by the response, a FIN and
      an acknowledgement, each where there is a buffer for it and at the number behind those sent. */
  lemma DataAnswered(c: Conn, data: Seg, response: seq<Byte>, mem: seq<bool>)
    requires c.tcb.state == Established && c.tcb.sndNxt < U32 && data.seqNo == c.tcb.rcvNxt && |data.payload| > 0
    ensures var t, c' := c.tcb, OnData(c, data, response, mem);
            var acked := (t.rcvNxt + |data.payload|) % U32;
            var second := if Granted(mem, 0) then (t.sndNxt + |response|) % U32 else t.sndNxt;
            var third := if Granted(mem, 1) then (second + 1) % U32 else second;
            && c'.tcb == t.(state := LastAck, rcvNxt := acked, sndNxt := third)
            && c'.log.delivered == c.log.delivered + [Delivery(data.seqNo, data.payload)]
            && c'.log.sent == c.log.sent
                 + (if Granted(mem, 0) then [Own(t, t.sndNxt, acked, PSH + ACK, response)] else [])
                 + (if Granted(mem, 1) then [Own(t, second, acked, FIN + ACK, [])] else [])
                 + (if Granted(mem, 2) then [Own(t, third, acked, ACK, [])] else [])
  {
    hide Send, SendData, Close, Granted;
    var c1 := c.(tcb := c.tcb.(rcvNxt := (c.tcb.rcvNxt + |data.payload|) % U32),
                 log := c.log.(delivered := c.log.delivered + [Delivery(data.seqNo, data.payload)]));
    DataSent(c1, response, Granted(mem, 0));
    var c2 := SendData(c1, response, Granted(mem, 0));
    CloseSent(c2, Granted(mem, 1));
    AckSent(Close(c2, Granted(mem, 1)), Granted(mem, 2));
  }

  /** `tcp_send_data` sends in ESTABLISHED only: one segment with PSH and ACK, at the next number. */
  lemma DataSent(c: Conn, payload: seq<Byte>, granted: bool)
    requires c.tcb.sndNxt < U32
    ensures var t, c' := c.tcb, SendData(c, payload, granted);
            if t.state == Established && granted then
              && c'.log == c.log.(sent := c.log.sent + [Own(t, t.sndNxt, t.rcvNxt, PSH + ACK, payload)])
              && c'.tcb == t.(sndNxt := (t.sndNxt + |payload|) % U32)
            else c' == c
  {
    SendPlain(c, payload);
    hide Send;
    NotGranted(c, PSH + ACK, payload);
  }

  lemma NotGranted(c: Conn, flags: nat, payload: seq<Byte>)
    ensures Send(c, flags, payload, false) == c
  {
  }

  /** `tcp_close` sends its FIN in ESTABLISHED and CLOSE_WAIT only, and is in LAST_ACK afterwards even
      without memory for the FIN. */
  lemma CloseSent(c: Conn, granted: bool)
    ensures var t, c' := c.tcb, Close(c, granted);
            if t.state == Established || t.state == CloseWait then
              && c'.tcb == t.(state := LastAck, sndNxt := if granted then (t.sndNxt + 1) % U32 else t.sndNxt)
              && c'.log == c.log.(sent := c.log.sent + if granted then [Own(t, t.sndNxt, t.rcvNxt, FIN + ACK, [])] else [])
            else c' == c
  {
    var c1 := c.(tcb := c.tcb.(state := LastAck));
    SendLast(c1);
    NotGranted(c1, FIN + ACK, []);
    hide Send;
  }

  lemma RequestAnswered(c: Conn, data: Seg, response: seq<Byte>, mem: seq<bool>)
    requires c.tcb.state == Established && c.tcb.sndNxt < U32 && data.seqNo == c.tcb.rcvNxt
    requires |data.payload| > 0 && !HasFin(data.flags) && mem == [true, true, true]
    ensures Advance(c, data, response, mem) == Keep(OnData(c, data, response, mem))
    ensures var t, n, c' := c.tcb, |response|, OnData(c, data, response, mem);
            var acked := (t.rcvNxt + |data.payload|) % U32;
            && c'.tcb.state == LastAck
            && c'.log.delivered == c.log.delivered + [Delivery(data.seqNo, data.payload)]
            && c'.log.sent == c.log.sent
                 + [Own(t, t.sndNxt, acked, PSH + ACK, response)]
                 + [Own(t, (t.sndNxt + n) % U32, acked, FIN + ACK, [])]
                 + [Own(t, (t.sndNxt + (1 + n)) % U32, acked, ACK, [])]
  {
    hide OnData, HasFin;
    DataAnswered(c, data, response, mem);
    AddWrap(c.tcb.sndNxt, |response|, 1);
  }

  lemma AckSent(c: Conn, granted: bool)
    requires c.tcb.sndNxt < U32
    ensures var t, c' := c.tcb, Send(c, ACK, [], granted);
            && c'.tcb == t
            && c'.log == c.log.(sent := c.log.sent + if granted then [Own(t, t.sndNxt, t.rcvNxt, ACK, [])] else [])
  {
    AddWrap(c.tcb.sndNxt, 0, 0);
  }

  lemma SendPlain(c: Conn, payload: seq<Byte>)
    requires c.tcb.sndNxt < U32
    ensures var t := c.tcb;
            Send(c, PSH + ACK, payload, true) ==
              Conn(t.(sndNxt := (t.sndNxt + |payload|) % U32),
                   c.log.(sent := c.log.sent + [Own(t, t.sndNxt, t.rcvNxt, PSH + ACK, payload)]))
  {
    AddWrap(c.tcb.sndNxt, 0, |payload|);
  }

  lemma SendLast(c: Conn)
    ensures var t := c.tcb;
            Send(c, FIN + ACK, [], true) ==
              Conn(t.(sndNxt := (t.sndNxt + 1) % U32), c.log.(sent := c.log.sent + [Own(t, t.sndNxt, t.rcvNxt, FIN + ACK, [])]))
  {
    AddWrap(c.tcb.sndNxt, 1, 0);
  }

  /** A segment back to the sender of `syn`. */
  function Answer(syn: Seg, seqNo: nat, ackNo: nat, flags: nat, payload: seq<Byte>): Out {
    Out(Wire.Fields(syn.dstPort, syn.srcPort, seqNo, ackNo, flags, DEFAULT_WINDOW), syn.dst, syn.src, payload)
  }
}
