/** What a connection answers, case by case: the exact segments, numbers and states. */
module TcpAnswers {
  import opened Machine
  import opened Arith
  import opened Bytes
  import opened TcpConnection
  import Wire

  /** The control bits of section 3.1 of RFC 793, and that the tests in the code read just the bit they
      name, whatever the others are. */
  lemma ControlBits(fin: bool, syn: bool, rst: bool, psh: bool, ack: bool, rest: nat)
    requires rest < 8
    ensures FIN == 1 && SYN == 2 && RST == 4 && PSH == 8 && ACK == 16
    ensures var flags := (if fin then 1 else 0) + (if syn then 2 else 0) + (if rst then 4 else 0)
                         + (if psh then 8 else 0) + (if ack then 16 else 0) + 32 * rest;
            flags < 256 && HasFin(flags) == fin && HasSyn(flags) == syn && HasRst(flags) == rst && HasAck(flags) == ack
  {
    var f, s, r, p, a := Bit(fin), Bit(syn), Bit(rst), Bit(psh), Bit(ack);
    var flags := f + 2 * s + 4 * r + 8 * p + 16 * a + 32 * rest;
    BitAt(flags, 1, 0, f, s + 2 * r + 4 * p + 8 * a + 16 * rest);
    BitAt(flags, 2, f, s, r + 2 * p + 4 * a + 8 * rest);
    BitAt(flags, 4, f + 2 * s, r, p + 2 * a + 4 * rest);
    BitAt(flags, 16, f + 2 * s + 4 * r + 8 * p, a, rest);
  }

  function Bit(b: bool): nat { if b then 1 else 0 }

  lemma BitAt(n: nat, unit: nat, low: nat, bit: nat, high: nat)
    requires low < unit && bit < 2 && n == low + unit * (bit + 2 * high)
    ensures n / unit % 2 == bit
  {
    DivisionUnique(n, unit, bit + 2 * high, low);
    DivisionUnique(bit + 2 * high, 2, high, bit);
  }

  /** In SYN_RECEIVED an acknowledgement, and nothing else, establishes the connection; any other segment
      leaves it as it is, and nothing is sent either way. */
  lemma EstablishedIff(c: Conn, seg: Seg, response: seq<Byte>, mem: seq<bool>)
    requires c.tcb.state == SynReceived
    ensures var o := Advance(c, seg, response, mem);
            && o.Keep? && (o.conn.tcb.state == Established <==> HasAck(seg.flags))
            && (HasAck(seg.flags) ==> o.conn.tcb == c.tcb.(state := Established, sndUna := seg.ackNo))
            && (!HasAck(seg.flags) ==> o.conn == c) && o.conn.log == c.log
  {
    hide HasAck, HasFin;
  }

  /** In LAST_ACK an acknowledgement removes the connection, and anything else is ignored. */
  lemma RemovedIff(c: Conn, seg: Seg, response: seq<Byte>, mem: seq<bool>)
    requires c.tcb.state == LastAck
    ensures var o := Advance(c, seg, response, mem);
            && (o.Remove? <==> HasAck(seg.flags)) && o.conn.log == c.log && (o.Keep? ==> o.conn == c)
  {
    hide HasAck, HasFin;
  }

  /** Nothing in order and no FIN: an established connection ignores the segment. */
  lemma Ignored(c: Conn, seg: Seg, response: seq<Byte>, mem: seq<bool>)
    requires c.tcb.state == Established && !HasFin(seg.flags)
    requires seg.payload == [] || seg.seqNo != c.tcb.rcvNxt
    ensures Advance(c, seg, response, mem) == Keep(c)
  {
    hide HasFin;
  }

  /** The answer to a FIN, whatever memory there is: an acknowledgement of the number behind the FIN, and
      a FIN with the same acknowledgement; then LAST_ACK. */
  lemma FinSent(c: Conn, seg: Seg, mem: seq<bool>)
    requires HasFin(seg.flags) && c.tcb.sndNxt < U32
    ensures var t, c' := c.tcb, OnFin(c, seg, mem);
            var acked := (seg.seqNo + 1) % U32;
            && c'.tcb == t.(state := LastAck, rcvNxt := acked,
                            sndNxt := if Granted(mem, 4) then (t.sndNxt + 1) % U32 else t.sndNxt)
            && c'.log.delivered == c.log.delivered
            && c'.log.sent == c.log.sent
                 + (if Granted(mem, 3) then [Own(t, t.sndNxt, acked, ACK, [])] else [])
                 + (if Granted(mem, 4) then [Own(t, t.sndNxt, acked, FIN + ACK, [])] else [])
  {
    hide Send, Close, HasFin, Granted;
    var c0 := c.(tcb := c.tcb.(rcvNxt := (seg.seqNo + 1) % U32));
    AckSent(c0, Granted(mem, 3));
    var c1 := Send(c0, ACK, [], Granted(mem, 3));
    CloseSent(c1.(tcb := c1.tcb.(state := CloseWait)), Granted(mem, 4));
  }

  /** A FIN without data in order: exactly that answer, and nothing is delivered. */
  lemma FinAnswered(c: Conn, seg: Seg, response: seq<Byte>, mem: seq<bool>)
    requires c.tcb.state == Established && c.tcb.sndNxt < U32 && HasFin(seg.flags)
    requires seg.payload == [] || seg.seqNo != c.tcb.rcvNxt
    ensures var t, o := c.tcb, Advance(c, seg, response, mem);
            var acked := (seg.seqNo + 1) % U32;
            && o.Keep? && o.conn.tcb.state == LastAck && o.conn.tcb.rcvNxt == acked
            && o.conn.log.delivered == c.log.delivered
            && o.conn.log.sent == c.log.sent
                 + (if Granted(mem, 3) then [Own(t, t.sndNxt, acked, ACK, [])] else [])
                 + (if Granted(mem, 4) then [Own(t, t.sndNxt, acked, FIN + ACK, [])] else [])
  {
    FinSent(c, seg, mem);
    hide OnFin, HasFin, Granted, Dispatch, Send;
  }

  /** A request that carries a FIN as well: after the response, the FIN and the acknowledgement of the
      data, the FIN branch acknowledges the number behind the segment's first byte, steps back to
      CLOSE_WAIT, and closes a second time with a second FIN. */
  lemma RequestWithFin(c: Conn, data: Seg, response: seq<Byte>, mem: seq<bool>)
    requires c.tcb.state == Established && c.tcb.sndNxt < U32 && data.seqNo == c.tcb.rcvNxt
    requires |data.payload| > 0 && HasFin(data.flags) && mem == [true, true, true, true, true]
    ensures var t, n, o := c.tcb, |response|, Advance(c, data, response, mem);
            var acked, back := (t.rcvNxt + |data.payload|) % U32, (data.seqNo + 1) % U32;
            var next := (t.sndNxt + (1 + n)) % U32;
            && o.Keep? && o.conn.tcb.state == LastAck && o.conn.tcb.rcvNxt == back
            && o.conn.log.delivered == c.log.delivered + [Delivery(data.seqNo, data.payload)]
            && o.conn.log.sent == c.log.sent
                 + [Own(t, t.sndNxt, acked, PSH + ACK, response)]
                 + [Own(t, (t.sndNxt + n) % U32, acked, FIN + ACK, [])]
                 + [Own(t, next, acked, ACK, [])]
                 + [Own(t, next, back, ACK, [])]
                 + [Own(t, next, back, FIN + ACK, [])]
  {
    var c1 := OnData(c, data, response, mem);
    DataAnswered(c, data, response, mem);
    AddWrap(c.tcb.sndNxt, |response|, 1);
    FinSent(c1, data, mem);
    hide OnData, OnFin, HasFin;
  }

  /** RFC 793 asks for the acknowledgement of data and FIN together. For a segment in order with a FIN the
      code ends with that number exactly when the segment carries no data. */
  lemma FinNumberIff(c: Conn, seg: Seg, response: seq<Byte>, mem: seq<bool>)
    requires Ok(c) && c.tcb.state == Established && SegRanges(seg) && HasFin(seg.flags)
    requires seg.seqNo == c.tcb.rcvNxt && |seg.payload| < 65536 && |response| <= MAX_PAYLOAD
    ensures Advance(c, seg, response, mem).conn.tcb.rcvNxt == (seg.seqNo + |seg.payload| + 1) % U32 <==> seg.payload == []
  {
    OnDataKeeps(c, seg, response, mem);
    SendOkRanges(OnData(c, seg, response, mem));
    FinSent(OnData(c, seg, response, mem), seg, mem);
    hide OnData, OnFin, HasFin, SendOk, SegRanges, Granted;
    NumbersDiffer(seg.seqNo, |seg.payload|);
  }

  lemma NumbersDiffer(seqNo: nat, n: nat)
    requires n < 65536
    ensures (seqNo + 1) % U32 == (seqNo + n + 1) % U32 <==> n == 0
  {
  }
}
