/** What leaves the machine: the segments that the connection table hands to IPv4, step by step. */
module TcpWire {
  import opened Machine
  import opened Bytes
  import opened TcpConnection
  import opened TcpTable
  import Wire

  /** What a log has gained. */
  function Since(log: Log, log': Log): seq<Out> {
    if |log.sent| <= |log'.sent| then log'.sent[|log.sent|..] else []
  }

  /** Between two moments in a connection's life, exactly what is new in its log went to IPv4. */
  ghost predicate Relayed(wire: seq<Out>, wire': seq<Out>, c: Conn, c': Conn) {
    c.log.sent <= c'.log.sent && wire' == wire + Since(c.log, c'.log)
  }

  lemma RelayedNothing(wire: seq<Out>, c: Conn, c': Conn)
    requires c'.log.sent == c.log.sent
    ensures Relayed(wire, wire, c, c')
  {
  }

  lemma RelayedOne(wire: seq<Out>, o: Out, c: Conn, c': Conn)
    requires c'.log.sent == c.log.sent + [o]
    ensures Relayed(wire, wire + [o], c, c')
  {
  }

  lemma RelayedTrans(wire: seq<Out>, wire1: seq<Out>, wire2: seq<Out>, c: Conn, c1: Conn, c2: Conn)
    requires Relayed(wire, wire1, c, c1) && Relayed(wire1, wire2, c1, c2)
    ensures Relayed(wire, wire2, c, c2)
  {
    assert c2.log.sent == c.log.sent + Since(c.log, c1.log) + Since(c1.log, c2.log);
  }

  /** The segments handed to IPv4 by one arrival: those new in the log of the connection concerned, or
      the one reset. */
  function Emitted(s: Stack, seg: Seg, addr: nat, response: seq<Byte>, mem: seq<bool>): seq<Out> {
    var k := Find(s.live, SegKey(seg), 0);
    if k < |s.live| then Since(s.live[k].conn.log, Advance(s.live[k].conn, seg, response, mem).conn.log)
    else if HasSyn(seg.flags) && seg.dstPort == HTTP_PORT then
      if addr == NULL then [] else Open(seg, s.isn, Granted(mem, 0)).log.sent
    else [Reset(seg)]
  }

  /** Everything handed to IPv4 in a run, in order. */
  function OnWire(s: Stack, xs: seq<Arrival>, response: seq<Byte>): seq<Out>
    decreases |xs|
  {
    if xs == [] then []
    else
      var x := xs[0];
      Emitted(s, x.seg, x.addr, response, x.mem) + OnWire(Input(s, x.seg, x.addr, response, x.mem), xs[1..], response)
  }

  // ---------------------------------------------------------------------------------------
  // The wire carries the logs, and nothing else
  // ---------------------------------------------------------------------------------------

  function LiveSent(live: seq<Entry>): multiset<Out> {
    if live == [] then multiset{} else multiset(live[0].conn.log.sent) + LiveSent(live[1..])
  }

  function ClosedSent(closed: seq<Log>): multiset<Out> {
    if closed == [] then multiset{}
    else ClosedSent(closed[..|closed| - 1]) + multiset(closed[|closed| - 1].sent)
  }

  /** Every segment in the log of a connection, past or present, and every reset. */
  function AllSent(s: Stack): multiset<Out> {
    LiveSent(s.live) + ClosedSent(s.closed) + multiset(s.resets)
  }

  lemma {:induction false} LiveSentUpdate(live: seq<Entry>, k: nat, c: Conn, more: seq<Out>)
    requires k < |live| && c.log.sent == live[k].conn.log.sent + more
    ensures LiveSent(live[k := live[k].(conn := c)]) == LiveSent(live) + multiset(more)
  {
    var live' := live[k := live[k].(conn := c)];
    if k == 0 {
      assert live'[1..] == live[1..];
    } else {
      assert live'[1..] == live[1..][k - 1 := live[k].(conn := c)];
      LiveSentUpdate(live[1..], k - 1, c, more);
    }
  }

  lemma {:induction false} LiveSentRemove(live: seq<Entry>, k: nat)
    requires k < |live|
    ensures LiveSent(live) == LiveSent(Without(live, k)) + multiset(live[k].conn.log.sent)
  {
    if k == 0 {
      assert Without(live, 0) == live[1..];
    } else {
      assert Without(live, k)[1..] == Without(live[1..], k - 1);
      LiveSentRemove(live[1..], k - 1);
    }
  }

  /** One arrival adds to the logs exactly what it emits. */
  lemma StepConserves(s: Stack, seg: Seg, addr: nat, response: seq<Byte>, mem: seq<bool>)
    requires Inv(s) && Admissible(s, seg, addr) && |response| <= MAX_PAYLOAD
    ensures AllSent(Input(s, seg, addr, response, mem)) == AllSent(s) + multiset(Emitted(s, seg, addr, response, mem))
  {
    var k := Find(s.live, SegKey(seg), 0);
    hide Open, Advance, HasSyn, Inv, Find, SegRanges;
    var s' := Input(s, seg, addr, response, mem);
    if k < |s.live| {
      LiveStep(s, seg, addr, response, mem, k);
    } else if s'.live != s.live {
      assert s'.live[1..] == s.live;
    }
  }

  lemma KeepConserves(s: Stack, k: nat, c: Conn, more: seq<Out>)
    requires k < |s.live| && c.log.sent == s.live[k].conn.log.sent + more
    ensures AllSent(s.(live := s.live[k := s.live[k].(conn := c)])) == AllSent(s) + multiset(more)
  {
    LiveSentUpdate(s.live, k, c, more);
  }

  lemma CloseConserves(s: Stack, k: nat, log: Log)
    requires k < |s.live| && log.sent == s.live[k].conn.log.sent
    ensures AllSent(s.(live := Without(s.live, k), closed := s.closed + [log])) == AllSent(s)
  {
    LiveSentRemove(s.live, k);
    var closed' := s.closed + [log];
    assert closed'[..|closed'| - 1] == s.closed;
  }

  lemma EntryOk(s: Stack, k: nat)
    requires Inv(s) && k < |s.live|
    ensures Ok(s.live[k].conn)
  {
  }

  /** A connection's log grows by what is new in it, and by nothing on removal. */
  lemma ConnGrows(c: Conn, seg: Seg, response: seq<Byte>, mem: seq<bool>)
    requires Ok(c) && SegRanges(seg) && |response| <= MAX_PAYLOAD
    ensures var o := Advance(c, seg, response, mem);
            o.conn.log.sent == c.log.sent + Since(c.log, o.conn.log) && (o.Remove? ==> Since(c.log, o.conn.log) == [])
  {
    hide Advance, Ok, HasAck, SegRanges;
    AdvanceKeeps(c, seg, response, mem);
    LogsGrow(c, seg, response, mem);
  }

  /** What one arrival does to a listed connection. */
  lemma LiveCase(s: Stack, seg: Seg, addr: nat, response: seq<Byte>, mem: seq<bool>, k: nat)
    requires k == Find(s.live, SegKey(seg), 0) < |s.live|
    ensures var o := Advance(s.live[k].conn, seg, response, mem);
            && Emitted(s, seg, addr, response, mem) == Since(s.live[k].conn.log, o.conn.log)
            && Input(s, seg, addr, response, mem) ==
                 if o.Keep? then s.(live := s.live[k := s.live[k].(conn := o.conn)])
                 else s.(live := Without(s.live, k), closed := s.closed + [o.conn.log])
  {
    hide Advance, HasSyn, Find, Without, Open, Since;
  }

  lemma LiveStep(s: Stack, seg: Seg, addr: nat, response: seq<Byte>, mem: seq<bool>, k: nat)
    requires Inv(s) && SegRanges(seg) && |response| <= MAX_PAYLOAD && k == Find(s.live, SegKey(seg), 0) < |s.live|
    ensures AllSent(Input(s, seg, addr, response, mem)) == AllSent(s) + multiset(Emitted(s, seg, addr, response, mem))
  {
    LiveCase(s, seg, addr, response, mem, k);
    EntryOk(s, k);
    ConnGrows(s.live[k].conn, seg, response, mem);
    hide Inv, Ok, Since, SegRanges, Input, Emitted, Advance, AllSent, Find, Without;
    var o := Advance(s.live[k].conn, seg, response, mem);
    if o.Keep? {
      KeepConserves(s, k, o.conn, Emitted(s, seg, addr, response, mem));
    } else {
      CloseConserves(s, k, o.conn.log);
    }
  }

  /** Over any run from boot: the segments handed to IPv4 are exactly those in the logs of the
      connections there ever were and the resets, each as often as it was sent. */
  lemma {:induction false} WireIsLogs(s: Stack, xs: seq<Arrival>, response: seq<Byte>)
    requires Inv(s) && ValidRun(s, xs, response) && |response| <= MAX_PAYLOAD
    ensures AllSent(Run(s, xs, response)) == AllSent(s) + multiset(OnWire(s, xs, response))
    decreases |xs|
  {
    hide Inv, Input, Admissible, Emitted, AllSent;
    if xs != [] {
      var x := xs[0];
      InputKeeps(s, x.seg, x.addr, response, x.mem);
      StepConserves(s, x.seg, x.addr, response, x.mem);
      WireIsLogs(Input(s, x.seg, x.addr, response, x.mem), xs[1..], response);
    }
  }

  lemma WireFromBoot(isn: nat, xs: seq<Arrival>, response: seq<Byte>)
    requires isn < U32 && ValidRun(Boot(isn), xs, response) && |response| <= MAX_PAYLOAD
    ensures multiset(OnWire(Boot(isn), xs, response)) == AllSent(Run(Boot(isn), xs, response))
  {
    WireIsLogs(Boot(isn), xs, response);
    hide Run, OnWire;
  }

  // ---------------------------------------------------------------------------------------
  // Everything on the wire comes from this machine's address and arrives
  // ---------------------------------------------------------------------------------------

  /** All listed connections are at address `me`, and sent from it. */
  ghost predicate At(s: Stack, me: nat) {
    forall i | 0 <= i < |s.live| :: s.live[i].conn.tcb.localIp == me && SentFrom(s.live[i].conn)
  }

  lemma StepAt(s: Stack, seg: Seg, addr: nat, response: seq<Byte>, mem: seq<bool>, me: nat)
    requires At(s, me) && seg.dst == me
    ensures At(Input(s, seg, addr, response, mem), me)
  {
    hide Advance, HasSyn;
    var k := Find(s.live, SegKey(seg), 0);
    if k < |s.live| {
      AdvanceFrom(s.live[k].conn, seg, response, mem);
      AdvanceKey(s.live[k].conn, seg, response, mem);
    }
    hide Find;
  }

  ghost predicate Fine(os: seq<Out>, me: nat) {
    forall i | 0 <= i < |os| :: os[i].src == me && Sendable(os[i])
  }

  lemma EmittedFine(s: Stack, seg: Seg, addr: nat, response: seq<Byte>, mem: seq<bool>, me: nat)
    requires Inv(s) && At(s, me) && Admissible(s, seg, addr) && |response| <= MAX_PAYLOAD && seg.dst == me
    ensures Fine(Emitted(s, seg, addr, response, mem), me)
  {
    var k := Find(s.live, SegKey(seg), 0);
    if k < |s.live| {
      ConnFine(s.live[k].conn, seg, response, mem, me);
    } else {
      OpenOk(seg, s.isn, Granted(mem, 0));
    }
    hide Advance, Inv, Find, HasSyn;
  }

  lemma ConnFine(c: Conn, seg: Seg, response: seq<Byte>, mem: seq<bool>, me: nat)
    requires Ok(c) && SentFrom(c) && c.tcb.localIp == me && SegRanges(seg) && |response| <= MAX_PAYLOAD
    ensures Fine(Since(c.log, Advance(c, seg, response, mem).conn.log), me)
  {
    hide Advance, Sendable, Ranges, Contiguous, SeqSpace, HasAck, Fresh;
    AdvanceKeeps(c, seg, response, mem);
    AdvanceFrom(c, seg, response, mem);
    SameKey(c, seg, response, mem);
  }

  lemma {:induction false} WireFine(s: Stack, xs: seq<Arrival>, response: seq<Byte>, me: nat)
    requires Inv(s) && At(s, me) && ValidRun(s, xs, response) && |response| <= MAX_PAYLOAD
    requires forall i | 0 <= i < |xs| :: xs[i].seg.dst == me
    ensures At(Run(s, xs, response), me) && Fine(OnWire(s, xs, response), me)
    decreases |xs|
  {
    if xs != [] {
      var x := xs[0];
      var s1 := Input(s, x.seg, x.addr, response, x.mem);
      InputKeeps(s, x.seg, x.addr, response, x.mem);
      StepAt(s, x.seg, x.addr, response, x.mem, me);
      EmittedFine(s, x.seg, x.addr, response, x.mem, me);
      hide Inv, Input, Admissible, Emitted, At, Sendable;
      WireFine(s1, xs[1..], response, me);
    }
  }

  /** In any run of segments addressed to `me`, as all are that IPv4 delivers: every segment handed to
      IPv4 carries `me` as its source, which is the source IPv4 writes, and its addressee, running the
      same code, accepts it, field by field, from the packet IPv4 builds around it. */
  lemma WireArrives(isn: nat, xs: seq<Arrival>, response: seq<Byte>, me: nat, k: nat, pad: seq<Byte>)
    requires isn < U32 && me < U32 && ValidRun(Boot(isn), xs, response) && |response| <= MAX_PAYLOAD
    requires forall i | 0 <= i < |xs| :: xs[i].seg.dst == me
    requires k < |OnWire(Boot(isn), xs, response)|
    ensures At(Run(Boot(isn), xs, response), me)
    ensures var o := OnWire(Boot(isn), xs, response)[k];
            && Sendable(o) && o.src == me
            && Wire.Receive(Wire.BuildIp(6, me, o.dst, Wire.BuildTcp(o.fields, me, o.dst, o.payload)) + pad, o.dst)
               == Wire.Accept(o.fields.srcPort, o.fields.dstPort, o.fields.seqNo, o.fields.ackNo, o.fields.flags, o.payload)
  {
    hide Wire.Receive, Wire.BuildIp, Wire.BuildTcp, Run, OnWire, ValidRun;
    WireFine(Boot(isn), xs, response, me);
    var o := OnWire(Boot(isn), xs, response)[k];
    Wire.FullStackRoundTrip(o.fields, me, o.dst, o.payload, pad);
  }
}
