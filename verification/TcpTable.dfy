/** The connection table: a list of control blocks in memory, searched by address pair, and what
    the arrival of a segment does to it. */
module TcpTable {
  import opened Machine
  import opened Bytes
  import opened TcpConnection
  import Wire
  import Checksum

  const HTTP_PORT: int := 80

  /** The two addresses and ports that identify a connection. */
  datatype Key = Key(remoteIp: nat, remotePort: nat, localIp: nat, localPort: nat)

  function KeyOf(t: Tcb): Key { Key(t.remoteIp, t.remotePort, t.localIp, t.localPort) }
  function SegKey(seg: Seg): Key { Key(seg.src, seg.srcPort, seg.dst, seg.dstPort) }

  /** A control block at its address in memory. */
  datatype Entry = Entry(addr: nat, conn: Conn)

  /** `live` is the list, in list order; `closed` are the logs of removed connections; `resets`
      are the segments sent on behalf of no connection. */
  datatype Stack = Stack(live: seq<Entry>, isn: nat, closed: seq<Log>, resets: seq<Out>)

  // ---------------------------------------------------------------------------------------
  // The operations
  // ---------------------------------------------------------------------------------------

  /** Index of the first entry with the key from `i` on, or the length. */
  function Find(live: seq<Entry>, key: Key, i: nat): (r: nat)
    requires i <= |live|
    ensures i <= r <= |live|
    ensures r < |live| ==> KeyOf(live[r].conn.tcb) == key
    decreases |live| - i
  {
    if i == |live| || KeyOf(live[i].conn.tcb) == key then i else Find(live, key, i + 1)
  }

  function Reset(seg: Seg): Out {
    Out(Wire.Fields(seg.dstPort, seg.srcPort, seg.ackNo, 0, RST + ACK, 0), seg.dst, seg.src, [])
  }

  function Without(live: seq<Entry>, k: nat): seq<Entry>
    requires k < |live|
  {
    live[..k] + live[k + 1..]
  }

  /** `tcp_input_process` after its header checks. `addr` is what the allocator returned for a new
      control block and `mem` the outcomes of the buffer allocations of this step. */
  function Input(s: Stack, seg: Seg, addr: nat, response: seq<Byte>, mem: seq<bool>): Stack {
    var k := Find(s.live, SegKey(seg), 0);
    if k == |s.live| then
      if HasSyn(seg.flags) && seg.dstPort == HTTP_PORT then
        if addr == NULL then s
        else s.(live := [Entry(addr, Open(seg, s.isn, Granted(mem, 0)))] + s.live, isn := (s.isn + 1000) % U32)
      else s.(resets := s.resets + [Reset(seg)])
    else
      match Advance(s.live[k].conn, seg, response, mem)
      case Keep(c) => s.(live := s.live[k := s.live[k].(conn := c)])
      case Remove(c) => s.(live := Without(s.live, k), closed := s.closed + [c.log])
  }

  /** `tcp_input_process` from the bytes on: what fails the header or checksum checks is dropped. */
  function InputBytes(s: Stack, bytes: seq<Byte>, src: nat, dst: nat, addr: nat, response: seq<Byte>, mem: seq<bool>): Stack
    requires src < U32 && dst < U32 && |bytes| < 0x1_0000
  {
    match Wire.ParseTcp(bytes, src, dst)
    case Reject => s
    case Accept(srcPort, dstPort, seqNo, ackNo, flags, payload) =>
      Input(s, Seg(src, dst, srcPort, dstPort, seqNo, ackNo, flags, payload), addr, response, mem)
  }

  // ---------------------------------------------------------------------------------------
  // The invariant
  // ---------------------------------------------------------------------------------------

  ghost predicate DistinctEntries(live: seq<Entry>) {
    forall i, j | 0 <= i < j < |live| ::
      live[i].addr != live[j].addr && KeyOf(live[i].conn.tcb) != KeyOf(live[j].conn.tcb)
  }

  ghost predicate LogOk(log: Log) {
    Contiguous(log.isn, log.sent) && DeliveredOk(log)
  }

  ghost predicate Inv(s: Stack) {
    && s.isn < U32 && DistinctEntries(s.live)
    && (forall i | 0 <= i < |s.live| :: Ok(s.live[i].conn) && s.live[i].addr != NULL)
    && forall i | 0 <= i < |s.closed| :: LogOk(s.closed[i])
  }

  /** What the environment may present: fields in range, and for a new control block either no
      memory or memory that no control block occupies. */
  ghost predicate Admissible(s: Stack, seg: Seg, addr: nat) {
    SegRanges(seg) && forall i | 0 <= i < |s.live| :: s.live[i].addr != addr
  }

  lemma {:induction false} FindSpec(live: seq<Entry>, key: Key, i: nat)
    requires i <= |live|
    ensures forall j | i <= j < Find(live, key, i) :: KeyOf(live[j].conn.tcb) != key
    decreases |live| - i
  {
    if i < |live| && KeyOf(live[i].conn.tcb) != key { FindSpec(live, key, i + 1); }
  }

  lemma OpenKey(seg: Seg, isn: nat, granted: bool)
    ensures KeyOf(Open(seg, isn, granted).tcb) == SegKey(seg)
  {
  }

  lemma AdvanceKey(c: Conn, seg: Seg, response: seq<Byte>, mem: seq<bool>)
    ensures KeyOf(Advance(c, seg, response, mem).conn.tcb) == KeyOf(c.tcb)
  {
    SameKey(c, seg, response, mem);
    hide Advance;
  }

  /** The two ways a listed connection ends a step. */
  lemma KeepInv(s: Stack, k: nat, c: Conn)
    requires Inv(s) && k < |s.live| && Ok(c) && KeyOf(c.tcb) == KeyOf(s.live[k].conn.tcb)
    ensures Inv(s.(live := s.live[k := s.live[k].(conn := c)]))
  {
    hide Ok, LogOk;
  }

  lemma CloseInv(s: Stack, k: nat, log: Log)
    requires Inv(s) && k < |s.live| && LogOk(log)
    ensures Inv(s.(live := Without(s.live, k), closed := s.closed + [log]))
  {
    hide Ok, LogOk;
    var live' := Without(s.live, k);
    assert forall i | 0 <= i < |live'| :: live'[i] == if i < k then s.live[i] else s.live[i + 1];
  }

  lemma InputKeeps(s: Stack, seg: Seg, addr: nat, response: seq<Byte>, mem: seq<bool>)
    requires Inv(s) && Admissible(s, seg, addr) && |response| <= MAX_PAYLOAD
    ensures Inv(Input(s, seg, addr, response, mem))
  {
    var k := Find(s.live, SegKey(seg), 0);
    if k == |s.live| {
      OpenInv(s, seg, addr, response, mem);
    } else {
      ListedInv(s, seg, addr, response, mem, k);
    }
  }

  lemma OpenInv(s: Stack, seg: Seg, addr: nat, response: seq<Byte>, mem: seq<bool>)
    requires Inv(s) && Admissible(s, seg, addr) && Find(s.live, SegKey(seg), 0) == |s.live|
    ensures Inv(Input(s, seg, addr, response, mem))
  {
    hide Open, Advance, Ok, LogOk, HasSyn, SegRanges;
    FindSpec(s.live, SegKey(seg), 0);
    OpenKey(seg, s.isn, Granted(mem, 0));
    OpenOk(seg, s.isn, Granted(mem, 0));
  }

  lemma ListedInv(s: Stack, seg: Seg, addr: nat, response: seq<Byte>, mem: seq<bool>, k: nat)
    requires Inv(s) && SegRanges(seg) && |response| <= MAX_PAYLOAD && k == Find(s.live, SegKey(seg), 0) < |s.live|
    ensures Inv(Input(s, seg, addr, response, mem))
  {
    var c := s.live[k].conn;
    assert Ok(c);
    hide Inv, Open, Advance, Ok, LogOk, HasSyn, HasAck, SegRanges, Find, Without;
    AdvanceKeeps(c, seg, response, mem);
    AdvanceKey(c, seg, response, mem);
    OkLog(c);
    var o := Advance(c, seg, response, mem);
    if o.Keep? { KeepInv(s, k, o.conn); } else { CloseInv(s, k, o.conn.log); }
  }

  lemma OkLog(c: Conn)
    requires Ok(c)
    ensures LogOk(c.log)
  {
  }

  // ---------------------------------------------------------------------------------------
  // The list is a map
  // ---------------------------------------------------------------------------------------

  function Table(live: seq<Entry>): map<Key, Conn> {
    if live == [] then map[] else Table(live[1..])[KeyOf(live[0].conn.tcb) := live[0].conn]
  }

  lemma {:induction false} TableAt(live: seq<Entry>, k: nat)
    requires DistinctEntries(live) && k < |live|
    ensures var key := KeyOf(live[k].conn.tcb); key in Table(live) && Table(live)[key] == live[k].conn
  {
    if k > 0 { TableAt(live[1..], k - 1); }
  }

  lemma {:induction false} TableOnly(live: seq<Entry>, key: Key) returns (k: nat)
    requires key in Table(live)
    ensures k < |live| && KeyOf(live[k].conn.tcb) == key
  {
    if KeyOf(live[0].conn.tcb) == key {
      k := 0;
    } else {
      k := TableOnly(live[1..], key);
      k := k + 1;
    }
  }

  /** The list search and the map lookup agree, hit or miss. */
  lemma FindIsLookup(live: seq<Entry>, key: Key)
    requires DistinctEntries(live)
    ensures var k := Find(live, key, 0);
            (k < |live| <==> key in Table(live)) && (k < |live| ==> Table(live)[key] == live[k].conn)
  {
    var k := Find(live, key, 0);
    FindSpec(live, key, 0);
    if k < |live| {
      TableAt(live, k);
    } else if key in Table(live) {
      var j := TableOnly(live, key);
    }
  }

  lemma {:induction false} TableUpdate(live: seq<Entry>, k: nat, c: Conn)
    requires DistinctEntries(live) && k < |live| && KeyOf(c.tcb) == KeyOf(live[k].conn.tcb)
    ensures Table(live[k := live[k].(conn := c)]) == Table(live)[KeyOf(c.tcb) := c]
  {
    var live' := live[k := live[k].(conn := c)];
    if k == 0 {
      assert live'[1..] == live[1..];
    } else {
      assert live'[1..] == live[1..][k - 1 := live[k].(conn := c)];
      TableUpdate(live[1..], k - 1, c);
    }
  }

  lemma {:induction false} TableRemove(live: seq<Entry>, k: nat)
    requires DistinctEntries(live) && k < |live|
    ensures Table(Without(live, k)) == Table(live) - {KeyOf(live[k].conn.tcb)}
  {
    var key := KeyOf(live[k].conn.tcb);
    if k == 0 {
      assert Without(live, 0) == live[1..];
      if key in Table(live[1..]) {
        var j := TableOnly(live[1..], key);
      }
    } else {
      assert Without(live, k)[1..] == Without(live[1..], k - 1);
      TableRemove(live[1..], k - 1);
    }
  }

  /** What a segment does to a map of connections. */
  function AbstractInput(t: map<Key, Conn>, isn: nat, seg: Seg, memory: bool, response: seq<Byte>, mem: seq<bool>): map<Key, Conn> {
    var key := SegKey(seg);
    if key in t then
      match Advance(t[key], seg, response, mem)
      case Keep(c) => t[key := c]
      case Remove(_) => t - {key}
    else if HasSyn(seg.flags) && seg.dstPort == HTTP_PORT && memory then
      t[key := Open(seg, isn, Granted(mem, 0))]
    else t
  }

  /** The list refines the map: one segment touches the entry of its own key and no other. */
  lemma InputRefines(s: Stack, seg: Seg, addr: nat, response: seq<Byte>, mem: seq<bool>)
    requires Inv(s) && Admissible(s, seg, addr) && |response| <= MAX_PAYLOAD
    ensures Table(Input(s, seg, addr, response, mem).live)
         == AbstractInput(Table(s.live), s.isn, seg, addr != NULL, response, mem)
  {
    hide Open, Advance, Ok, LogOk, HasSyn, SegRanges;
    var k := Find(s.live, SegKey(seg), 0);
    FindIsLookup(s.live, SegKey(seg));
    var s' := Input(s, seg, addr, response, mem);
    if k == |s.live| {
      OpenKey(seg, s.isn, Granted(mem, 0));
      if s'.live != s.live { assert s'.live[1..] == s.live; }
    } else {
      AdvanceKey(s.live[k].conn, seg, response, mem);
      var o := Advance(s.live[k].conn, seg, response, mem);
      if o.Keep? {
        TableUpdate(s.live, k, o.conn);
      } else {
        TableRemove(s.live, k);
      }
    }
  }

  /** Every other connection, with its address, its fields and its whole log, is untouched. */
  lemma OthersUntouched(s: Stack, seg: Seg, addr: nat, response: seq<Byte>, mem: seq<bool>, e: Entry)
    requires Inv(s) && Admissible(s, seg, addr) && KeyOf(e.conn.tcb) != SegKey(seg)
    ensures e in s.live <==> e in Input(s, seg, addr, response, mem).live
  {
    hide Open, Advance, Ok, LogOk, HasSyn, SegRanges;
    var k := Find(s.live, SegKey(seg), 0);
    var s' := Input(s, seg, addr, response, mem);
    if k == |s.live| {
      OpenKey(seg, s.isn, Granted(mem, 0));
    } else {
      AdvanceKey(s.live[k].conn, seg, response, mem);
      assert s.live == s.live[..k] + [s.live[k]] + s.live[k + 1..];
      var o := Advance(s.live[k].conn, seg, response, mem);
      if o.Keep? { assert s'.live == s.live[..k] + [s.live[k].(conn := o.conn)] + s.live[k + 1..]; }
    }
  }

  /** The segment comes from the connection's remote address and port, to its local address and port. */
  ghost predicate Belongs(t: Tcb, seg: Seg) {
    t.remoteIp == seg.src && t.remotePort == seg.srcPort && t.localIp == seg.dst && t.localPort == seg.dstPort
  }

  /** The search finds the first connection that the segment belongs to by all four of these, if there is
      one. */
  lemma FoundIff(live: seq<Entry>, seg: Seg)
    ensures var k := Find(live, SegKey(seg), 0);
            && (k < |live| ==> Belongs(live[k].conn.tcb, seg))
            && forall i | 0 <= i < k :: !Belongs(live[i].conn.tcb, seg)
  {
    FindSpec(live, SegKey(seg), 0);
    hide Find;
  }

  /** A SYN to port 80 that belongs to no connection opens one, if there is memory for its control block:
      at the head of the list, with this initial sequence number, and with a SYN-ACK if there is memory
      for that; and the next initial sequence number is 1000 further. */
  lemma PassiveOpen(s: Stack, seg: Seg, addr: nat, response: seq<Byte>, mem: seq<bool>)
    requires s.isn < U32 && HasSyn(seg.flags) && seg.dstPort == 80
    requires forall i | 0 <= i < |s.live| :: !Belongs(s.live[i].conn.tcb, seg)
    ensures var next, expected, sent := (s.isn + 1) % U32, (seg.seqNo + 1) % U32, mem != [] && mem[0];
            var synAck := Out(Wire.Fields(80, seg.srcPort, s.isn, expected, 0x12, 8192), seg.dst, seg.src, []);
            var tcb := Tcb(seg.dst, seg.src, 80, seg.srcPort, SynReceived, s.isn, if sent then next else s.isn, expected, 8192, 8192);
            var log := Log(s.isn, seg.seqNo, if sent then [synAck] else [], []);
            Input(s, seg, addr, response, mem)
            == if addr == 0 then s
               else Stack([Entry(addr, Conn(tcb, log))] + s.live, (s.isn + 1000) % U32, s.closed, s.resets)
  {
    var k := Find(s.live, SegKey(seg), 0);
    FoundIff(s.live, seg);
    assert k == |s.live|;
    OpenShape(seg, s.isn, Granted(mem, 0));
    hide Find, Advance, Reset, Open, HasSyn, Belongs;
  }

  lemma OpenShape(seg: Seg, isn: nat, granted: bool)
    requires isn < U32
    ensures var next, expected := (isn + 1) % U32, (seg.seqNo + 1) % U32;
            var synAck := Out(Wire.Fields(seg.dstPort, seg.srcPort, isn, expected, 0x12, 8192), seg.dst, seg.src, []);
            Open(seg, isn, granted)
            == Conn(Tcb(seg.dst, seg.src, seg.dstPort, seg.srcPort, SynReceived, isn, if granted then next else isn, expected, 8192, 8192),
                    Log(isn, seg.seqNo, if granted then [synAck] else [], []))
  {
    AddWrap(isn, 1, 0);
  }

  /** A segment for no connection that does not open one is answered by exactly one reset, and no
      connection notices. */
  lemma StrangerIsReset(s: Stack, seg: Seg, addr: nat, response: seq<Byte>, mem: seq<bool>)
    requires SegKey(seg) !in Table(s.live) && DistinctEntries(s.live)
    requires !(HasSyn(seg.flags) && seg.dstPort == HTTP_PORT)
    ensures Input(s, seg, addr, response, mem) == s.(resets := s.resets + [Reset(seg)])
  {
    FindIsLookup(s.live, SegKey(seg));
    hide Find, Table, Open, Advance;
  }

  /** The reset reaches the sender, who accepts it: from the addressed port, with the acknowledged
      number as its sequence number. */
  lemma ResetAccepted(seg: Seg, pad: seq<Byte>)
    requires SegRanges(seg)
    ensures var o := Reset(seg);
            && Sendable(o) && o.src == seg.dst && o.dst == seg.src && o.fields.window == 0
            && var bytes := Wire.BuildTcp(o.fields, o.src, o.dst, []);
               && Wire.HandleIp(Wire.BuildIp(6, seg.dst, seg.src, bytes) + pad, seg.src) == Wire.Deliver(6, seg.dst, seg.src, bytes)
               && Wire.ParseTcp(bytes, seg.dst, seg.src) == Wire.Accept(seg.dstPort, seg.srcPort, seg.ackNo, 0, 0x14, [])
  {
    hide Wire.BuildTcp, Wire.HandleIp, Wire.BuildIp, Wire.ParseTcp;
    var o := Reset(seg);
    Wire.FullStackRoundTrip(o.fields, o.src, o.dst, [], pad);
  }

  /** Bytes built by a peer running the same code act exactly as the segment they encode, unless
      its 16-bit length wrapped, and then not at all; bytes with a single 16-bit word damaged act not
      at all, unless 0x0000 and 0xFFFF were exchanged. */
  lemma BytesActAsSegment(s: Stack, f: Wire.Fields, src: nat, dst: nat, payload: seq<Byte>, addr: nat, response: seq<Byte>, mem: seq<bool>, i: nat, w: nat)
    requires Wire.InRange(f) && src < U32 && dst < U32 && |payload| < 0x1_0000
    requires var n := Wire.SegmentLength(|payload|); i < n && i % 2 == 0 && w < 0x1_0000 && (i + 1 == n ==> w < 256)
    ensures var bytes := Wire.BuildTcp(f, src, dst, payload);
            && InputBytes(s, bytes, src, dst, addr, response, mem)
               == (if |payload| > 65515 then s
                   else Input(s, Seg(src, dst, f.srcPort, f.dstPort, f.seqNo, f.ackNo, f.flags, payload), addr, response, mem))
            && (w != Checksum.WordAt(bytes, i) && !({w, Checksum.WordAt(bytes, i)} == {0, 0xFFFF}) ==>
                  InputBytes(s, Checksum.PutWord(bytes, i, w), src, dst, addr, response, mem) == s)
  {
    hide Input, Wire.BuildTcp, Wire.ParseTcp, Checksum.PutWord, Checksum.WordAt, Wire.SegmentLength;
    var bytes := Wire.BuildTcp(f, src, dst, payload);
    Wire.TcpRoundTrip(f, src, dst, payload);
    Wire.SegmentLengthIs(|payload|);
    DamagedRejected(bytes, src, dst, i, w);
  }

  lemma DamagedRejected(bytes: seq<Byte>, src: nat, dst: nat, i: nat, w: nat)
    requires src < U32 && dst < U32 && |bytes| < 0x1_0000
    requires Wire.ParseTcp(bytes, src, dst).Accept? || |bytes| < 20
    requires i < |bytes| && i % 2 == 0 && w < 0x1_0000 && (i + 1 == |bytes| ==> w < 256)
    ensures w != Checksum.WordAt(bytes, i) && !({w, Checksum.WordAt(bytes, i)} == {0, 0xFFFF}) ==>
              Wire.ParseTcp(Checksum.PutWord(bytes, i, w), src, dst) == Wire.Reject
  {
    hide Checksum.TcpValid, Checksum.PutWord, Checksum.WordAt, Swap16, Swap32, Load16, Load32;
    if |bytes| >= 20 { Checksum.WordChangeDetected(src, dst, bytes, i, w); }
  }

  // ---------------------------------------------------------------------------------------
  // Whole runs
  // ---------------------------------------------------------------------------------------

  /** One arrival: the segment, the address for a new control block, the buffer allocations. */
  datatype Arrival = Arrival(seg: Seg, addr: nat, mem: seq<bool>)

  ghost predicate ValidRun(s: Stack, xs: seq<Arrival>, response: seq<Byte>)
    decreases |xs|
  {
    xs == [] || (Admissible(s, xs[0].seg, xs[0].addr)
                 && ValidRun(Input(s, xs[0].seg, xs[0].addr, response, xs[0].mem), xs[1..], response))
  }

  function Run(s: Stack, xs: seq<Arrival>, response: seq<Byte>): Stack
    decreases |xs|
  {
    if xs == [] then s else Run(Input(s, xs[0].seg, xs[0].addr, response, xs[0].mem), xs[1..], response)
  }

  lemma {:induction false} RunKeeps(s: Stack, xs: seq<Arrival>, response: seq<Byte>)
    requires Inv(s) && ValidRun(s, xs, response) && |response| <= MAX_PAYLOAD
    ensures Inv(Run(s, xs, response))
    decreases |xs|
  {
    if xs != [] {
      hide Inv, Input, Admissible;
      InputKeeps(s, xs[0].seg, xs[0].addr, response, xs[0].mem);
      RunKeeps(Input(s, xs[0].seg, xs[0].addr, response, xs[0].mem), xs[1..], response);
    }
  }

  lemma StepCounts(s: Stack, seg: Seg, addr: nat, response: seq<Byte>, mem: seq<bool>)
    ensures var s' := Input(s, seg, addr, response, mem);
            var gained := |s'.live| + |s'.closed| - |s.live| - |s.closed|;
            gained in {0, 1} && (if gained == 1 then s'.isn == (s.isn + 1000) % U32 else s'.isn == s.isn)
  {
    hide Find, Advance, Open, HasSyn;
  }

  /** The initial sequence number counts the connections ever opened, a thousand each. */
  lemma {:induction false} IsnCounts(s: Stack, xs: seq<Arrival>, response: seq<Byte>)
    requires s.isn < U32
    ensures var s' := Run(s, xs, response);
            var gained := |s'.live| + |s'.closed| - |s.live| - |s.closed|;
            gained >= 0 && s'.isn == (s.isn + 1000 * gained) % U32
    decreases |xs|
  {
    if xs != [] {
      var x := xs[0];
      var s1 := Input(s, x.seg, x.addr, response, x.mem);
      StepCounts(s, x.seg, x.addr, response, x.mem);
      hide Input;
      IsnCounts(s1, xs[1..], response);
      var s' := Run(s, xs, response);
      ThousandMore(s.isn, |s'.live| + |s'.closed| - |s1.live| - |s1.closed|);
    }
  }

  lemma ThousandMore(isn: nat, n: nat)
    ensures ((isn + 1000) % U32 + 1000 * n) % U32 == (isn + 1000 * (n + 1)) % U32
  {
    AddWrap(isn, 1000, 1000 * n);
  }

  function Boot(isn: nat): Stack { Stack([], isn, [], []) }

  /** All the connections there ever were. */
  function Logs(s: Stack): seq<Log> {
    s.closed + seq(|s.live|, i requires 0 <= i < |s.live| => s.live[i].conn.log)
  }

  /** The promise for one connection's life: at most one payload delivered, starting right after
      the peer's SYN; every segment sent starts at the initial sequence number plus the sequence
      space of the segments before it, modulo 2^32. */
  ghost predicate LogPromise(log: Log) {
    && DeliveredOk(log)
    && forall k | 0 <= k < |log.sent| :: log.sent[k].fields.seqNo == (log.isn + SeqSpace(log.sent[..k])) % U32
  }

  lemma LogOkPromise(log: Log)
    requires LogOk(log)
    ensures LogPromise(log)
  {
    hide SeqSpace, Contiguous, DeliveredOk;
    forall k | 0 <= k < |log.sent| ensures log.sent[k].fields.seqNo == (log.isn + SeqSpace(log.sent[..k])) % U32 {
      ContiguousAt(log.isn, log.sent, k);
    }
  }

  /** After any sequence of segments: listed connections are in SYN_RECEIVED, ESTABLISHED or
      LAST_ACK under pairwise different keys, and every connection, past or present, has kept the
      promise. */
  lemma AnyRun(isn: nat, xs: seq<Arrival>, response: seq<Byte>)
    requires isn < U32 && ValidRun(Boot(isn), xs, response) && |response| <= MAX_PAYLOAD
    ensures var s := Run(Boot(isn), xs, response);
            && DistinctEntries(s.live)
            && (forall i | 0 <= i < |s.live| :: s.live[i].conn.tcb.state in {SynReceived, Established, LastAck})
            && forall i | 0 <= i < |Logs(s)| :: LogPromise(Logs(s)[i])
  {
    RunKeeps(Boot(isn), xs, response);
    hide Run, LogOk, LogPromise, SendOk, DeliveredOk, Fresh;
    var s := Run(Boot(isn), xs, response);
    forall i | 0 <= i < |Logs(s)| ensures LogPromise(Logs(s)[i]) {
      if i >= |s.closed| {
        assert Logs(s)[i] == s.live[i - |s.closed|].conn.log;
        OkLog(s.live[i - |s.closed|].conn);
      }
      LogOkPromise(Logs(s)[i]);
    }
  }

  // ---------------------------------------------------------------------------------------
  // Connections move only forward
  // ---------------------------------------------------------------------------------------

  /** The same connection's log at a later time. */
  ghost predicate Extends(log: Log, log': Log) {
    log'.isn == log.isn && log'.irs == log.irs && log.sent <= log'.sent && log.delivered <= log'.delivered
  }

  /** The same connection's entry at a later time. */
  ghost predicate Later(e: Entry, e': Entry) {
    && e'.addr == e.addr && KeyOf(e'.conn.tcb) == KeyOf(e.conn.tcb)
    && Rank(e.conn.tcb.state) <= Rank(e'.conn.tcb.state) && Extends(e.conn.log, e'.conn.log)
  }

  ghost predicate StillListed(e: Entry, s: Stack) {
    exists e' | e' in s.live :: Later(e, e')
  }

  /** The connection is among those closed as number `first` or later. */
  ghost predicate ClosedSince(e: Entry, s: Stack, first: nat) {
    exists j | first <= j < |s.closed| :: Extends(e.conn.log, s.closed[j])
  }

  lemma OwnSegment(s: Stack, seg: Seg, addr: nat, response: seq<Byte>, mem: seq<bool>, e: Entry)
    requires Inv(s) && SegRanges(seg) && |response| <= MAX_PAYLOAD && e in s.live && KeyOf(e.conn.tcb) == SegKey(seg)
    ensures var s' := Input(s, seg, addr, response, mem);
            s.closed <= s'.closed && (StillListed(e, s') || ClosedSince(e, s', |s.closed|))
  {
    hide Advance, Ok, LogOk, HasSyn, HasAck, SegRanges, Rank;
    var s' := Input(s, seg, addr, response, mem);
    var k := Find(s.live, SegKey(seg), 0);
    FindSpec(s.live, SegKey(seg), 0);
    assert k < |s.live| && s.live[k] == e;
    AdvanceKeeps(e.conn, seg, response, mem);
    AdvanceKey(e.conn, seg, response, mem);
    LogsGrow(e.conn, seg, response, mem);
    var o := Advance(e.conn, seg, response, mem);
    if o.Keep? {
      assert Later(e, s'.live[k]);
    } else {
      assert Extends(e.conn.log, s'.closed[|s.closed|]);
    }
  }

  lemma ClosedGrows(s: Stack, seg: Seg, addr: nat, response: seq<Byte>, mem: seq<bool>)
    ensures s.closed <= Input(s, seg, addr, response, mem).closed
  {
    hide Advance, Open, HasSyn, Find;
  }

  lemma {:induction false} ClosedGrowsRun(s: Stack, xs: seq<Arrival>, response: seq<Byte>)
    ensures s.closed <= Run(s, xs, response).closed
    decreases |xs|
  {
    if xs != [] {
      ClosedGrows(s, xs[0].seg, xs[0].addr, response, xs[0].mem);
      hide Input;
      ClosedGrowsRun(Input(s, xs[0].seg, xs[0].addr, response, xs[0].mem), xs[1..], response);
    }
  }

  lemma StepForward(s: Stack, seg: Seg, addr: nat, response: seq<Byte>, mem: seq<bool>, e: Entry)
    requires Inv(s) && Admissible(s, seg, addr) && |response| <= MAX_PAYLOAD && e in s.live
    ensures var s' := Input(s, seg, addr, response, mem);
            StillListed(e, s') || ClosedSince(e, s', |s.closed|)
  {
    if KeyOf(e.conn.tcb) == SegKey(seg) {
      OwnSegment(s, seg, addr, response, mem, e);
    } else {
      OthersUntouched(s, seg, addr, response, mem, e);
      assert Later(e, e);
    }
    hide Input, Rank;
  }

  /** Over any run from any consistent table: each connection listed at the start is still listed, at
      the same address under the same key, in the same or a later state and with everything it had
      sent and delivered at the front of its log, or it was closed on the way with such a log. */
  lemma {:induction false} MovesForward(s: Stack, xs: seq<Arrival>, response: seq<Byte>, e: Entry)
    requires Inv(s) && ValidRun(s, xs, response) && |response| <= MAX_PAYLOAD && e in s.live
    ensures var s' := Run(s, xs, response);
            s.closed <= s'.closed && (StillListed(e, s') || ClosedSince(e, s', |s.closed|))
    decreases |xs|
  {
    hide Inv, Input, Admissible, Later, Extends;
    ClosedGrowsRun(s, xs, response);
    if xs == [] {
      LaterSelf(e);
    } else {
      var x := xs[0];
      var s1 := Input(s, x.seg, x.addr, response, x.mem);
      InputKeeps(s, x.seg, x.addr, response, x.mem);
      ClosedGrows(s, x.seg, x.addr, response, x.mem);
      StepForward(s, x.seg, x.addr, response, x.mem, e);
      if StillListed(e, s1) {
        var e1 :| e1 in s1.live && Later(e, e1);
        MovesForward(s1, xs[1..], response, e1);
        LaterTrans(e, e1, Run(s, xs, response), |s.closed|, |s1.closed|);
      } else {
        ClosedGrowsRun(s1, xs[1..], response);
      }
    }
  }

  lemma LaterSelf(e: Entry)
    ensures Later(e, e)
  {
  }

  lemma LaterTrans(e: Entry, e1: Entry, s: Stack, first: nat, first1: nat)
    requires Later(e, e1) && first <= first1 && (StillListed(e1, s) || ClosedSince(e1, s, first1))
    ensures StillListed(e, s) || ClosedSince(e, s, first)
  {
    hide Rank;
    if StillListed(e1, s) {
      var e2 :| e2 in s.live && Later(e1, e2);
      assert Later(e, e2);
    } else {
      var j :| first1 <= j < |s.closed| && Extends(e1.conn.log, s.closed[j]);
      assert Extends(e.conn.log, s.closed[j]);
    }
  }
}
