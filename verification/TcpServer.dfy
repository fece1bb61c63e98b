/** The TCP input path as the kernel runs it: control blocks in memory, linked through `next`, a
    global list head and a global initial sequence number. A control block that is freed leaves
    the memory map, so any later access to it would be an error. */
module TcpServer {
  import opened Machine
  import opened Bytes
  import opened TcpConnection
  import opened TcpTable
  import opened TcpWire
  import Wire

  datatype Node = Node(tcb: Tcb, next: nat)

  /** Following `next` from `head` visits exactly `live`, and then stops. */
  ghost predicate Linked(tcbs: map<nat, Node>, head: nat, live: seq<Entry>)
    decreases |live|
  {
    if live == [] then head == NULL
    else
      && head == live[0].addr != NULL && head in tcbs && tcbs[head].tcb == live[0].conn.tcb
      && Linked(tcbs, tcbs[head].next, live[1..])
  }

  ghost predicate DistinctAddrs(live: seq<Entry>) {
    forall i, j | 0 <= i < j < |live| :: live[i].addr != live[j].addr
  }

  lemma {:induction false} LinkedFrame(tcbs: map<nat, Node>, tcbs': map<nat, Node>, head: nat, live: seq<Entry>)
    requires Linked(tcbs, head, live)
    requires forall i | 0 <= i < |live| :: live[i].addr in tcbs ==> live[i].addr in tcbs' && tcbs'[live[i].addr] == tcbs[live[i].addr]
    ensures Linked(tcbs', head, live)
    decreases |live|
  {
    if live != [] { LinkedFrame(tcbs, tcbs', tcbs[head].next, live[1..]); }
  }

  lemma {:induction false} LinkedAt(tcbs: map<nat, Node>, head: nat, live: seq<Entry>, k: nat)
    requires Linked(tcbs, head, live) && k < |live|
    ensures live[k].addr != NULL && live[k].addr in tcbs && tcbs[live[k].addr].tcb == live[k].conn.tcb
    ensures Linked(tcbs, tcbs[live[k].addr].next, live[k + 1..])
    decreases |live|
  {
    if k > 0 {
      LinkedAt(tcbs, tcbs[head].next, live[1..], k - 1);
      assert live[1..][k..] == live[k + 1..];
    }
  }

  /** Rewriting one control block in place changes that entry and no other. */
  lemma {:induction false} LinkedUpdate(tcbs: map<nat, Node>, head: nat, live: seq<Entry>, k: nat, c: Conn)
    requires Linked(tcbs, head, live) && DistinctAddrs(live) && k < |live| && live[k].addr in tcbs
    ensures var a := live[k].addr; Linked(tcbs[a := tcbs[a].(tcb := c.tcb)], head, live[k := live[k].(conn := c)])
    decreases |live|
  {
    var a, live' := live[k].addr, live[k := live[k].(conn := c)];
    var tcbs' := tcbs[a := tcbs[a].(tcb := c.tcb)];
    if k == 0 {
      assert live'[1..] == live[1..];
      LinkedFrame(tcbs, tcbs', tcbs[head].next, live[1..]);
    } else {
      assert live'[1..] == live[1..][k - 1 := live[k].(conn := c)];
      LinkedUpdate(tcbs, tcbs[head].next, live[1..], k - 1, c);
    }
  }

  lemma LinkedRemoveSecond(tcbs: map<nat, Node>, head: nat, live: seq<Entry>)
    requires Linked(tcbs, head, live) && DistinctAddrs(live) && |live| >= 2
    requires live[0].addr in tcbs && live[1].addr in tcbs
    ensures var p, a := live[0].addr, live[1].addr;
            Linked(tcbs[p := tcbs[p].(next := tcbs[a].next)] - {a}, head, Without(live, 1))
  {
    var p, a := live[0].addr, live[1].addr;
    var tcbs' := tcbs[p := tcbs[p].(next := tcbs[a].next)] - {a};
    LinkedAt(tcbs, head, live, 1);
    assert Without(live, 1)[1..] == live[2..];
    LinkedFrame(tcbs, tcbs', tcbs[a].next, live[2..]);
  }

  /** Unlinking entry `k`: its predecessor, or the head, takes over its `next`. */
  lemma {:induction false} LinkedRemove(tcbs: map<nat, Node>, head: nat, live: seq<Entry>, k: nat)
    requires Linked(tcbs, head, live) && DistinctAddrs(live) && k < |live|
    requires live[k].addr in tcbs && (k > 0 ==> live[k - 1].addr in tcbs)
    ensures var a := live[k].addr;
            if k == 0 then Linked(tcbs - {a}, tcbs[a].next, Without(live, 0))
            else
              var p := live[k - 1].addr;
              Linked(tcbs[p := tcbs[p].(next := tcbs[a].next)] - {a}, head, Without(live, k))
    decreases |live|
  {
    var a := live[k].addr;
    if k == 0 {
      assert Without(live, 0) == live[1..];
      LinkedFrame(tcbs, tcbs - {a}, tcbs[a].next, live[1..]);
    } else {
      assert Without(live, k)[1..] == Without(live[1..], k - 1);
      if k == 1 {
        LinkedRemoveSecond(tcbs, head, live);
      } else {
        LinkedRemove(tcbs, tcbs[head].next, live[1..], k - 1);
      }
    }
  }

  class TcpServer {
    var tcbs: map<nat, Node>
    var tcbList: nat
    var isn: nat
    /** Every segment handed to IPv4, in order. */
    var wire: seq<Out>
    ghost var live: seq<Entry>
    ghost var closed: seq<Log>
    ghost var resets: seq<Out>

    ghost function Model(): Stack
      reads this
    {
      Stack(live, isn, closed, resets)
    }

    /** The list is well linked; holds also in the middle of a step. */
    ghost predicate Shape()
      reads this
    {
      Linked(tcbs, tcbList, live) && DistinctAddrs(live)
    }

    ghost predicate Valid()
      reads this
    {
      Shape() && TcpTable.Inv(Model())
    }

    constructor (initial: nat)
      requires initial < U32
      ensures Valid() && Model() == Boot(initial) && wire == []
    {
      tcbs, tcbList, isn, wire := map[], NULL, initial, [];
      live, closed, resets := [], [], [];
    }

    /** `tcp_find_tcb`. */
    method FindTcb(key: Key) returns (cur: nat)
      requires Shape()
      ensures var k := Find(live, key, 0); if k < |live| then cur == live[k].addr != NULL else cur == NULL
    {
      cur := tcbList;
      ghost var i: nat := 0;
      while cur != NULL
        invariant i <= |live| && Linked(tcbs, cur, live[i..])
        invariant Find(live, key, 0) == Find(live, key, i)
        decreases |live| - i
      {
        if KeyOf(tcbs[cur].tcb) == key { return; }
        cur := tcbs[cur].next;
        i := i + 1;
      }
    }

    /** The predecessor, or the list head, takes over the `next` of the block, which is freed. */
    method Unlink(prev: nat, cur: nat, ghost k: nat)
      requires Shape() && k < |live| && live[k].addr == cur
      requires prev == if k == 0 then NULL else live[k - 1].addr
      modifies this`tcbs, this`tcbList, this`live
      ensures Shape() && live == Without(old(live), k) && cur !in tcbs
    {
      LinkedAt(tcbs, tcbList, live, k);
      if k > 0 { LinkedAt(tcbs, tcbList, live, k - 1); }
      LinkedRemove(tcbs, tcbList, live, k);
      if prev != NULL {
        tcbs := tcbs[prev := tcbs[prev].(next := tcbs[cur].next)];
      } else {
        tcbList := tcbs[cur].next;
      }
      tcbs := tcbs - {cur};
      live := Without(live, k);
    }

    /** `tcp_remove_tcb`: walks with a trailing pointer, unlinks, frees. */
    method RemoveTcb(a: nat, ghost k: nat)
      requires Shape() && k < |live| && live[k].addr == a
      modifies this`tcbs, this`tcbList, this`live
      ensures Shape() && live == Without(old(live), k) && a !in tcbs
    {
      var prev: nat := NULL;
      var cur: nat := tcbList;
      ghost var i: nat := 0;
      while cur != NULL
        invariant i <= k && Linked(tcbs, cur, live[i..])
        invariant if i == 0 then prev == NULL else prev == live[i - 1].addr != NULL
        invariant tcbs == old(tcbs) && tcbList == old(tcbList) && live == old(live)
        decreases |live| - i
      {
        if cur == a {
          assert i == k;
          Unlink(prev, cur, k);
          return;
        }
        prev := cur;
        cur := tcbs[cur].next;
        i := i + 1;
      }
    }

    /** Stores a changed control block in place. */
    method Store(a: nat, t: Tcb, ghost k: nat, ghost c: Conn)
      requires Shape() && k < |live| && live[k].addr == a && c.tcb == t
      modifies this`tcbs, this`live
      ensures Shape() && live == old(live)[k := Entry(a, c)] && a in tcbs && tcbs[a].tcb == t
    {
      LinkedAt(tcbs, tcbList, live, k);
      LinkedUpdate(tcbs, tcbList, live, k, c);
      tcbs := tcbs[a := tcbs[a].(tcb := t)];
      live := live[k := live[k].(conn := c)];
    }

    /** `tcp_send_segment`, seen from the control block. */
    method SendSegment(a: nat, flags: nat, payload: seq<Byte>, granted: bool, ghost k: nat)
      requires Shape() && k < |live| && live[k].addr == a
      modifies this`tcbs, this`live, this`wire
      ensures Shape() && live == old(live)[k := Entry(a, Send(old(live[k].conn), flags, payload, granted))]
      ensures Relayed(old(wire), wire, old(live[k].conn), live[k].conn)
    {
      ghost var c := live[k].conn;
      if !granted {
        RelayedNothing(wire, c, c);
        return;
      }
      LinkedAt(tcbs, tcbList, live, k);
      var t := tcbs[a].tcb;
      var out := Out(Wire.Fields(t.localPort, t.remotePort, t.sndNxt, t.rcvNxt, flags, t.rcvWnd), t.localIp, t.remoteIp, payload);
      wire := wire + [out];
      var next := t.sndNxt;
      if HasSyn(flags) || HasFin(flags) { next := (next + 1) % U32; } else { next := next % U32; }
      next := (next + |payload|) % U32;
      Store(a, t.(sndNxt := next), k, Send(c, flags, payload, true));
      RelayedOne(old(wire), out, c, live[k].conn);
    }

    /** `tcp_send_data`. */
    method SendPayload(a: nat, payload: seq<Byte>, granted: bool, ghost k: nat)
      requires Shape() && k < |live| && live[k].addr == a
      modifies this`tcbs, this`live, this`wire
      ensures Shape() && live == old(live)[k := Entry(a, SendData(old(live[k].conn), payload, granted))]
      ensures Relayed(old(wire), wire, old(live[k].conn), live[k].conn)
    {
      hide Send, Relayed;
      LinkedAt(tcbs, tcbList, live, k);
      if tcbs[a].tcb.state != Established {
        RelayedNothing(wire, live[k].conn, live[k].conn);
        return;
      }
      SendSegment(a, PSH + ACK, payload, granted, k);
    }

    /** `tcp_close`. */
    method CloseTcb(a: nat, granted: bool, ghost k: nat)
      requires Shape() && k < |live| && live[k].addr == a
      modifies this`tcbs, this`live, this`wire
      ensures Shape() && live == old(live)[k := Entry(a, Close(old(live[k].conn), granted))]
      ensures Relayed(old(wire), wire, old(live[k].conn), live[k].conn)
    {
      hide Send, Relayed;
      LinkedAt(tcbs, tcbList, live, k);
      var t := tcbs[a].tcb;
      ghost var c := live[k].conn;
      RelayedNothing(wire, c, c);
      if t.state == Established || t.state == CloseWait {
        Store(a, t.(state := LastAck), k, c.(tcb := t.(state := LastAck)));
        RelayedNothing(wire, c, live[k].conn);
        SendSegment(a, FIN + ACK, [], granted, k);
        RelayedTrans(old(wire), old(wire), wire, c, c.(tcb := t.(state := LastAck)), live[k].conn);
      }
    }

    /** `socket_dispatch`, without the construction of the response text. */
    method DispatchPayload(a: nat, seqNo: nat, payload: seq<Byte>, response: seq<Byte>, mem: seq<bool>, ghost k: nat)
      requires Shape() && k < |live| && live[k].addr == a
      modifies this`tcbs, this`live, this`wire
      ensures Shape() && live == old(live)[k := Entry(a, Dispatch(old(live[k].conn), seqNo, payload, response, mem))]
      ensures Relayed(old(wire), wire, old(live[k].conn), live[k].conn)
    {
      hide Send, SendData, Close, Relayed;
      LinkedAt(tcbs, tcbList, live, k);
      ghost var c := live[k].conn;
      ghost var c1 := c.(log := c.log.(delivered := c.log.delivered + [Delivery(seqNo, payload)]));
      Store(a, tcbs[a].tcb, k, c1);
      RelayedNothing(wire, c, c1);
      SendPayload(a, response, Granted(mem, 0), k);
      ghost var c2, wire2 := live[k].conn, wire;
      RelayedTrans(old(wire), old(wire), wire2, c, c1, c2);
      CloseTcb(a, Granted(mem, 1), k);
      RelayedTrans(old(wire), wire2, wire, c, c2, live[k].conn);
    }

    /** The data half of the ESTABLISHED case. */
    method ReceiveData(a: nat, seg: Seg, response: seq<Byte>, mem: seq<bool>, ghost k: nat)
      requires Shape() && k < |live| && live[k].addr == a
      modifies this`tcbs, this`live, this`wire
      ensures Shape() && live == old(live)[k := Entry(a, OnData(old(live[k].conn), seg, response, mem))]
      ensures Relayed(old(wire), wire, old(live[k].conn), live[k].conn)
    {
      hide Send, Dispatch, Relayed;
      LinkedAt(tcbs, tcbList, live, k);
      var t := tcbs[a].tcb;
      ghost var c := live[k].conn;
      RelayedNothing(wire, c, c);
      if |seg.payload| > 0 && seg.seqNo == t.rcvNxt {
        var t' := t.(rcvNxt := (t.rcvNxt + |seg.payload|) % U32);
        ghost var c1 := c.(tcb := t');
        Store(a, t', k, c1);
        RelayedNothing(wire, c, c1);
        DispatchPayload(a, seg.seqNo, seg.payload, response, mem, k);
        ghost var c2, wire2 := live[k].conn, wire;
        RelayedTrans(old(wire), old(wire), wire2, c, c1, c2);
        SendSegment(a, ACK, [], Granted(mem, 2), k);
        RelayedTrans(old(wire), wire2, wire, c, c2, live[k].conn);
      }
    }

    /** The FIN half of the ESTABLISHED case. */
    method ReceiveFin(a: nat, seg: Seg, mem: seq<bool>, ghost k: nat)
      requires Shape() && k < |live| && live[k].addr == a
      modifies this`tcbs, this`live, this`wire
      ensures Shape() && live == old(live)[k := Entry(a, OnFin(old(live[k].conn), seg, mem))]
      ensures Relayed(old(wire), wire, old(live[k].conn), live[k].conn)
    {
      hide Send, Close, Relayed;
      LinkedAt(tcbs, tcbList, live, k);
      ghost var c := live[k].conn;
      RelayedNothing(wire, c, c);
      if HasFin(seg.flags) {
        var t := tcbs[a].tcb;
        var t' := t.(rcvNxt := (seg.seqNo + 1) % U32);
        ghost var c1 := c.(tcb := t');
        Store(a, t', k, c1);
        RelayedNothing(wire, c, c1);
        SendSegment(a, ACK, [], Granted(mem, 3), k);
        ghost var c2, wire2 := live[k].conn, wire;
        RelayedTrans(old(wire), old(wire), wire2, c, c1, c2);
        LinkedAt(tcbs, tcbList, live, k);
        t := tcbs[a].tcb;
        ghost var c3 := c2.(tcb := t.(state := CloseWait));
        Store(a, t.(state := CloseWait), k, c3);
        RelayedNothing(wire, c2, c3);
        RelayedTrans(old(wire), wire2, wire2, c, c2, c3);
        CloseTcb(a, Granted(mem, 4), k);
        RelayedTrans(old(wire), wire2, wire, c, c3, live[k].conn);
      }
    }

    /** Passive open: a new control block at the head of the list. */
    method OpenTcb(seg: Seg, addr: nat, granted: bool)
      requires Shape() && addr != NULL && forall i | 0 <= i < |live| :: live[i].addr != addr
      modifies this
      ensures Shape() && live == [Entry(addr, Open(seg, old(isn), granted))] + old(live)
      ensures isn == (old(isn) + 1000) % U32 && closed == old(closed) && resets == old(resets)
      ensures wire == old(wire) + Open(seg, old(isn), granted).log.sent
    {
      hide Send;
      var t := Tcb(seg.dst, seg.src, seg.dstPort, seg.srcPort, SynReceived, isn, isn, (seg.seqNo + 1) % U32,
                   DEFAULT_WINDOW, DEFAULT_WINDOW);
      ghost var c := Conn(t, Log(isn, seg.seqNo, [], []));
      LinkedFrame(tcbs, tcbs[addr := Node(t, tcbList)], tcbList, live);
      tcbs := tcbs[addr := Node(t, tcbList)];
      tcbList := addr;
      live := [Entry(addr, c)] + live;
      assert live[1..] == old(live);
      isn := (isn + 1000) % U32;
      SendSegment(addr, SYN + ACK, [], granted, 0);
    }

    /** The ESTABLISHED case. */
    method ReceiveEstablished(a: nat, seg: Seg, response: seq<Byte>, mem: seq<bool>, ghost k: nat)
      requires Shape() && k < |live| && live[k].addr == a
      modifies this`tcbs, this`live, this`wire
      ensures Shape() && live == old(live)[k := Entry(a, OnFin(OnData(old(live[k].conn), seg, response, mem), seg, mem))]
      ensures Relayed(old(wire), wire, old(live[k].conn), live[k].conn)
    {
      hide OnData, OnFin, Relayed;
      ReceiveData(a, seg, response, mem, k);
      ghost var c1, wire1 := live[k].conn, wire;
      ReceiveFin(a, seg, mem, k);
      RelayedTrans(old(wire), wire1, wire, old(live[k].conn), c1, live[k].conn);
    }

    /** A segment for the listed connection `k`. */
    method Receive(a: nat, seg: Seg, response: seq<Byte>, mem: seq<bool>, ghost k: nat)
      requires Shape() && k < |live| && live[k].addr == a
      requires live[k].conn.tcb.state in {SynReceived, Established, LastAck}
      modifies this`tcbs, this`tcbList, this`live, this`closed, this`wire
      ensures Shape()
      ensures var o := Advance(old(live[k].conn), seg, response, mem);
              && Relayed(old(wire), wire, old(live[k].conn), o.conn)
              && (if o.Keep? then live == old(live)[k := Entry(a, o.conn)] && closed == old(closed)
                  else live == Without(old(live), k) && closed == old(closed) + [o.conn.log])
    {
      hide OnData, OnFin, Relayed;
      LinkedAt(tcbs, tcbList, live, k);
      var t := tcbs[a].tcb;
      ghost var c := live[k].conn;
      RelayedNothing(wire, c, c);
      match t.state {
        case SynReceived =>
          if HasAck(seg.flags) {
            var t' := t.(sndUna := seg.ackNo, state := Established);
            RelayedNothing(wire, c, c.(tcb := t'));
            Store(a, t', k, c.(tcb := t'));
          }
        case Established =>
          ReceiveEstablished(a, seg, response, mem, k);
        case LastAck =>
          if HasAck(seg.flags) {
            RelayedNothing(wire, c, c.(tcb := t.(state := Closed)));
            closed := closed + [c.log];
            RemoveTcb(a, k);
          }
        case _ =>
          // no listed control block is ever in another state
          assert false;
      }
    }

    /** `tcp_input_process` after its header checks: the control blocks become those of the modelled
        step, and exactly the segments it emits are handed to IPv4. */
    method InputSegment(seg: Seg, addr: nat, response: seq<Byte>, mem: seq<bool>)
      requires Valid() && Admissible(Model(), seg, addr) && |response| <= MAX_PAYLOAD
      modifies this
      ensures Valid() && Model() == Input(old(Model()), seg, addr, response, mem)
      ensures wire == old(wire) + Emitted(old(Model()), seg, addr, response, mem)
    {
      hide Open, Advance, TcpTable.Inv;
      InputKeeps(Model(), seg, addr, response, mem);
      ghost var k := Find(live, SegKey(seg), 0);
      ghost var was := Model();
      StatesSeen(was);
      var a := FindTcb(SegKey(seg));
      if a == NULL {
        if HasSyn(seg.flags) && seg.dstPort == HTTP_PORT {
          if addr == NULL { return; }
          OpenTcb(seg, addr, Granted(mem, 0));
        } else {
          wire := wire + [Reset(seg)];
          resets := resets + [Reset(seg)];
        }
        return;
      }
      Receive(a, seg, response, mem, k);
    }
  }

  lemma StatesSeen(s: Stack)
    requires TcpTable.Inv(s)
    ensures forall i | 0 <= i < |s.live| :: s.live[i].conn.tcb.state in {SynReceived, Established, LastAck}
  {
  }
}
