/** Index arithmetic of a ring of `n` slots addressed through wrapping 16-bit counters. */
module RingIndex {
  import opened Machine
  import opened Arith

  /** Queue sizes allowed by section 2.4 of VIRTIO 1.0: the powers of two up to 32768, which are
      the divisors of 65536 below it. */
  ghost predicate QueueSize(n: nat) {
    0 < n <= 32768 && U16 % n == 0
  }

  /** A 16-bit counter selects the slot that the unbounded counter would select. */
  lemma SlotOfCounter(j: nat, n: nat)
    requires QueueSize(n)
    ensures (j % U16) % n == j % n
  {
    var k, r := U16 / n, j % U16;
    assert U16 == n * k;
    assert j == U16 * (j / U16) + r;
    assert U16 * (j / U16) == n * (k * (j / U16));
    assert j == n * (k * (j / U16) + r / n) + r % n by {
      assert n * (k * (j / U16) + r / n) == n * (k * (j / U16)) + n * (r / n);
    }
    DivisionUnique(j, n, k * (j / U16) + r / n, r % n);
  }

  /** Wrapping is harmless exactly for the queue sizes that divide 65536. */
  lemma SlotsAgreeIff(n: nat)
    requires 0 < n <= 32768
    ensures (forall j: nat :: (j % U16) % n == j % n) <==> U16 % n == 0
  {
    if U16 % n == 0 {
      forall j: nat ensures (j % U16) % n == j % n { SlotOfCounter(j, n); }
    } else {
      assert (U16 % U16) % n == 0;
    }
  }

  /** Counters closer than `n` use different slots. */
  lemma SlotsDiffer(a: nat, b: nat, n: nat)
    requires 0 < n && a < b < a + n
    ensures a % n != b % n
  {
    var q, r, d := a / n, a % n, b - a;
    assert a == n * q + r;
    if r + d < n {
      DivisionUnique(b, n, q, r + d);
    } else {
      assert n * (q + 1) == n * q + n;
      DivisionUnique(b, n, q + 1, r + d - n);
    }
  }

  /** Equal 16-bit counters at distance at most 32768 are equal counters. */
  lemma CountersAgree(a: nat, b: nat)
    requires a <= b <= a + 32768
    ensures a % U16 == b % U16 <==> a == b
  {
    if a < b { SlotsDiffer(a, b, U16); }
  }
}

/** Where `virtqueue_init` puts the three parts of a queue in its 16 KB of ring memory. */
module RingLayout {
  import opened Arith
  import RingIndex

  const RING_MEMORY: int := 16384

  /** Offsets from the start of the ring memory. */
  function AvailAt(n: nat): nat { 16 * n }
  function AvailEnd(n: nat): nat { AvailAt(n) + 6 + 2 * n }
  function UsedAt(n: nat): nat { (AvailEnd(n) + 3) / 4 * 4 }
  function UsedEnd(n: nat): nat { UsedAt(n) + 6 + 8 * n }

  /** The parts are in order, disjoint and aligned as sections 2.4.5, 2.4.6 and 2.4.8 of VIRTIO 1.0
      ask, for every size; but they fit the memory set aside only up to 629 entries, which the
      code does not check against the size the device reports. */
  lemma LayoutFitsIff(base: nat, n: nat)
    requires base % 4096 == 0
    ensures AvailAt(n) < AvailEnd(n) <= UsedAt(n) < UsedEnd(n)
    ensures base % 16 == 0 && (base + AvailAt(n)) % 2 == 0 && (base + UsedAt(n)) % 4 == 0
    ensures UsedEnd(n) <= RING_MEMORY <==> n <= 629
  {
    UsedBounds(n);
    Alignments(base, n);
    hide UsedAt;
  }

  /** A size the standard allows and the driver accepts, whose rings overrun the memory. */
  lemma LayoutOverrunWitness()
    ensures RingIndex.QueueSize(1024) && UsedEnd(1024) == 26638 > RING_MEMORY
  {
  }

  lemma UsedBounds(n: nat)
    ensures AvailEnd(n) <= UsedAt(n) <= AvailEnd(n) + 3
  {
  }

  lemma Alignments(base: nat, n: nat)
    requires base % 4096 == 0
    ensures base % 16 == 0 && (base + AvailAt(n)) % 2 == 0 && (base + UsedAt(n)) % 4 == 0
  {
    var b, q := base / 4096, (AvailEnd(n) + 3) / 4;
    DivisionUnique(base, 16, 256 * b, 0);
    DivisionUnique(base + AvailAt(n), 2, 2048 * b + 8 * n, 0);
    DivisionUnique(base + UsedAt(n), 4, 1024 * b + q, 0);
  }
}

/** The split virtqueue: driver operations, device operations, and who owns which descriptor. */
module Ring {
  import opened Machine
  import opened RingIndex

  /** End of the free list, and the answer of a queue with no free descriptor. */
  const NONE: int := 0xFFFF

  datatype Desc = Desc(addr: nat, len: nat, flags: nat, next: nat)
  datatype Receipt = Receipt(id: nat, len: nat)

  /** The queue in memory: the shared rings and the driver's private cursors. */
  datatype Queue = Queue(
    size: nat, desc: seq<Desc>,
    availRing: seq<nat>, availIdx: nat,
    usedRing: seq<Receipt>, usedIdx: nat,
    freeHead: nat, numFree: nat, lastUsedIdx: nat)

  // ---------------------------------------------------------------------------------------
  // Driver and device operations on memory
  // ---------------------------------------------------------------------------------------

  /** The free list as `virtqueue_init` links it: 0, 1, ..., size-1, then the end marker. */
  function InitialDesc(mem: seq<Desc>): (d: seq<Desc>)
    ensures |d| == |mem|
  {
    seq(|mem|, i requires 0 <= i < |mem| => mem[i].(next := if i + 1 < |mem| then i + 1 else NONE))
  }

  /** A queue over zeroed ring memory. */
  function Init(size: nat, memory: seq<Desc>): Queue
    requires |memory| == size
  {
    Queue(size, InitialDesc(memory), seq(size, _ => 0), 0, seq(size, _ => Receipt(0, 0)), 0, 0, size, 0)
  }

  /** The driver may follow its own indices: they stay inside the tables. */
  predicate WellFormed(q: Queue) {
    && 0 < q.size == |q.desc| == |q.availRing| == |q.usedRing|
    && (q.numFree != 0 ==> q.freeHead < q.size)
    && (q.lastUsedIdx != q.usedIdx ==> q.usedRing[q.lastUsedIdx % q.size].id < q.size)
  }

  datatype Added = Added(q: Queue, head: nat)

  function AddDescriptor(q: Queue, addr: nat, len: nat, flags: nat): Added
    requires WellFormed(q)
  {
    if q.numFree == 0 then Added(q, NONE)
    else
      var head := q.freeHead;
      Added(q.(freeHead := q.desc[head].next, numFree := q.numFree - 1,
               desc := q.desc[head := Desc(addr, len, flags, 0)]), head)
  }

  /** Publishing is two stores with a barrier between them: first the slot, then the index. */
  function WriteSlot(q: Queue, head: nat): (r: Queue)
    requires WellFormed(q)
    ensures WellFormed(r)
  {
    q.(availRing := q.availRing[q.availIdx % q.size := head])
  }

  function PublishIndex(q: Queue): Queue { q.(availIdx := (q.availIdx + 1) % U16) }

  function PushAvailable(q: Queue, head: nat): Queue
    requires WellFormed(q)
  {
    PublishIndex(WriteSlot(q, head))
  }

  /** Nothing new, or a receipt whose descriptor is back on the free list. */
  datatype Popped = Nothing | Popped(q: Queue, receipt: Receipt)

  function PopUsed(q: Queue): Popped
    requires WellFormed(q)
  {
    if q.lastUsedIdx == q.usedIdx then Nothing
    else
      var receipt := q.usedRing[q.lastUsedIdx % q.size];
      var id := receipt.id;
      Popped(q.(lastUsedIdx := (q.lastUsedIdx + 1) % U16,
                desc := q.desc[id := q.desc[id].(next := q.freeHead)],
                freeHead := id, numFree := q.numFree + 1), receipt)
  }

  /** The device writes a receipt and publishes it. */
  function DeviceComplete(q: Queue, r: Receipt): Queue
    requires 0 < q.size == |q.usedRing|
  {
    q.(usedRing := q.usedRing[q.usedIdx % q.size := r], usedIdx := (q.usedIdx + 1) % U16)
  }

  /** The device returns several descriptors. */
  function Completed(q: Queue, done: seq<Receipt>): (r: Queue)
    requires 0 < q.size == |q.usedRing|
    ensures r == q.(usedRing := r.usedRing, usedIdx := r.usedIdx) && |r.usedRing| == r.size
    decreases |done|
  {
    if done == [] then q else DeviceComplete(Completed(q, done[..|done| - 1]), done[|done| - 1])
  }

  // ---------------------------------------------------------------------------------------
  // The system: memory, the device's own cursor, and the record of what happened
  // ---------------------------------------------------------------------------------------

  datatype Owner = Free | Taken | Pending | Held | Returned

  /** Where the driver stands inside an operation: nowhere, at the barrier of a publication with the
      slot written and the index not, or at the barrier of a pop with the used index seen to have
      moved and the receipt not yet read. */
  datatype Phase = AtRest | Staged(id: nat) | Seen

  /** `dev` is the device's position in the avail ring. `owner` and `free` record who has each
      descriptor and the order of the free list; `pushed` and `wrote` are everything ever written
      to the two rings, `saw` and `reaped` everything ever read from them. */
  datatype Sys = Sys(
    q: Queue, dev: nat, phase: Phase,
    owner: seq<Owner>, free: seq<nat>,
    pushed: seq<nat>, saw: seq<nat>,
    wrote: seq<Receipt>, reaped: seq<Receipt>)

  /** The numbers `from, from + 1, ..., to - 1`. */
  function Range(from: nat, to: nat): (s: seq<nat>)
    requires from <= to
    ensures |s| == to - from && forall i | 0 <= i < |s| :: s[i] == from + i
  {
    seq(to - from, i => from + i)
  }

  lemma RangeTail(from: nat, to: nat)
    requires from < to
    ensures Range(from, to)[0] == from && Range(from, to)[1..] == Range(from + 1, to)
  {
  }

  function Start(size: nat, memory: seq<Desc>): Sys
    requires |memory| == size
  {
    Sys(Init(size, memory), 0, AtRest, seq(size, _ => Free), Range(0, size), [], [], [], [])
  }

  datatype Step =
    | Add(addr: nat, len: nat, flags: nat)
    | Write(id: nat)
    | Publish
    | Look
    | Take
    | Consume
    | Complete(id: nat, len: nat)

  /** The driver finishes one operation before the next; the device moves at any time. */
  ghost predicate Enabled(s: Sys, step: Step) {
    && WellFormed(s.q) && |s.owner| == s.q.size
    && match step
       case Add(_, _, _) => s.phase.AtRest?
       case Write(id) => s.phase.AtRest? && id < |s.owner| && s.owner[id] == Taken
       case Publish => s.phase.Staged? && s.phase.id < |s.owner|
       case Look => s.phase.AtRest?
       case Take => s.phase.Seen?
       case Consume => s.dev != s.q.availIdx && s.q.availRing[s.dev % s.q.size] < |s.owner|
       case Complete(id, _) => id < |s.owner| && s.owner[id] == Held
  }

  function Next(s: Sys, step: Step): Sys
    requires WellFormed(s.q) && |s.owner| == s.q.size
    requires step.Publish? ==> s.phase.Staged? && s.phase.id < |s.owner|
    requires step.Complete? ==> step.id < |s.owner|
    requires step.Consume? ==> s.q.availRing[s.dev % s.q.size] < |s.owner|
  {
    match step
    case Add(addr, len, flags) =>
      var r := AddDescriptor(s.q, addr, len, flags);
      if s.q.numFree == 0 then s
      else s.(q := r.q, owner := s.owner[r.head := Taken], free := if s.free == [] then [] else s.free[1..])
    case Write(id) => s.(q := WriteSlot(s.q, id), phase := Staged(id))
    case Publish =>
      s.(q := PublishIndex(s.q), phase := AtRest, owner := s.owner[s.phase.id := Pending], pushed := s.pushed + [s.phase.id])
    case Look => if s.q.lastUsedIdx == s.q.usedIdx then s else s.(phase := Seen)
    case Take =>
      var r := PopUsed(s.q);
      if r.Nothing? then s
      else s.(q := r.q, phase := AtRest, owner := s.owner[r.receipt.id := Free], free := [r.receipt.id] + s.free,
              reaped := s.reaped + [r.receipt])
    case Consume =>
      var id := s.q.availRing[s.dev % s.q.size];
      s.(dev := (s.dev + 1) % U16, owner := s.owner[id := Held], saw := s.saw + [id])
    case Complete(id, len) =>
      s.(q := DeviceComplete(s.q, Receipt(id, len)), owner := s.owner[id := Returned],
         wrote := s.wrote + [Receipt(id, len)])
  }

  // ---------------------------------------------------------------------------------------
  // The invariant
  // ---------------------------------------------------------------------------------------

  /** Following `next` from `head` visits exactly `free` and then the end marker. */
  ghost predicate Chain(desc: seq<Desc>, head: nat, free: seq<nat>)
    decreases |free|
  {
    if free == [] then head == NONE
    else head == free[0] < |desc| && Chain(desc, desc[head].next, free[1..])
  }

  ghost predicate Distinct(s: seq<nat>) {
    forall i, j | 0 <= i < j < |s| :: s[i] != s[j]
  }

  /** `s` enumerates, without repetition, the descriptors owned as `k`. */
  ghost predicate Lists(owner: seq<Owner>, s: seq<nat>, k: Owner) {
    Distinct(s) && forall id: nat :: id in s <==> id < |owner| && owner[id] == k
  }

  function Ids(rs: seq<Receipt>): (ids: seq<nat>)
    ensures |ids| == |rs| && forall i | 0 <= i < |rs| :: ids[i] == rs[i].id
  {
    seq(|rs|, i requires 0 <= i < |rs| => rs[i].id)
  }

  /** Slots `from..|log|` of the unbounded log are present in the ring. */
  ghost predicate Window<T>(ring: seq<T>, log: seq<T>, from: nat) {
    |ring| > 0 && from <= |log| <= from + |ring| && forall j | from <= j < |log| :: ring[j % |ring|] == log[j]
  }

  ghost predicate Shape(s: Sys) {
    && QueueSize(s.q.size)
    && s.q.size == |s.q.desc| == |s.q.availRing| == |s.q.usedRing| == |s.owner|
    && s.q.availIdx == |s.pushed| % U16 && s.dev == |s.saw| % U16
    && s.q.usedIdx == |s.wrote| % U16 && s.q.lastUsedIdx == |s.reaped| % U16
  }

  /** The rings are windows onto the logs, and what was read is a prefix of what was written. */
  ghost predicate Fifo(s: Sys) {
    && s.saw <= s.pushed && Window(s.q.availRing, s.pushed, |s.saw|)
    && s.reaped <= s.wrote && Window(s.q.usedRing, s.wrote, |s.reaped|)
  }

  ghost predicate Partition(s: Sys)
    requires |s.saw| <= |s.pushed| && |s.reaped| <= |s.wrote|
  {
    && Lists(s.owner, s.free, Free)
    && Lists(s.owner, s.pushed[|s.saw|..], Pending)
    && Lists(s.owner, Ids(s.wrote[|s.reaped|..]), Returned)
  }

  ghost predicate FreeList(s: Sys) {
    s.q.numFree == |s.free| && Chain(s.q.desc, s.q.freeHead, s.free)
  }

  /** At the first barrier the slot behind the published ones holds the descriptor, which the driver
      still owns; at the second there is a receipt to read. */
  ghost predicate PhaseOk(s: Sys)
    requires s.q.size == |s.q.availRing| > 0
  {
    match s.phase
    case AtRest => true
    case Staged(id) => id < |s.owner| && s.owner[id] == Taken && s.q.availRing[|s.pushed| % s.q.size] == id
    case Seen => |s.reaped| < |s.wrote|
  }

  ghost predicate Inv(s: Sys) {
    Shape(s) && Fifo(s) && Partition(s) && FreeList(s) && PhaseOk(s)
  }

  // ---------------------------------------------------------------------------------------
  // Facts about lists of descriptors
  // ---------------------------------------------------------------------------------------

  /** A list without repetition of numbers below `n` has at most `n` elements. */
  lemma {:induction false} Pigeonhole(s: seq<nat>, n: nat)
    requires Distinct(s) && forall i | 0 <= i < |s| :: s[i] < n
    ensures |s| <= n
  {
    var members := set x | x in s;
    Cardinality(s, members);
    SubsetCardinality(members, Below(n));
  }

  lemma {:induction false} Cardinality(s: seq<nat>, members: set<nat>)
    requires Distinct(s) && members == set x | x in s
    ensures |members| == |s|
  {
    if s != [] {
      var rest := set x | x in s[1..];
      assert s[0] !in s[1..];
      assert members == rest + {s[0]};
      Cardinality(s[1..], rest);
    }
  }

  ghost function Below(n: nat): (r: set<nat>)
    ensures |r| == n && forall x: nat :: x in r <==> x < n
  {
    if n == 0 then {} else Below(n - 1) + {n - 1}
  }

  lemma {:induction false} SubsetCardinality<T>(a: set<T>, b: set<T>)
    requires a <= b
    ensures |a| <= |b|
  {
    assert b == a + (b - a);
  }

  lemma ListsBound(owner: seq<Owner>, s: seq<nat>, k: Owner)
    requires Lists(owner, s, k)
    ensures |s| <= |owner|
  {
    forall i | 0 <= i < |s| ensures s[i] < |owner| { assert s[i] in s; }
    Pigeonhole(s, |owner|);
  }

  lemma ListsAppend(owner: seq<Owner>, s: seq<nat>, k: Owner, id: nat)
    requires Lists(owner, s, k) && id < |owner| && owner[id] != k
    ensures Lists(owner[id := k], s + [id], k)
  {
    var s' := s + [id];
    forall x: nat ensures x in s' <==> x < |owner| && owner[id := k][x] == k {
      assert x in s' <==> x in s || x == id;
    }
    forall i, j | 0 <= i < j < |s'| ensures s'[i] != s'[j] { assert s'[i] == s[i]; assert s[i] in s; }
  }

  lemma ListsPrepend(owner: seq<Owner>, s: seq<nat>, k: Owner, id: nat)
    requires Lists(owner, s, k) && id < |owner| && owner[id] != k
    ensures Lists(owner[id := k], [id] + s, k)
  {
    var s' := [id] + s;
    forall x: nat ensures x in s' <==> x < |owner| && owner[id := k][x] == k {
      assert x in s' <==> x in s || x == id;
    }
    forall i, j | 0 <= i < j < |s'| ensures s'[i] != s'[j] { assert s'[j] == s[j - 1]; assert s[j - 1] in s; }
  }

  lemma ListsTail(owner: seq<Owner>, s: seq<nat>, k: Owner, k': Owner)
    requires Lists(owner, s, k) && s != [] && k' != k
    ensures s[0] < |owner| && owner[s[0]] == k && Lists(owner[s[0] := k'], s[1..], k)
  {
    assert s[0] in s;
    forall x: nat ensures x in s[1..] <==> x < |owner| && owner[s[0] := k'][x] == k {
      assert x in s <==> x == s[0] || x in s[1..];
      assert s[0] !in s[1..];
    }
  }

  lemma ListsOther(owner: seq<Owner>, s: seq<nat>, k: Owner, id: nat, k': Owner)
    requires Lists(owner, s, k) && id < |owner| && owner[id] != k && k' != k
    ensures Lists(owner[id := k'], s, k)
  {
  }

  /** Rewriting a descriptor off the free list leaves the list alone. */
  lemma {:induction false} ChainElsewhere(desc: seq<Desc>, head: nat, free: seq<nat>, id: nat, d: Desc)
    requires Chain(desc, head, free) && id < |desc| && id !in free
    ensures Chain(desc[id := d], head, free)
    decreases |free|
  {
    if free != [] {
      assert free[0] in free;
      ChainElsewhere(desc, desc[head].next, free[1..], id, d);
    }
  }

  lemma ListsExcludes(owner: seq<Owner>, s: seq<nat>, k: Owner, id: nat)
    requires Lists(owner, s, k) && id < |owner| && owner[id] != k
    ensures id !in s
  {
  }

  lemma ChainPrepend(desc: seq<Desc>, head: nat, free: seq<nat>, id: nat)
    requires Chain(desc, head, free) && id < |desc| && id !in free
    ensures Chain(desc[id := desc[id].(next := head)], id, [id] + free)
  {
    ChainElsewhere(desc, head, free, id, desc[id].(next := head));
    assert ([id] + free)[1..] == free;
  }

  // ---------------------------------------------------------------------------------------
  // Facts about one ring
  // ---------------------------------------------------------------------------------------

  /** The slot behind the window holds no unread entry: writing it loses none of them. */
  lemma WindowWrite<T>(ring: seq<T>, log: seq<T>, from: nat, x: T)
    requires Window(ring, log, from) && |log| < from + |ring| && QueueSize(|ring|)
    ensures (|log| % U16) % |ring| == |log| % |ring|
    ensures Window(ring[|log| % |ring| := x], log, from)
  {
    var n := |ring|;
    SlotOfCounter(|log|, n);
    forall j | from <= j < |log| ensures ring[|log| % n := x][j % n] == log[j] {
      SlotsDiffer(j, |log|, n);
    }
  }

  /** Publishing the index makes the entry in that slot part of the window. */
  lemma WindowExtend<T>(ring: seq<T>, log: seq<T>, from: nat, x: T)
    requires Window(ring, log, from) && |log| < from + |ring| && ring[|log| % |ring|] == x
    ensures Window(ring, log + [x], from)
  {
  }

  /** The reader's 16-bit cursor selects the oldest unread entry. */
  lemma WindowRead<T>(ring: seq<T>, log: seq<T>, from: nat)
    requires Window(ring, log, from) && QueueSize(|ring|)
    ensures from % U16 == |log| % U16 <==> from == |log|
    ensures from < |log| ==> ring[(from % U16) % |ring|] == log[from] && Window(ring, log, from + 1)
  {
    SlotOfCounter(from, |ring|);
    CountersAgree(from, |log|);
  }

  // ---------------------------------------------------------------------------------------
  // Every step of driver or device keeps the invariant
  // ---------------------------------------------------------------------------------------

  lemma InvWellFormed(s: Sys)
    requires Inv(s)
    ensures WellFormed(s.q)
    ensures s.q.lastUsedIdx == s.q.usedIdx <==> |s.reaped| == |s.wrote|
    ensures s.dev == s.q.availIdx <==> |s.saw| == |s.pushed|
    ensures |s.reaped| < |s.wrote| ==> s.q.usedRing[s.q.lastUsedIdx % s.q.size] == s.wrote[|s.reaped|]
    ensures |s.saw| < |s.pushed| ==> s.q.availRing[s.dev % s.q.size] == s.pushed[|s.saw|] < s.q.size
  {
    WindowRead(s.q.availRing, s.pushed, |s.saw|);
    WindowRead(s.q.usedRing, s.wrote, |s.reaped|);
    var waiting, pending := Ids(s.wrote[|s.reaped|..]), s.pushed[|s.saw|..];
    if |s.reaped| < |s.wrote| { assert waiting[0] in waiting; }
    if |s.saw| < |s.pushed| { assert pending[0] in pending; }
    if s.free != [] { assert s.free[0] in s.free; }
  }

  /** What the invariant says without mentioning the rings. */
  lemma InvFacts(s: Sys)
    requires Inv(s)
    ensures WellFormed(s.q) && QueueSize(s.q.size) && |s.owner| == |s.q.desc| == s.q.size
    ensures s.q.numFree == |s.free| && |s.reaped| <= |s.wrote| && |s.saw| <= |s.pushed|
    ensures forall id: nat :: id in s.free <==> id < |s.owner| && s.owner[id] == Free
    ensures Enabled(s, Consume) <==> |s.saw| < |s.pushed|
    ensures PopUsed(s.q).Popped? <==> |s.reaped| < |s.wrote|
  {
    InvWellFormed(s);
  }

  lemma CountUp(n: nat)
    ensures (n % U16 + 1) % U16 == (n + 1) % U16
  {
  }

  lemma AddKeeps(s: Sys, addr: nat, len: nat, flags: nat)
    requires Inv(s) && s.phase.AtRest? && s.q.numFree != 0
    ensures WellFormed(s.q) && AddDescriptor(s.q, addr, len, flags).head == s.free[0] < s.q.size
    ensures var s' := Next(s, Add(addr, len, flags));
            && Inv(s') && s'.q.size == s.q.size && s'.q.desc == s.q.desc[s.free[0] := Desc(addr, len, flags, 0)]
            && s' == s.(q := s'.q, owner := s.owner[s.free[0] := Taken], free := s.free[1..])
  {
    InvWellFormed(s);
    ListsTail(s.owner, s.free, Free, Taken);
    var id := s.free[0];
    ListsOther(s.owner, s.pushed[|s.saw|..], Pending, id, Taken);
    ListsOther(s.owner, Ids(s.wrote[|s.reaped|..]), Returned, id, Taken);
    ChainElsewhere(s.q.desc, s.q.desc[id].next, s.free[1..], id, Desc(addr, len, flags, 0));
  }

  /** There is room for one more descriptor in the avail ring, and who owns what stays told apart
      when it becomes pending. */
  lemma PushPartition(s: Sys, id: nat)
    requires Inv(s) && id < |s.owner| && s.owner[id] == Taken
    ensures |s.pushed| < |s.saw| + s.q.size
    ensures Lists(s.owner[id := Pending], (s.pushed + [id])[|s.saw|..], Pending)
    ensures Lists(s.owner[id := Pending], s.free, Free)
    ensures Lists(s.owner[id := Pending], Ids(s.wrote[|s.reaped|..]), Returned)
  {
    var pending := s.pushed[|s.saw|..];
    ListsAppend(s.owner, pending, Pending, id);
    ListsBound(s.owner[id := Pending], pending + [id], Pending);
    ListsOther(s.owner, s.free, Free, id, Pending);
    ListsOther(s.owner, Ids(s.wrote[|s.reaped|..]), Returned, id, Pending);
    assert (s.pushed + [id])[|s.saw|..] == pending + [id];
  }

  /** The slot store changes nothing the device can see yet. */
  lemma WriteKeeps(s: Sys, id: nat)
    requires Inv(s) && Enabled(s, Write(id))
    ensures var s' := Next(s, Write(id));
            && Inv(s') && s'.q.size == s.q.size && s'.q.desc == s.q.desc
            && s' == s.(q := WriteSlot(s.q, id), phase := Staged(id))
  {
    PushPartition(s, id);
    WindowWrite(s.q.availRing, s.pushed, |s.saw|, id);
  }

  /** The index store hands the staged descriptor over. */
  lemma PublishKeeps(s: Sys)
    requires Inv(s) && s.phase.Staged?
    ensures Enabled(s, Publish) && s.owner[s.phase.id] == Taken
    ensures var id, s' := s.phase.id, Next(s, Publish);
            && Inv(s') && s'.q.size == s.q.size && s'.q.desc == s.q.desc
            && s' == s.(q := PublishIndex(s.q), phase := AtRest, owner := s.owner[id := Pending], pushed := s.pushed + [id])
  {
    hide Lists, Chain;
    InvWellFormed(s);
    var id := s.phase.id;
    PushPartition(s, id);
    WindowExtend(s.q.availRing, s.pushed, |s.saw|, id);
    CountUp(|s.pushed|);
  }

  /** Looking finds something new exactly when a receipt is waiting. */
  lemma LookKeeps(s: Sys)
    requires Inv(s) && s.phase.AtRest?
    ensures Enabled(s, Look)
    ensures var s' := Next(s, Look); Inv(s') && s' == if |s.reaped| < |s.wrote| then s.(phase := Seen) else s
  {
    InvWellFormed(s);
  }

  /** Whatever the device did since the look, the receipt read is the oldest unread one. */
  lemma TakeKeeps(s: Sys)
    requires Inv(s) && s.phase.Seen?
    ensures Enabled(s, Take) && |s.reaped| < |s.wrote|
    ensures PopUsed(s.q).Popped? && PopUsed(s.q).receipt == s.wrote[|s.reaped|]
    ensures var id, s' := s.wrote[|s.reaped|].id, Next(s, Take);
            && id < s.q.size == |s.q.desc| == |s.owner| && s.owner[id] == Returned
            && Inv(s') && s'.q.size == s.q.size && s'.q.desc == s.q.desc[id := s.q.desc[id].(next := s.q.freeHead)]
            && s' == s.(q := s'.q, phase := AtRest, owner := s.owner[id := Free], free := [id] + s.free,
                        reaped := s.reaped + [s.wrote[|s.reaped|]])
  {
    hide Lists, Chain;
    InvWellFormed(s);
    WindowRead(s.q.usedRing, s.wrote, |s.reaped|);
    var k := |s.reaped|;
    var waiting, id := Ids(s.wrote[k..]), s.wrote[k].id;
    assert waiting[0] == id;
    ListsTail(s.owner, waiting, Returned, Free);
    ListsPrepend(s.owner, s.free, Free, id);
    ListsOther(s.owner, s.pushed[|s.saw|..], Pending, id, Free);
    assert Ids(s.wrote[k + 1..]) == waiting[1..];
    ListsExcludes(s.owner, s.free, Free, id);
    ChainPrepend(s.q.desc, s.q.freeHead, s.free, id);
    CountUp(k);
  }

  lemma ConsumeKeeps(s: Sys)
    requires Inv(s) && |s.saw| < |s.pushed|
    ensures Enabled(s, Consume) && s.q.availRing[s.dev % s.q.size] == s.pushed[|s.saw|]
    ensures var id, s' := s.pushed[|s.saw|], Next(s, Consume);
            && id < |s.owner| && s.owner[id] == Pending && Inv(s')
            && s' == s.(dev := s'.dev, owner := s.owner[id := Held], saw := s.saw + [id])
  {
    hide Lists, Chain;
    InvWellFormed(s);
    WindowRead(s.q.availRing, s.pushed, |s.saw|);
    var k := |s.saw|;
    var pending, id := s.pushed[k..], s.pushed[k];
    assert pending[0] == id;
    ListsTail(s.owner, pending, Pending, Held);
    ListsOther(s.owner, s.free, Free, id, Held);
    ListsOther(s.owner, Ids(s.wrote[|s.reaped|..]), Returned, id, Held);
    assert s.pushed[k + 1..] == pending[1..];
    CountUp(k);
  }

  lemma CompleteKeeps(s: Sys, id: nat, len: nat)
    requires Inv(s) && Enabled(s, Complete(id, len))
    ensures var s' := Next(s, Complete(id, len));
            && Inv(s') && s'.q.size == s.q.size && s'.q.desc == s.q.desc
            && s' == s.(q := s'.q, owner := s.owner[id := Returned], wrote := s.wrote + [Receipt(id, len)])
  {
    hide Lists, Chain;
    var waiting, r := Ids(s.wrote[|s.reaped|..]), Receipt(id, len);
    ListsAppend(s.owner, waiting, Returned, id);
    ListsBound(s.owner[id := Returned], waiting + [id], Returned);
    ListsOther(s.owner, s.free, Free, id, Returned);
    ListsOther(s.owner, s.pushed[|s.saw|..], Pending, id, Returned);
    assert Ids((s.wrote + [r])[|s.reaped|..]) == waiting + [id];
    var n := |s.wrote|;
    WindowWrite(s.q.usedRing, s.wrote, |s.reaped|, r);
    WindowExtend(s.q.usedRing[n % s.q.size := r], s.wrote, |s.reaped|, r);
    CountUp(|s.wrote|);
  }

  /** A device step moves one descriptor that the device may touch, and nothing else. */
  lemma DeviceStepEffect(s: Sys, step: Step) returns (id: nat, k: Owner)
    requires Inv(s) && Enabled(s, step) && (step.Consume? || step.Complete?)
    ensures id < |s.owner| && s.owner[id] in {Pending, Held} && k in {Held, Returned}
    ensures var s' := Next(s, step);
            && Inv(s') && s'.q.size == s.q.size && s'.q.desc == s.q.desc && s'.q.numFree == s.q.numFree
            && s'.owner == s.owner[id := k] && s'.free == s.free && s'.pushed == s.pushed && s'.reaped == s.reaped
            && s'.phase == s.phase && s'.q.freeHead == s.q.freeHead
  {
    match step
    case Consume => InvFacts(s); ConsumeKeeps(s); id, k := s.pushed[|s.saw|], Held;
    case Complete(i, len) => CompleteKeeps(s, i, len); id, k := i, Returned;
  }

  lemma StepKeeps(s: Sys, step: Step)
    requires Inv(s) && Enabled(s, step)
    ensures Inv(Next(s, step))
  {
    InvWellFormed(s);
    match step
    case Add(addr, len, flags) => if s.q.numFree != 0 { AddKeeps(s, addr, len, flags); }
    case Write(id) => WriteKeeps(s, id);
    case Publish => PublishKeeps(s);
    case Look => LookKeeps(s);
    case Take => TakeKeeps(s);
    case Consume => ConsumeKeeps(s);
    case Complete(id, len) => CompleteKeeps(s, id, len);
  }

  // ---------------------------------------------------------------------------------------
  // Whole runs
  // ---------------------------------------------------------------------------------------

  ghost predicate ValidRun(s: Sys, steps: seq<Step>)
    decreases |steps|
  {
    steps == [] || (Enabled(s, steps[0]) && ValidRun(Next(s, steps[0]), steps[1..]))
  }

  ghost function Run(s: Sys, steps: seq<Step>): Sys
    requires ValidRun(s, steps)
    decreases |steps|
  {
    if steps == [] then s else Run(Next(s, steps[0]), steps[1..])
  }

  lemma {:induction false} RunKeeps(s: Sys, steps: seq<Step>)
    requires Inv(s) && ValidRun(s, steps)
    ensures Inv(Run(s, steps))
    decreases |steps|
  {
    if steps != [] {
      StepKeeps(s, steps[0]);
      RunKeeps(Next(s, steps[0]), steps[1..]);
    }
  }

  lemma {:induction false} InitialChain(mem: seq<Desc>, from: nat)
    requires |mem| <= 32768 && from <= |mem|
    ensures Chain(InitialDesc(mem), if from < |mem| then from else NONE, Range(from, |mem|))
    decreases |mem| - from
  {
    if from < |mem| {
      InitialChain(mem, from + 1);
      RangeTail(from, |mem|);
    }
  }

  lemma StartInv(size: nat, mem: seq<Desc>)
    requires QueueSize(size) && |mem| == size
    ensures Inv(Start(size, mem))
  {
    InitialChain(mem, 0);
    var s := Start(size, mem);
    forall id: nat ensures id in s.free <==> id < size && s.owner[id] == Free {
      if id < size { assert s.free[id] == id; }
    }
  }

  /** The rings are unbounded FIFO queues: after any run from initialisation, whatever the
      interleaving and however often the 16-bit counters wrapped, each side has read exactly a
      prefix of what the other wrote, in order and once each. */
  lemma RingsAreFifo(size: nat, mem: seq<Desc>, steps: seq<Step>)
    requires QueueSize(size) && |mem| == size && ValidRun(Start(size, mem), steps)
    ensures var s := Run(Start(size, mem), steps); Inv(s) && s.saw <= s.pushed && s.reaped <= s.wrote
  {
    StartInv(size, mem);
    RunKeeps(Start(size, mem), steps);
  }

  /** How often `id` occurs in `s`. */
  function Count(s: seq<nat>, id: nat): nat {
    if s == [] then 0 else (if s[0] == id then 1 else 0) + Count(s[1..], id)
  }

  lemma {:induction false} CountDistinct(s: seq<nat>, id: nat)
    requires Distinct(s)
    ensures Count(s, id) == if id in s then 1 else 0
  {
    if s != [] {
      CountDistinct(s[1..], id);
      assert s[0] !in s[1..];
    }
  }

  /** Each descriptor is in exactly one place, once: on the free list, taken, pending in the
      avail ring, held by the device, or waiting in the used ring. */
  lemma ExactlyOneOwner(s: Sys, id: nat)
    requires Inv(s) && id < s.q.size
    ensures Count(s.free, id) + Count(s.pushed[|s.saw|..], id) + Count(Ids(s.wrote[|s.reaped|..]), id)
          + (if s.owner[id] == Taken then 1 else 0) + (if s.owner[id] == Held then 1 else 0) == 1
  {
    CountDistinct(s.free, id);
    CountDistinct(s.pushed[|s.saw|..], id);
    CountDistinct(Ids(s.wrote[|s.reaped|..]), id);
  }

  // ---------------------------------------------------------------------------------------
  // At the barriers
  // ---------------------------------------------------------------------------------------

  /** Between the two stores of a publication the device, however far it reads on, never reads the
      descriptor being published. */
  lemma StagedIsInvisible(s: Sys)
    requires Inv(s) && s.phase.Staged? && Enabled(s, Consume)
    ensures s.q.availRing[s.dev % s.q.size] != s.phase.id
  {
    InvFacts(s);
    ConsumeKeeps(s);
  }

  /** What the barrier is for. With the index stored before the slot, a device moving in between reads
      a stale entry: on a queue of two descriptors, both taken, it is told of descriptor 0 while the
      driver publishes descriptor 1. */
  lemma IndexFirstReadsStale(mem: seq<Desc>)
    requires |mem| == 2
    ensures var run := [Add(0, 0, 0), Add(0, 0, 0)];
            && ValidRun(Start(2, mem), run)
            && var s := Run(Start(2, mem), run);
               && Inv(s) && Enabled(s, Write(1)) && !Enabled(s, Consume)
               && var early := s.(q := PublishIndex(s.q));
                  Enabled(early, Consume) && early.q.availRing[early.dev % 2] == 0 && s.owner[0] == Taken
  {
    var s0 := Start(2, mem);
    StartInv(2, mem);
    AddKeeps(s0, 0, 0, 0);
    var s1 := Next(s0, Add(0, 0, 0));
    AddKeeps(s1, 0, 0, 0);
    var s2 := Next(s1, Add(0, 0, 0));
    InvFacts(s2);
    hide Inv, Next, AddDescriptor;
    RunNone(s2);
    RunStep(s1, Add(0, 0, 0), []);
    RunStep(s0, Add(0, 0, 0), [Add(0, 0, 0)]);
    assert [Add(0, 0, 0)] + [Add(0, 0, 0)] == [Add(0, 0, 0), Add(0, 0, 0)];
    assert [Add(0, 0, 0)] + [] == [Add(0, 0, 0)];
  }

  predicate DeviceOnly(steps: seq<Step>) {
    forall i | 0 <= i < |steps| :: steps[i].Consume? || steps[i].Complete?
  }

  /** The receipts written in a run. */
  function Receipts(steps: seq<Step>): seq<Receipt> {
    if steps == [] then []
    else (if steps[0].Complete? then [Receipt(steps[0].id, steps[0].len)] else []) + Receipts(steps[1..])
  }

  lemma {:induction false} CompletedFirst(q: Queue, r: Receipt, done: seq<Receipt>)
    requires 0 < q.size == |q.usedRing|
    ensures Completed(q, [r] + done) == Completed(DeviceComplete(q, r), done)
    decreases |done|
  {
    var all, n := [r] + done, |done|;
    if n == 0 {
      assert all[..0] == [];
    } else {
      assert all[..n] == [r] + done[..n - 1];
      CompletedFirst(q, r, done[..n - 1]);
    }
  }

  /** All that device steps do to memory is what their receipts do; they leave the driver where it
      stands. */
  lemma {:induction false} DeviceRunQueue(s: Sys, steps: seq<Step>)
    requires Inv(s) && DeviceOnly(steps) && ValidRun(s, steps)
    ensures 0 < s.q.size == |s.q.usedRing|
    ensures var s' := Run(s, steps);
            Inv(s') && s'.q == Completed(s.q, Receipts(steps)) && s'.phase == s.phase && s'.pushed == s.pushed && s'.reaped == s.reaped
    decreases |steps|
  {
    InvFacts(s);
    if steps != [] {
      var s1 := Next(s, steps[0]);
      var id, k := DeviceStepEffect(s, steps[0]);
      hide Inv;
      DeviceRunQueue(s1, steps[1..]);
      if steps[0].Complete? {
        CompletedFirst(s.q, Receipt(steps[0].id, steps[0].len), Receipts(steps[1..]));
      } else {
        assert [] + Receipts(steps[1..]) == Receipts(steps[1..]);
      }
    }
  }

  /** The driver's publication with the device moving at its barrier, seen as memory: the slot store,
      the device's receipts, the index store. */
  lemma PushAcrossBarrier(s: Sys, id: nat, steps: seq<Step>)
    requires Inv(s) && Enabled(s, Write(id)) && DeviceOnly(steps) && ValidRun(Next(s, Write(id)), steps)
    ensures WellFormed(s.q) && Enabled(Run(Next(s, Write(id)), steps), Publish)
    ensures var s' := Next(Run(Next(s, Write(id)), steps), Publish);
            && Inv(s') && s'.phase.AtRest? && s'.pushed == s.pushed + [id]
            && s'.q == PublishIndex(Completed(WriteSlot(s.q, id), Receipts(steps)))
  {
    WriteKeeps(s, id);
    DeviceRunQueue(Next(s, Write(id)), steps);
    PublishKeeps(Run(Next(s, Write(id)), steps));
    hide Inv;
  }

  /** A pop with the device moving at its barrier: the receipt taken is the one that was oldest
      before. */
  lemma PopAcrossBarrier(s: Sys, steps: seq<Step>)
    requires Inv(s) && s.phase.AtRest? && |s.reaped| < |s.wrote|
    requires DeviceOnly(steps) && Enabled(s, Look) && ValidRun(Next(s, Look), steps)
    ensures Enabled(Run(Next(s, Look), steps), Take) && 0 < s.q.size == |s.q.usedRing|
    ensures var q := Completed(s.q, Receipts(steps));
            var s' := Next(Run(Next(s, Look), steps), Take);
            && WellFormed(q) && PopUsed(q) == Popped(s'.q, s.wrote[|s.reaped|])
            && Inv(s') && s'.phase.AtRest? && s'.reaped == s.reaped + [s.wrote[|s.reaped|]]
  {
    LookKeeps(s);
    var s1 := Next(s, Look);
    DeviceRunQueue(s1, steps);
    WroteGrows(s1, steps);
    TakeKeeps(Run(s1, steps));
    hide Inv;
  }

  lemma {:induction false} WroteGrows(s: Sys, steps: seq<Step>)
    requires ValidRun(s, steps)
    ensures s.wrote <= Run(s, steps).wrote
    decreases |steps|
  {
    if steps != [] { WroteGrows(Next(s, steps[0]), steps[1..]); }
  }

  /** A publication and a pop during which the device stands still. */
  lemma PushAlone(s: Sys, id: nat)
    requires Inv(s) && Enabled(s, Write(id))
    ensures WellFormed(s.q) && Enabled(Next(s, Write(id)), Publish)
    ensures Next(Next(s, Write(id)), Publish).q == PublishIndex(Completed(WriteSlot(s.q, id), []))
  {
    WriteKeeps(s, id);
    hide Inv;
  }

  lemma PopAlone(s: Sys)
    requires Inv(s) && s.phase.AtRest? && |s.reaped| < |s.wrote|
    ensures 0 < s.q.size == |s.q.usedRing| && Completed(s.q, []) == s.q && s.q.lastUsedIdx != s.q.usedIdx
    ensures Enabled(s, Look) && Next(s, Look) == s.(phase := Seen) && Inv(s.(phase := Seen))
  {
    InvWellFormed(s);
    LookKeeps(s);
    hide Inv;
  }

  // ---------------------------------------------------------------------------------------
  // A queue without free descriptors
  // ---------------------------------------------------------------------------------------

  lemma PendingBelowSize(s: Sys, j: nat)
    requires Inv(s) && |s.saw| <= j < |s.pushed|
    ensures s.pushed[j] < s.q.size
  {
    var pending := s.pushed[|s.saw|..];
    assert pending[j - |s.saw|] in pending;
  }

  lemma SendStaged(s: Sys, id: nat)
    requires Inv(s) && Enabled(s, Write(id))
    ensures exists s': Sys :: Inv(s') && s'.q == PushAvailable(s.q, id) && s'.dev == s.dev && s'.saw == s.saw
                              && s'.pushed == s.pushed + [id]
  {
    hide Inv;
    WriteKeeps(s, id);
    PublishKeeps(Next(s, Write(id)));
    assert Inv(Next(Next(s, Write(id)), Publish));
  }

  /** Adding and pushing, as every sender does, keeps some consistent bookkeeping possible if and
      only if a descriptor was free: on a full queue the sender publishes 0xFFFF. */
  lemma SendKeepsQueueIff(s: Sys, addr: nat, len: nat, flags: nat)
    requires Inv(s) && s.phase.AtRest?
    ensures WellFormed(s.q)
    ensures var r := AddDescriptor(s.q, addr, len, flags);
            (WellFormed(r.q) && exists s': Sys :: Inv(s') && s'.q == PushAvailable(r.q, r.head) && s'.dev == s.dev && s'.saw == s.saw
                                   && s'.pushed == s.pushed + [r.head])
            <==> s.q.numFree > 0
  {
    InvWellFormed(s);
    var r := AddDescriptor(s.q, addr, len, flags);
    if s.q.numFree > 0 {
      AddKeeps(s, addr, len, flags);
      var t := Next(s, Add(addr, len, flags));
      InvWellFormed(t);
      SendStaged(t, r.head);
    } else {
      forall s': Sys | Inv(s') && s'.q == PushAvailable(r.q, r.head) && s'.dev == s.dev && s'.saw == s.saw
                && s'.pushed == s.pushed + [r.head]
        ensures false
      {
        PendingBelowSize(s', |s.pushed|);
      }
    }
  }

  /** A sender that runs ahead of the device: descriptors `i` on are filled and published. */
  function SendAhead(i: nat, size: nat): seq<Step>
    requires i <= size
    decreases size - i
  {
    if i == size then [] else [Add(0, 0, 0), Write(i), Publish] + SendAhead(i + 1, size)
  }

  /** One sender's operation, run to its end. */
  ghost function SendOne(s: Sys, id: nat): Sys
    requires Enabled(s, Add(0, 0, 0)) && Enabled(Next(s, Add(0, 0, 0)), Write(id))
    requires Enabled(Next(Next(s, Add(0, 0, 0)), Write(id)), Publish)
  {
    Next(Next(Next(s, Add(0, 0, 0)), Write(id)), Publish)
  }

  lemma RunSend(s: Sys, id: nat, rest: seq<Step>)
    requires Enabled(s, Add(0, 0, 0)) && Enabled(Next(s, Add(0, 0, 0)), Write(id))
    requires Enabled(Next(Next(s, Add(0, 0, 0)), Write(id)), Publish) && ValidRun(SendOne(s, id), rest)
    ensures var steps := [Add(0, 0, 0), Write(id), Publish] + rest; ValidRun(s, steps) && Run(s, steps) == Run(SendOne(s, id), rest)
  {
    hide Next, WellFormed, ValidRun, Run;
    var s1 := Next(s, Add(0, 0, 0));
    RunStep(Next(s1, Write(id)), Publish, rest);
    RunStep(s1, Write(id), [Publish] + rest);
    RunStep(s, Add(0, 0, 0), [Write(id)] + ([Publish] + rest));
    assert [Add(0, 0, 0)] + ([Write(id)] + ([Publish] + rest)) == [Add(0, 0, 0), Write(id), Publish] + rest;
  }

  lemma RunStep(s: Sys, step: Step, rest: seq<Step>)
    requires Enabled(s, step) && ValidRun(Next(s, step), rest)
    ensures ValidRun(s, [step] + rest) && Run(s, [step] + rest) == Run(Next(s, step), rest)
  {
    assert ([step] + rest)[1..] == rest;
  }

  lemma {:induction false} SendAheadFills(s: Sys, i: nat)
    requires Inv(s) && s.phase.AtRest? && i <= s.q.size && s.free == Range(i, s.q.size)
    ensures ValidRun(s, SendAhead(i, s.q.size))
    ensures var s' := Run(s, SendAhead(i, s.q.size)); Inv(s') && s'.phase.AtRest? && s'.q.numFree == 0
    decreases s.q.size - i
  {
    hide Inv, Next, Enabled, ValidRun, Run, WellFormed, AddDescriptor, SendOne, Range, SendAhead;
    NumFree(s);
    SendAheadFirst(i, s.q.size);
    if i < s.q.size {
      RangeTail(i, s.q.size);
      SendOneKeeps(s);
      SendAheadFills(SendOne(s, i), i + 1);
      RunSend(s, i, SendAhead(i + 1, s.q.size));
    } else {
      RunNone(s);
    }
  }

  lemma NumFree(s: Sys)
    requires Inv(s)
    ensures s.q.numFree == |s.free|
  {
  }

  lemma SendAheadFirst(i: nat, size: nat)
    requires i <= size
    ensures SendAhead(i, size) == if i == size then [] else [Add(0, 0, 0), Write(i), Publish] + SendAhead(i + 1, size)
  {
  }

  lemma RunNone(s: Sys)
    ensures ValidRun(s, []) && Run(s, []) == s
  {
  }

  lemma SendOneKeeps(s: Sys)
    requires Inv(s) && s.phase.AtRest? && s.q.numFree != 0
    ensures s.free != [] && Enabled(s, Add(0, 0, 0)) && Enabled(Next(s, Add(0, 0, 0)), Write(s.free[0]))
    ensures Enabled(Next(Next(s, Add(0, 0, 0)), Write(s.free[0])), Publish)
    ensures var s' := SendOne(s, s.free[0]);
            Inv(s') && s'.phase.AtRest? && s'.free == s.free[1..] && s'.q.size == s.q.size
  {
    InvFacts(s);
    AddKeeps(s, 0, 0, 0);
    var s1 := Next(s, Add(0, 0, 0));
    InvFacts(s1);
    hide Inv, Next, AddDescriptor;
    WriteKeeps(s1, s.free[0]);
    PublishKeeps(Next(s1, Write(s.free[0])));
  }

  /** A full queue is reachable, for every queue size: `size` sends before the device consumes
      anything. The next send is answered by 0xFFFF and publishes it in the avail ring. */
  lemma FullQueueReachable(size: nat, mem: seq<Desc>, addr: nat, len: nat)
    requires QueueSize(size) && |mem| == size
    ensures ValidRun(Start(size, mem), SendAhead(0, size))
    ensures var s := Run(Start(size, mem), SendAhead(0, size));
            && Inv(s) && s.phase.AtRest? && s.q.numFree == 0 && WellFormed(s.q)
            && AddDescriptor(s.q, addr, len, 0) == Added(s.q, NONE)
            && PushAvailable(s.q, NONE).availRing[s.q.availIdx % s.q.size] == NONE
  {
    StartInv(size, mem);
    var s0 := Start(size, mem);
    SendAheadFills(s0, 0);
    InvFacts(Run(s0, SendAhead(0, size)));
    hide Inv, Run, ValidRun;
  }
}
