# Aether WebOS: a Dafny model of the kernel's memory, queue and network core

This project models the C kernel of Aether WebOS and proves what its subsystems promise each
other: that the heap never hands out memory twice, that the VirtIO queues lose and invent nothing,
that a transmit buffer is freed once and not before the device is done with it, that page tables
translate as intended, that TCP connections move only forward and number their bytes without gaps,
and that what one host sends another host running the same code receives.

Each imperative part of the kernel appears twice. The first form is a value and a step function,
about which the invariants, the whole-run theorems and the refinements are proved as lemmas. The
second form is a class or a method with the loops, pointers, arrays and in-place updates of the
source, proved to compute exactly that step function. Addresses, sizes and counters are unbounded
integers in Dafny; wherever the source's 16-, 32- or 64-bit arithmetic can wrap, the wrap is written
out.

| file | what it models |
|---|---|
| `Heap.dfy`, `KernelHeap.dfy` | the allocator as a value, and the intrusive header list in memory |
| `Ring.dfy`, `Virtqueue.dfy` | the split virtqueue with its device, and the driver's in-place code |
| `RxPath.dfy` | queue setup and polling on the receive side |
| `TxPath.dfy` | `ethernet_send`, the device, `net_tx_reaper` and the heap together |
| `PageTable.dfy`, `Ioremap.dfy`, `Mmu.dfy` | the hardware walk, the boot map, `ioremap`, PCIe configuration access |
| `Checksum.dfy`, `Wire.dfy` | both Internet checksums, TCP and IPv4 headers byte for byte |
| `Receiving.dfy` | which arbitrary bytes IPv4 and TCP accept, and what they take from them |
| `SendBuffer.dfy` | the heap block a segment is built in, and what is written into it |
| `Tcp.dfy`, `TcpAnswers.dfy`, `TcpTable.dfy` | one connection, its exact answers, the table |
| `TcpWire.dfy`, `TcpMemory.dfy`, `TcpServer.dfy` | what the table sends, the table in the heap, the code |
| `Ipv6Text.dfy`, `Format.dfy` | `print_ipv6`, decimal numerals and `ksnprintf` |
| `Machine.dfy`, `Arith.dfy`, `Bits.dfy`, `Bytes.dfy` | word sizes, division, bitwise OR, byte order |

## How the environment appears

- The VirtIO device may consume published buffers and complete held ones at any moment and in any
  order, but it returns only descriptors it holds. The steps of the driver end at its barriers: a
  publication is the slot store and the index store, a pop is the look at the used index and the
  reading of the receipt, and the device may move any number of times between the two. Filling a
  descriptor is one step, because the device cannot see it before it is published, and so is a
  completion, whose two stores the device orders itself. The doorbell is not modelled. Queue sizes are
  those of section 2.4 of VIRTIO 1.0, and ring memory is zero at start.
- `kmalloc` failures inside the TCP path are inputs (`mem`, `addr`); `TcpMemory` then takes the
  control blocks from the real heap model. The initial sequence number is an arbitrary 32-bit number.
- C strings are sequences without their terminator. Little-endian loads and stores are written out.

## Where the code does not do what one would expect

- A request so large that 64-bit arithmetic wraps corrupts the heap, unless it is refused anyway;
  `Heap.SoundIff` gives the exact condition for every heap and request, and `Heap.WrapWitness` one
  request that breaks the empty heap.
- `ethernet_send` on a queue without free descriptors publishes descriptor 0xFFFF.
  `Ring.SendKeepsQueueIff` shows that a free descriptor is exactly what is needed, and
  `Ring.FullQueueReachable` gives a run, for every queue size, after which none is free.
- `ioremap` does not check its range against the 40-bit output addresses that `mmu_init` configures;
  `Ioremap.RemapCorrectIff` shows that this is exactly when the new mapping goes wrong, and
  `Ioremap.BadRemapWitness` gives a request that is granted and wrong. A size within 2 GB of
  2^64 moves the address space pointer back: `Ioremap.RemapKeepsEarlierIff` gives the exact
  condition, and in `Ioremap.RollbackDestroys` a later call overwrites an earlier mapping.
- The ECAM window covers 128 buses while the address formation accepts 256;
  `Pcie.ConfigReachesController` gives the exact condition, and `Pcie.BusBeyondWindow` the memory
  that bus 128 reaches.
- The ring memory holds queues of at most 629 entries, and the size reported by the device is not
  checked against that: `RingLayout.LayoutFitsIff`, with 1024 entries in
  `RingLayout.LayoutOverrunWitness`.
- The static array has 256 receive buffers, and the size reported by the device is not checked against
  that either: `RxPath.BuffersInArrayIff`, with 512 entries, which the ring memory holds, in
  `RxPath.BeyondArrayWitness`.
- The prefill loop of queue setup has no barrier between the slot store and the index store; the models
  keep the two in program order. `Ring.IndexFirstReadsStale` shows what the device may read otherwise.
- `virtio_net_poll` skips a 12-byte header but subtracts the 10 bytes of its own structure, so a frame
  ends two bytes past what the device wrote, and past its buffer from 2047 bytes on: `RxPath.Poll`
  and `RxPath.FrameOverrunWitness`.
- A segment with more than 65495 bytes of payload does not arrive, because the IPv4 length field
  wraps: `Wire.FullStackRoundTrip` and `Wire.LostPayload`. Above 65515 bytes `tcp_send_segment` wraps
  its own 16-bit length first, asks the heap for a buffer of less than 20 bytes, and writes the header
  and the whole payload through it: by `SendBuffer.SafeLengthIff` a length is safe on every heap exactly
  up to 65515, `SendBuffer.HoldsIff` decides every single heap, and `SendBuffer.OverrunWitness` gives
  the first length that overruns its buffer.
- `tcp_send_segment` counts a segment with both SYN and FIN as one number; the kernel sends none.
  `TcpConnection.SendKeeps` gives the exact condition under which the numbering stays in order.
- A FIN that comes with data is acknowledged as if the data were not there, after the data has been
  acknowledged, and the connection is closed twice, with two FINs: `TcpAnswers.RequestWithFin`.
  `TcpAnswers.FinNumberIff` shows that the final number is right exactly when there is no data.
- The comment in `tcp_output.c` says that the reaper frees the segment buffer. It does not: IPv4 copies
  the segment, and the buffer is never freed. The models treat it as staying allocated.

## Model

| member | source | states |
|---|---|---|
| Heap.TilesDescend | AetherWebOS/src/kernel/memory.c:48-54 | the block list runs strictly downwards in memory, without overlap |
| Heap.TilesRange | AetherWebOS/src/kernel/memory.c:43-54 | every block lies between the heap start and the bump pointer |
| Heap.TilesFootprint | AetherWebOS/src/kernel/memory.c:42-54 | headers and payloads account for every byte below the bump pointer |
| Heap.LiveDisjoint | AetherWebOS/src/kernel/memory.c:26-58 | two payloads in use never overlap |
| Heap.LiveInHeap | AetherWebOS/src/kernel/memory.c:26-58 | a payload in use lies in the heap and clear of every header |
| Heap.FirstFitSpec | AetherWebOS/src/kernel/memory.c:31-39 | the search returns the first free block that is large enough, or none |
| Heap.FirstIsHighest | AetherWebOS/src/kernel/memory.c:31-39 | the first block found is the highest free block in memory that fits |
| Heap.AllocRefines | AetherWebOS/src/kernel/memory.c:26-58 | `kmalloc` refines an allocator on a map: highest fit, growth only when none fits, NULL exactly when neither is possible |
| Heap.AllocOwnership | AetherWebOS/src/kernel/memory.c:26-58 | a successful call returns unused memory of sufficient size and takes nothing from any holder; a failed call changes nothing |
| Heap.AllocDisjointFromLive | AetherWebOS/src/kernel/memory.c:26-58 | memory handed out overlaps no memory in use |
| Heap.AllocAligned | AetherWebOS/src/kernel/memory.c:27-28 | headers and payloads stay 8-aligned |
| Heap.ReleaseOwnership | AetherWebOS/src/kernel/memory.c:60-71 | `kfree` gives back exactly the payload it was given |
| Heap.RunInvariant | AetherWebOS/src/kernel/memory.c:26-71 | after any valid run of calls the blocks tile the heap, aligned, and conserve its bytes |
| Heap.HeldUntilFreed | AetherWebOS/src/kernel/memory.c:26-71 | a payload keeps its place and size through any run that does not free it |
| Heap.SoundIff | AetherWebOS/src/kernel/memory.c:28-46 | for every heap and every 64-bit request an allocation is sound if and only if its additions do not wrap or it is refused anyway, which is spelled out in terms of heap and size |
| Heap.WrapWitness | AetherWebOS/src/kernel/memory.c:28-54 | a concrete request that breaks the heap |
| KernelHeap.KernelHeap.Kmalloc | AetherWebOS/src/kernel/memory.c:26-58 | for every 64-bit request the pointer walk and the bump compute exactly the modelled allocation and keep the header list; the heap stays tiled unless an addition wraps |
| KernelHeap.KernelHeap.Kfree | AetherWebOS/src/kernel/memory.c:60-71 | the flag write computes exactly the modelled release |
| RingIndex.SlotOfCounter | AetherWebOS/src/drivers/virtio/virtio_ring.c:98 | a wrapping 16-bit counter selects the slot of the unbounded counter |
| RingIndex.SlotsAgreeIff | AetherWebOS/src/drivers/virtio/virtio_ring.c:98-107 | that is so exactly for queue sizes dividing 65536 |
| RingLayout.LayoutFitsIff | AetherWebOS/src/drivers/virtio/virtio_ring.c:42-52 | the three parts are ordered, disjoint and aligned, and fit the ring memory iff there are at most 629 entries |
| Ring.StartInv | AetherWebOS/src/drivers/virtio/virtio_ring.c:54-62 | initialisation links all descriptors into an acyclic free list ending in 0xFFFF |
| Ring.AddKeeps | AetherWebOS/src/drivers/virtio/virtio_ring.c:68-85 | taking a descriptor moves the head of the free list and fills it, and keeps the invariant |
| Ring.PushPartition | AetherWebOS/src/drivers/virtio/virtio_ring.c:95-107 | there is room for the published id, and afterwards published, free and returned descriptors are still told apart |
| Ring.WindowWrite | AetherWebOS/src/drivers/virtio/virtio_ring.c:95-107 | the slot selected by the wrapping counter is the one behind the published entries, and writing it overwrites no entry the other side has not read |
| Ring.WriteKeeps | AetherWebOS/src/drivers/virtio/virtio_ring.c:95-98 | the slot store keeps the invariant and changes nothing the device can see |
| Ring.PublishKeeps | AetherWebOS/src/drivers/virtio/virtio_ring.c:104-107 | whatever the device did at the barrier, the index store appends the staged descriptor to the FIFO and keeps the invariant |
| Ring.StagedIsInvisible | AetherWebOS/src/drivers/virtio/virtio_ring.c:98-107 | between the two stores the device never reads the descriptor being published |
| Ring.IndexFirstReadsStale | AetherWebOS/src/drivers/virtio/virtio_ring.c:98-107 | with the two stores exchanged, a concrete run lets the device read a descriptor that the driver still holds |
| Ring.TakeKeeps | AetherWebOS/src/drivers/virtio/virtio_ring.c:177-204 | whatever the device did since the look, the receipt read is the oldest unread one, and its descriptor is recycled |
| Ring.LookKeeps | AetherWebOS/src/drivers/virtio/virtio_ring.c:168-174 | the used index has moved exactly when a receipt is unread |
| Ring.PushAcrossBarrier | AetherWebOS/src/drivers/virtio/virtio_ring.c:91-107 | a publication with any device moves at its barrier keeps the invariant, appends its descriptor and leaves slot store, receipts and index store in memory |
| Ring.PopAcrossBarrier | AetherWebOS/src/drivers/virtio/virtio_ring.c:168-204 | a pop with any device moves at its barrier takes the receipt that was oldest before |
| Ring.StepKeeps | AetherWebOS/src/drivers/virtio/virtio_ring.c:68-204 | every step of driver or device, also between the two halves of a publication or a pop, keeps the invariant |
| Ring.RingsAreFifo | AetherWebOS/src/drivers/virtio/virtio_ring.c:37-204 | in every run, with the device moving between any two of these steps, each side has read exactly a prefix of what the other wrote, across any number of wraps |
| Ring.ExactlyOneOwner | AetherWebOS/src/drivers/virtio/virtio_ring.c:68-204 | each descriptor is in exactly one place, once |
| Ring.SendKeepsQueueIff | AetherWebOS/src/drivers/virtio/virtio_ring.c:68-117 | add-and-publish keeps the queue consistent if and only if a descriptor was free |
| Ring.FullQueueReachable | AetherWebOS/src/drivers/virtio/virtio_ring.c:68-117 | for every queue size, as many sends as it has descriptors leave none, and the next one publishes 0xFFFF |
| Virtqueue.Virtqueue.constructor | AetherWebOS/src/drivers/virtio/virtio_ring.c:37-63 | the linking loop builds the modelled initial queue |
| Virtqueue.Virtqueue.Add | AetherWebOS/src/drivers/virtio/virtio_ring.c:68-85 | in-place code computes the modelled step, 0xFFFF when nothing is free |
| Virtqueue.Virtqueue.Push | AetherWebOS/src/drivers/virtio/virtio_ring.c:91-107 | the in-place code makes the slot store visible before the barrier and the index store only after it, whatever the device returns in between |
| Virtqueue.Virtqueue.Pop | AetherWebOS/src/drivers/virtio/virtio_ring.c:168-204 | -1 when nothing is new; otherwise the in-place code reads the receipt after the barrier and recycles its descriptor, whatever the device returns in between |
| RxPath.FillAdd | AetherWebOS/src/drivers/virtio/virtio_net.c:155-162 | setup gives buffer i to descriptor i |
| RxPath.PollPops | AetherWebOS/src/drivers/virtio/virtio_net.c:215-223 | a poll takes the descriptor named by the oldest unread receipt, also when more arrive between its look and its read |
| RxPath.RefillGetsSameDescriptor | AetherWebOS/src/drivers/virtio/virtio_net.c:255-261 | a refill never finds the queue exhausted and gets back the descriptor just popped |
| RxPath.StepKeepsPairing | AetherWebOS/src/drivers/virtio/virtio_net.c:155-264 | every driver or device step, also at the barriers, keeps descriptor and buffer paired |
| RxPath.BetweenPolls | AetherWebOS/src/drivers/virtio/virtio_net.c:155-264 | in every interleaving, between polls no descriptor is free and each one is published, held or returned, with its own buffer |
| RxPath.BuffersInArrayIff | AetherWebOS/src/drivers/virtio/virtio_net.c:139-162 | between polls every buffer given to the device lies in the static array if and only if the queue has at most 256 entries |
| RxPath.BeyondArrayWitness | AetherWebOS/src/drivers/virtio/virtio_net.c:139-162 | with 512 entries, which fit the ring memory, a buffer starts where the array ends |
| RxPath.Prefill | AetherWebOS/src/drivers/virtio/virtio_net.c:155-167 | the prefill loop publishes all buffers in order |
| RxPath.Poll | AetherWebOS/src/drivers/virtio/virtio_net.c:207-264 | a poll hands out the frame in the buffer of the oldest receipt, with its start and end, and publishes the descriptor again |
| TxPath.SendKeeps | AetherWebOS/src/drivers/ethernet/ethernet.c:21-26 | allocating a frame keeps all ownership facts |
| TxPath.PublishStepKeeps | AetherWebOS/src/drivers/virtio/virtio_ring.c:91-107 | either half of a publication keeps all ownership facts |
| TxPath.TakeStepKeeps | AetherWebOS/src/drivers/virtio/virtio_net.c:277-280 | the reaper takes back the frame carried by the descriptor of the oldest receipt |
| TxPath.FreeKeeps | AetherWebOS/src/drivers/virtio/virtio_net.c:279-286 | the reaper frees a live buffer, for the first time, that is nobody else's |
| TxPath.StepKeepsInv | AetherWebOS/src/drivers/virtio/virtio_net.c:271-297 | every step of sender, reaper, device and other heap users, also at the barriers, keeps the ownership invariant |
| TxPath.FreedExactlyOnce | AetherWebOS/src/drivers/ethernet/ethernet.c:16-51 | in every run no frame is freed twice, none is freed while on a descriptor, and all are freed once the queue drains |
| TxPath.NothingOverlapsFrames | AetherWebOS/src/drivers/ethernet/ethernet.c:24-50 | until a frame is freed, no allocation overlaps it |
| TxPath.EthernetSend | AetherWebOS/src/drivers/ethernet/ethernet.c:16-51 | the send code performs the modelled steps and puts the buffer on the next free descriptor |
| TxPath.NetTxReaper | AetherWebOS/src/drivers/virtio/virtio_net.c:271-297 | with the device still, the loop reaps every receipt and frees exactly the frames awaiting it |
| PageTable.WalkWired | AetherWebOS/arch/aarch64/mmu.c:67-94 | with the boot wiring, every address outside the pool translates by the boot map, whatever the pool holds |
| PageTable.WalkPool | AetherWebOS/arch/aarch64/mmu.c:91-94 | a pool address is decided by its own level-3 entry |
| PageTable.BootMapExact | AetherWebOS/arch/aarch64/mmu.c:55-94 | after boot: identity below 2 GB, the PCIe controller in the ECAM window, faults elsewhere |
| Ioremap.MapPagesSlots | AetherWebOS/arch/aarch64/mmu.c:35-53 | mapping n pages, at any physical address, writes exactly n pool entries, each with its own page |
| Ioremap.WalkAfterMap | AetherWebOS/arch/aarch64/mmu.c:35-53 | for every address: inside the range the walk reaches its own byte if the range ends within 2^40, outside it is as before whatever was mapped |
| Ioremap.RemapCorrect | AetherWebOS/src/kernel/memory.c:78-123 | for every 64-bit request that does not wrap the pointer: NULL exactly for size 0 or a short pool, nothing outside the new range changes, and every byte of a range within 2^40 translates to its physical address |
| Ioremap.VmallocReserves | AetherWebOS/src/kernel/memory.c:78-90 | short of wrap-around `vmalloc` fails exactly when the pool has too few pages, and otherwise returns unused, aligned pages covering the size |
| Ioremap.RemapCorrectIff | AetherWebOS/src/kernel/memory.c:98-123 | a granted mapping is right if and only if it ends within the 40-bit physical space |
| Ioremap.BadRemapWitness | AetherWebOS/src/kernel/memory.c:98-123 | a one-byte request behind the 40-bit space is granted and does not translate |
| Ioremap.RemapKeepsEarlierIff | AetherWebOS/src/kernel/memory.c:78-123 | for every 64-bit request: address space and earlier translations are kept if and only if the pointer does not wrap |
| Ioremap.RollbackDestroys | AetherWebOS/src/kernel/memory.c:78-123 | a wrapping request makes the next one overwrite the page mapped last |
| Ioremap.MappingsSurvive | AetherWebOS/src/kernel/memory.c:78-123 | after any sequence of 64-bit requests, granted or not, none of which wraps the pointer, every mapping granted within 2^40 still translates |
| Mmu.Mmu.Init | AetherWebOS/arch/aarch64/mmu.c:55-94 | the boot loops build tables whose walk is the boot map |
| Mmu.Mmu.FillPeripherals | AetherWebOS/arch/aarch64/mmu.c:72-75 | the first loop writes the identity blocks of the first gigabyte only |
| Mmu.Mmu.FillRam | AetherWebOS/arch/aarch64/mmu.c:78-89 | the second loop writes the RAM and ECAM blocks only |
| Mmu.Mmu.MapRegion | AetherWebOS/arch/aarch64/mmu.c:35-53 | the mapping loop computes the modelled mapping |
| Mmu.Mmu.Reserve | AetherWebOS/src/kernel/memory.c:78-90 | `vmalloc` in place: short of wrap-around it fails exactly when the pool is short, and otherwise returns aligned pages between the old and the new pointer |
| Mmu.Mmu.Remap | AetherWebOS/src/kernel/memory.c:98-123 | `ioremap` computes the modelled step |
| Pcie.ConfigOffsetIs | AetherWebOS/src/drivers/pcie.c:31 | the ORed fields of an offset do not collide |
| Pcie.ConfigReachesController | AetherWebOS/src/drivers/pcie.c:30-36 | an access reaches the controller's register if and only if the bus is below 128 |
| Pcie.BusBeyondWindow | AetherWebOS/src/drivers/pcie.c:30-36 | bus 128 reaches the memory at 0x78000000 |
| Pcie.ConfigInjective | AetherWebOS/src/drivers/pcie.c:30-36 | on all 256 buses, different bus, device, function or word reach different physical addresses through the page tables |
| Checksum.FoldIsOnesComplement | AetherWebOS/src/drivers/ethernet/tcp/tcp_checksum.c:30-35 | folding terminates and preserves the sum modulo 65535 |
| Checksum.SumBounds | AetherWebOS/src/drivers/ethernet/ipv4.c:24-32 | the bound that keeps 32-bit accumulators from overflowing |
| Checksum.ByteOrderIndependent | AetherWebOS/src/drivers/ethernet/ipv4.c:19-38 | the two checksums agree up to a byte swap on every byte string (RFC 1071, section 2(B)) |
| Checksum.ValidIff | AetherWebOS/src/drivers/ethernet/tcp/tcp_checksum.c:68-79 | a segment validates exactly when its sum is a multiple of 65535 |
| Checksum.SealedValidates | AetherWebOS/src/drivers/ethernet/tcp/tcp_checksum.c:40-79 | storing the checksum computed over a zeroed field makes the segment validate |
| Checksum.WordChangeDetected | AetherWebOS/src/drivers/ethernet/tcp/tcp_checksum.c:10-79 | changing one aligned word is detected, except 0x0000 against 0xFFFF |
| Checksum.AddressesCovered | AetherWebOS/src/drivers/ethernet/tcp/tcp_checksum.c:44-54 | other addresses validate exactly when their halves add up alike modulo 65535 |
| Checksum.SumWithPseudoHeader | AetherWebOS/src/drivers/ethernet/tcp/tcp_checksum.c:40-61 | the sum is that of the twelve pseudo-header bytes, addresses, zero, protocol 6 and the length high byte first, followed by the segment |
| Checksum.LengthCovered | AetherWebOS/src/drivers/ethernet/tcp/tcp_checksum.c:50-58 | a valid segment with zero bytes appended, up to 65534 of them, is not valid |
| Checksum.Accumulate | AetherWebOS/src/drivers/ethernet/tcp/tcp_checksum.c:10-25 | the loop computes the little-endian sum without overflow |
| Checksum.FinalizeLoop | AetherWebOS/src/drivers/ethernet/tcp/tcp_checksum.c:30-35 | the loop computes the complement of the folded sum |
| Checksum.Ipv4ChecksumLoop | AetherWebOS/src/drivers/ethernet/ipv4.c:19-38 | for every length the loop computes the checksum of the sum modulo 2^32, which is the checksum itself when the sum fits 32 bits, as it does up to 131074 bytes |
| Checksum.TcpComputeLoop | AetherWebOS/src/drivers/ethernet/tcp/tcp_checksum.c:40-61 | pseudo-header and segment are summed without overflow, to the checksum that `Checksum.SumWithPseudoHeader` gives in bytes |
| Wire.TcpHeaderLayout | AetherWebOS/src/drivers/ethernet/tcp/tcp_output.c:32-47 | the header has the RFC 793 layout in network byte order |
| Wire.IpHeaderLayout | AetherWebOS/src/drivers/ethernet/ipv4.c:138-148 | the header has the RFC 791 layout in network byte order, with a zero checksum field |
| Wire.IpPacketLayout | AetherWebOS/src/drivers/ethernet/ipv4.c:136-156 | the packet is that header, its checksum low byte first in bytes 10 and 11, and the payload |
| Wire.TcpRoundTrip | AetherWebOS/src/drivers/ethernet/tcp/tcp_input.c:19-41 | a segment built without options passes the checks and yields the same fields and payload if and only if the 16-bit length did not wrap |
| Wire.IpRoundTripIff | AetherWebOS/src/drivers/ethernet/ipv4.c:44-113 | for every payload, padded or not: the addressee gets as many bytes as the wrapped length field speaks of, or nothing when that is less than a header, so the whole payload exactly when its length fits; nobody else gets anything |
| Wire.FullStackRoundTrip | AetherWebOS/src/drivers/ethernet/tcp/tcp_output.c:17-58 | for every payload length the sender accepts, the whole path preserves addresses, ports, numbers, flags and payload if and only if the payload is at most 65495 bytes |
| Wire.LostPayload | AetherWebOS/src/drivers/ethernet/tcp/tcp_output.c:17-58 | a payload of 65496 zeroes does not arrive |
| SendBuffer.HandedOut | AetherWebOS/src/kernel/memory.c:26-58 | the block handed out is as large as the free block reused, or as the rounded request |
| SendBuffer.HoldsIff | AetherWebOS/src/drivers/ethernet/tcp/tcp_output.c:21-52 | for every heap and every payload length granted a buffer: the buffer holds header and payload if and only if the payload is at most 65515 bytes or a larger block is reused |
| SendBuffer.SafeLengthIff | AetherWebOS/src/drivers/ethernet/tcp/tcp_output.c:21-52 | a payload length is safe on every heap that grants a buffer if and only if it is at most 65515 |
| SendBuffer.OverrunWitness | AetherWebOS/src/drivers/ethernet/tcp/tcp_output.c:21-52 | on the empty heap a payload of 65516 bytes is copied behind a block of no bytes |
| Wire.FillTcp | AetherWebOS/src/drivers/ethernet/tcp/tcp_output.c:30-55 | for every 16-bit payload length the field writes build the modelled segment, and exactly header and payload are written |
| Wire.FillIp | AetherWebOS/src/drivers/ethernet/ipv4.c:136-156 | the field writes build the modelled packet |
| Wire.HandlePacket | AetherWebOS/src/drivers/ethernet/ipv4.c:44-113 | the handler decides as modelled, which `Receiving.DeliverIff` states on the bytes, and leaves the packet as it was |
| Receiving.DeliverIff | AetherWebOS/src/drivers/ethernet/ipv4.c:44-90 | a packet is delivered exactly if version, header length, total length, address and header checksum are right, and of it protocol, source and the bytes behind header and options |
| Receiving.AddsUpAfterPut | AetherWebOS/src/drivers/ethernet/ipv4.c:63-74 | the header checksum after one aligned word was replaced: exactly when it still holds |
| Receiving.HeaderDamageDropped | AetherWebOS/src/drivers/ethernet/ipv4.c:63-74 | a delivered packet with one header word replaced is dropped, unless the word is the same or 0x0000 and 0xFFFF were exchanged outside the checksum field |
| Receiving.AcceptIff | AetherWebOS/src/drivers/ethernet/tcp/tcp_input.c:17-41 | a segment is accepted exactly if its data offset is at least five words and within it and pseudo-header and segment add up, with its header fields and what lies behind header and options |
| Receiving.BadOffsetRejected | AetherWebOS/src/drivers/ethernet/tcp/tcp_input.c:31-33 | a data offset below five words or beyond the segment is rejected |
| Receiving.OptionsRoundTrip | AetherWebOS/src/drivers/ethernet/tcp/tcp_input.c:30-41 | a sealed segment with up to ten words of options parses as its fields and exactly its payload |
| Receiving.OtherProtocolsIgnored | AetherWebOS/src/drivers/ethernet/ipv4.c:92-112 | packets of other protocols reach no connection |
| TcpConnection.SendKeeps | AetherWebOS/src/drivers/ethernet/tcp/tcp_output.c:17-69 | a segment starts where the earlier ones ended and `snd_nxt` moves by its sequence space, if and only if it was not granted or has not both SYN and FIN and at most 65495 bytes; nothing else changes |
| TcpConnection.CloseKeeps | AetherWebOS/src/drivers/ethernet/tcp/tcp.c:109-118 | closing moves to LAST_ACK from ESTABLISHED and CLOSE_WAIT only |
| TcpConnection.DispatchKeeps | AetherWebOS/src/drivers/ethernet/socket.c:95-99 | the application sees the payload once and the connection is closing |
| TcpConnection.OpenOk | AetherWebOS/src/drivers/ethernet/tcp/tcp_input.c:51-66 | a new connection satisfies the invariant from its first segment |
| TcpConnection.AdvanceKeeps | AetherWebOS/src/drivers/ethernet/tcp/tcp_input.c:75-126 | every segment keeps a connection in one of three states and moves it forward; removal only from LAST_ACK on an ACK |
| TcpConnection.OneRequest | AetherWebOS/src/drivers/ethernet/tcp/tcp_input.c:47-118 | the complete exchange: four segments sent with exact numbers, one delivery, then removal |
| TcpAnswers.ControlBits | AetherWebOS/src/drivers/ethernet/tcp/tcp_input.c:52-121 | the flag tests read exactly the bit they name |
| TcpAnswers.EstablishedIff | AetherWebOS/src/drivers/ethernet/tcp/tcp_input.c:77-83 | SYN_RECEIVED becomes ESTABLISHED if and only if the segment carries ACK; otherwise nothing changes |
| TcpConnection.DataAnswered | AetherWebOS/src/drivers/ethernet/tcp/tcp_input.c:85-99 | data in order, whatever memory there is: one delivery and the exact segments, numbers and state |
| TcpAnswers.Ignored | AetherWebOS/src/drivers/ethernet/tcp/tcp_input.c:85-110 | neither data in order nor a FIN: nothing changes |
| TcpAnswers.FinAnswered | AetherWebOS/src/drivers/ethernet/tcp/tcp_input.c:101-110 | a FIN without data in order, whatever memory there is: an acknowledgement of the number behind it, a FIN with the same acknowledgement, LAST_ACK |
| TcpAnswers.RequestWithFin | AetherWebOS/src/drivers/ethernet/tcp/tcp_input.c:85-110 | data with a FIN: the exact five segments, with a second FIN and an acknowledgement that goes back |
| TcpAnswers.FinNumberIff | AetherWebOS/src/drivers/ethernet/tcp/tcp_input.c:101-103 | the number acknowledged at the end covers data and FIN if and only if there is no data |
| TcpAnswers.RemovedIff | AetherWebOS/src/drivers/ethernet/tcp/tcp_input.c:112-118 | LAST_ACK ends on an ACK only; anything else is ignored |
| TcpConnection.DataSent | AetherWebOS/src/drivers/ethernet/tcp/tcp.c:99-107 | data is sent in ESTABLISHED only, as one segment at the next number |
| TcpConnection.CloseSent | AetherWebOS/src/drivers/ethernet/tcp/tcp.c:109-118 | the FIN is sent in ESTABLISHED and CLOSE_WAIT only, at the next number |
| TcpConnection.SentIsAccepted | AetherWebOS/src/drivers/ethernet/tcp/tcp_output.c:17-69 | whatever a connection at an address has sent, a peer running the same code accepts from the packet IPv4 builds with that source address |
| TcpTable.FindIsLookup | AetherWebOS/src/drivers/ethernet/tcp/tcp.c:78-93 | the list search agrees with the map lookup, hit or miss |
| TcpTable.FoundIff | AetherWebOS/src/drivers/ethernet/tcp/tcp.c:78-93 | the search finds the first connection with the same two addresses and two ports |
| TcpTable.PassiveOpen | AetherWebOS/src/drivers/ethernet/tcp/tcp_input.c:51-66 | a SYN to port 80 for no connection: the exact new control block, SYN-ACK and next initial sequence number |
| TcpTable.IsnCounts | AetherWebOS/src/drivers/ethernet/tcp/tcp_input.c:63 | after any run the initial sequence number has moved by 1000 for each connection opened |
| TcpTable.InputKeeps | AetherWebOS/src/drivers/ethernet/tcp/tcp_input.c:43-126 | a segment keeps the table free of duplicate addresses and keys and every connection in order |
| TcpTable.InputRefines | AetherWebOS/src/drivers/ethernet/tcp/tcp_input.c:43-126 | the list refines a map by 4-tuple: one segment adds, changes or removes the entry of its key |
| TcpTable.OthersUntouched | AetherWebOS/src/drivers/ethernet/tcp/tcp_input.c:43-126 | all other connections are unchanged |
| TcpTable.StrangerIsReset | AetherWebOS/src/drivers/ethernet/tcp/tcp_input.c:67-70 | a segment for no connection is answered by one reset |
| TcpTable.ResetAccepted | AetherWebOS/src/drivers/ethernet/tcp/tcp_output.c:91-106 | the sender accepts the reset |
| TcpTable.BytesActAsSegment | AetherWebOS/src/drivers/ethernet/tcp/tcp_input.c:17-41 | intact bytes act as the segment they encode, bytes whose length wrapped and damaged bytes not at all |
| TcpTable.AnyRun | AetherWebOS/src/drivers/ethernet/tcp/tcp_input.c:43-126 | after any run: three states, distinct keys, at most one delivery at the peer's ISN + 1, contiguous sequence numbers |
| TcpTable.MovesForward | AetherWebOS/src/drivers/ethernet/tcp/tcp_input.c:43-126 | over any run each connection stays listed at its address under its key, in the same or a later state, its sent and delivered logs extended, or was closed on the way with such logs |
| TcpWire.StepConserves | AetherWebOS/src/drivers/ethernet/tcp/tcp_input.c:43-126 | one arrival adds to all logs and resets exactly the segments it hands to IPv4 |
| TcpWire.WireFromBoot | AetherWebOS/src/drivers/ethernet/tcp/tcp_input.c:43-126 | over any run the segments handed to IPv4 are exactly those in the logs of all connections there ever were and the resets, with multiplicity |
| TcpWire.WireArrives | AetherWebOS/src/drivers/ethernet/ipv4.c:147 | in any run of segments delivered to an address, everything handed to IPv4 comes from that address and is accepted, field by field, by its addressee |
| TcpMemory.ControlBlocksAreSafe | AetherWebOS/src/drivers/ethernet/tcp/tcp.c:32-72 | in every run listed control blocks are held by the table alone and overlap no other live memory |
| TcpMemory.NothingLeaks | AetherWebOS/src/drivers/ethernet/tcp/tcp.c:54-72 | after any run the live payloads are exactly the listed control blocks and what the rest of the kernel holds |
| TcpMemory.StepKeeps | AetherWebOS/src/drivers/ethernet/tcp/tcp_input.c:51-118 | segments and other heap use keep table and heap in agreement |
| TcpServer.LinkedRemove | AetherWebOS/src/drivers/ethernet/tcp/tcp.c:60-71 | unlinking removes exactly one entry from the chain |
| TcpServer.TcpServer.FindTcb | AetherWebOS/src/drivers/ethernet/tcp/tcp.c:78-93 | the pointer walk finds the modelled entry |
| TcpServer.TcpServer.RemoveTcb | AetherWebOS/src/drivers/ethernet/tcp/tcp.c:54-72 | the trailing-pointer walk unlinks and frees exactly the given block |
| TcpServer.TcpServer.SendSegment | AetherWebOS/src/drivers/ethernet/tcp/tcp_output.c:17-69 | updates the block in place, as modelled, and hands over exactly what is new in its log |
| TcpServer.TcpServer.SendPayload | AetherWebOS/src/drivers/ethernet/tcp/tcp.c:99-107 | sends only when ESTABLISHED; exactly what is new in the log is handed to IPv4 |
| TcpServer.TcpServer.CloseTcb | AetherWebOS/src/drivers/ethernet/tcp/tcp.c:109-118 | computes the modelled close; exactly what is new in the log is handed to IPv4 |
| TcpServer.TcpServer.DispatchPayload | AetherWebOS/src/drivers/ethernet/socket.c:47-100 | computes the modelled dispatch; exactly what is new in the log is handed to IPv4 |
| TcpServer.TcpServer.OpenTcb | AetherWebOS/src/drivers/ethernet/tcp/tcp_input.c:51-66 | links a new block at the head and hands over exactly its SYN-ACK |
| TcpServer.TcpServer.InputSegment | AetherWebOS/src/drivers/ethernet/tcp/tcp_input.c:43-127 | the switch computes the modelled step and hands over exactly the segments it emits; its default branch is unreachable and no freed block is accessed |
| Ipv6Text.PrintReadsBack | AetherWebOS/src/drivers/ethernet/ipv6.c:37-50 | the printed text reads back as the same words (RFC 4291, section 2.2) |
| Ipv6Text.FindLongest | AetherWebOS/src/drivers/ethernet/ipv6.c:19-33 | the nested loops find the first longest zero run |
| Ipv6Text.Emit | AetherWebOS/src/drivers/ethernet/ipv6.c:37-50 | the loop emits the modelled text |
| Ipv6Text.PrintIpv6 | AetherWebOS/src/drivers/ethernet/ipv6.c:13-51 | compresses the first longest run of at least two words, joins the other groups by single colons, and reads back as the sixteen bytes |
| Format.DigitsReadBack | AetherWebOS/src/common/utils.c:133-154 | numerals read back and have no leading zero |
| Format.DigitsFit | AetherWebOS/src/common/utils.c:135-146 | a 32-bit number has at most ten digits, within the scratch buffer |
| Format.UtoaDec | AetherWebOS/src/common/utils.c:133-154 | collecting and reversing yields the numeral |
| Format.SignedReadsBack | AetherWebOS/src/common/utils.c:193-211 | a minus sign exactly for negative numbers, and a magnitude that reads back |
| Format.ExpandPieces | AetherWebOS/src/common/utils.c:173-219 | a character expands to itself, each directive to its argument, an unknown one to nothing |
| Format.ExpandAppend | AetherWebOS/src/common/utils.c:173-219 | two formats in a row expand to their expansions in a row, arguments taken from left to right |
| Format.PutSigned | AetherWebOS/src/common/utils.c:193-211 | sign and magnitude, as far as they fit |
| Format.FormatInto | AetherWebOS/src/common/utils.c:173-221 | the loop writes a prefix of the ideal expansion |
| Format.Ksnprintf | AetherWebOS/src/common/utils.c:159-228 | writes exactly the first out_size-1 characters of the ideal expansion and a terminator, touches nothing else, returns the length |

## Left out

- Hardware access: UART, interrupt controller, timer, PSCI, cache maintenance, barriers, doorbells, xHCI, boot and vector code.
- The VirtIO feature and status handshake.
- Memory attributes of page table entries; only address translation, entry types and the access flag are modelled.
- Conformance of checksums with other stacks: the TCP pseudo-header is summed in host order and the IPv4 checksum is stored without a swap, so the proofs are about hosts running this code.
- Acceptability of acknowledgements and the order of `snd_una` and `snd_nxt`: the code stores the acknowledged number unchecked.
- Telemetry counters, `get_heap_usage`, dashboards, key handling, the ARP cache and the ARP, UDP and ICMP handlers.
- The text of the HTTP response in `socket_dispatch`, which is a constant; the models take it as a parameter of at most 65495 bytes.
- `ltoa`, `str_append_kv_int` and the other string helpers, which repeat the decimal loop of `utoa_dec`.
- RxPath.Prefill: the code runs with the device still; its moves between the statements are steps of the model, and at the barriers they are parameters of `Virtqueue.Push` and `Virtqueue.Pop`.
- RxPath.Poll: as code likewise with the device still; what `ethernet_handle_packet` does with the frame is not part of it; `Wire.HandlePacket` and `TcpTable.BytesActAsSegment` take IPv4 and TCP up separately.
- TxPath.EthernetSend: as code likewise with the device still; the bytes written into the frame (headers, MAC addresses, payload) are not modelled, only the buffer's ownership, address and length; lengths that wrap 32 bits are excluded.
- TxPath.NetTxReaper: as code likewise with the device still.
- Wire.IpRoundTripIff: payloads within 20 bytes of 2^32, whose buffer length wraps 32 bits too, are treated like the others; the heap has 16 MB and the only caller passes at most 65535 bytes.
- Wire.FillIp: likewise for such payloads; the buffer is as long as header and payload.
- TcpServer.TcpServer.DispatchPayload: the construction of the response text is left out; the text is a parameter.
- TcpConnection.AdvanceKeeps: the response is at most 65495 bytes; the constant text of the source has under 1024.
- Mmu.Mmu.MapRegion: sizes within one page of 2^64 are excluded, because the loop counter would wrap; `ioremap` never passes one.
- Format.PutSigned: `%d` of the least 32-bit number is excluded, because negating it is undefined in C.
- Format.FormatInto: formats ending in a bare percent sign, where the source reads past the terminator, arguments of the wrong kind, and the least 32-bit number under `%d` are excluded.
- Format.Ksnprintf: the same exclusions as for `Format.FormatInto`.
- The Raspberry Pi 4 board configuration; constants are those of the QEMU `virt` board.
- The Rust kernel under `aethernxt` and the code under `backups`, which is not built.
