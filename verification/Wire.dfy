/** TCP segments in IPv4 packets, byte for byte: how the kernel builds them and how it takes them
    apart. Header fields are machine words in memory, byte-swapped where the code swaps them. */
module Wire {
  import opened Machine
  import opened Arith
  import opened Bytes
  import opened Checksum

  const HEADER: int := 20

  // ---------------------------------------------------------------------------------------
  // Building
  // ---------------------------------------------------------------------------------------

  /** What a TCP header carries. */
  datatype Fields = Fields(srcPort: nat, dstPort: nat, seqNo: nat, ackNo: nat, flags: nat, window: nat)

  predicate InRange(f: Fields) {
    f.srcPort < 0x1_0000 && f.dstPort < 0x1_0000 && f.seqNo < U32 && f.ackNo < U32 && f.flags < 256 && f.window < 0x1_0000
  }

  /** The header with a zeroed checksum. */
  function TcpHeader(f: Fields): (h: seq<Byte>)
    requires InRange(f)
    ensures |h| == HEADER
  {
    var sp, dp, sq, ak, wn :=
      Swap16(f.srcPort), Swap16(f.dstPort), Swap32(f.seqNo), Swap32(f.ackNo), Swap16(f.window);
    [B0(sp), B1(sp), B0(dp), B1(dp),
     B0(sq), B1(sq), B2(sq), B3(sq), B0(ak), B1(ak), B2(ak), B3(ak),
     80, f.flags, B0(wn), B1(wn), 0, 0, 0, 0]
  }

  /** What the 16-bit `total_len` of a segment with `len` bytes of payload holds. */
  function SegmentLength(len: nat): nat { (HEADER + len) % 0x1_0000 }

  lemma SegmentLengthIs(len: nat)
    requires len < 0x1_0000
    ensures SegmentLength(len) == if len <= 65515 then HEADER + len else len - 65516
  {
  }

  /** The bytes summed and handed to IPv4 are those `total_len` speaks of, also where it wraps. */
  function BuildTcp(f: Fields, src: nat, dst: nat, payload: seq<Byte>): (s: seq<Byte>)
    requires InRange(f) && src < U32 && dst < U32 && |payload| < 0x1_0000
    ensures |s| == SegmentLength(|payload|)
  {
    var raw, total := TcpHeader(f) + payload, SegmentLength(|payload|);
    PutWord(raw, CHECKSUM_AT, TcpCompute(src, dst, raw[..total]))[..total]
  }

  /** The IPv4 header with a zeroed checksum; the total length is stored modulo 65536. */
  function IpHeader(total: nat, proto: Byte, src: nat, dst: nat): (h: seq<Byte>)
    requires src < U32 && dst < U32
    ensures |h| == HEADER
  {
    var tl, id, s, d := Swap16(total % 0x1_0000), Swap16(1), Swap32(src), Swap32(dst);
    [0x45, 0, B0(tl), B1(tl), B0(id), B1(id), 0, 0, 64, proto, 0, 0,
     B0(s), B1(s), B2(s), B3(s), B0(d), B1(d), B2(d), B3(d)]
  }

  /** What the 16-bit length field of a packet with `len` bytes of payload holds. */
  function IpLength(len: nat): (total: nat)
    ensures total <= HEADER + len
  {
    (HEADER + len) % 0x1_0000
  }

  const IP_CHECKSUM_AT: int := 10

  function BuildIp(proto: Byte, src: nat, dst: nat, payload: seq<Byte>): seq<Byte>
    requires src < U32 && dst < U32
  {
    var h := IpHeader(HEADER + |payload|, proto, src, dst);
    PutWord(h, IP_CHECKSUM_AT, Ipv4Checksum(h)) + payload
  }

  // ---------------------------------------------------------------------------------------
  // Taking apart
  // ---------------------------------------------------------------------------------------

  datatype Packet = Drop | Deliver(proto: nat, src: nat, dst: nat, payload: seq<Byte>)

  /** `ipv4_handle` up to the protocol switch. */
  function HandleIp(data: seq<Byte>, me: nat): Packet {
    if |data| < HEADER then Drop else
    var version, ihl := data[0] / 16, data[0] % 16;
    if version != 4 || ihl < 5 then Drop else
    var headerLen := ihl * 4;
    if |data| < headerLen then Drop else
    if Ipv4Checksum(PutWord(data, IP_CHECKSUM_AT, 0)[..headerLen]) != Load16(data, IP_CHECKSUM_AT) then Drop else
    var total := Swap16(Load16(data, 2));
    if total < headerLen || total > |data| then Drop else
    var src, dst := Swap32(Load32(data, 12)), Swap32(Load32(data, 16));
    if dst != me then Drop
    else Deliver(data[9], src, dst, data[headerLen..total])
  }

  datatype Segment = Reject | Accept(srcPort: nat, dstPort: nat, seqNo: nat, ackNo: nat, flags: nat, payload: seq<Byte>)

  /** The header and checksum checks of `tcp_input_process`. */
  function ParseTcp(s: seq<Byte>, src: nat, dst: nat): Segment
    requires src < U32 && dst < U32 && |s| < 0x1_0000
  {
    if |s| < HEADER then Reject else
    var headerLen := s[12] / 16 * 4;
    if headerLen < HEADER || headerLen > |s| then Reject else
    if !TcpValid(src, dst, s) then Reject
    else Accept(Swap16(Load16(s, 0)), Swap16(Load16(s, 2)), Swap32(Load32(s, 4)), Swap32(Load32(s, 8)), s[13], s[headerLen..])
  }

  /** Both checks in turn, for protocol 6. */
  function Receive(data: seq<Byte>, me: nat): Segment {
    HandledRange(data, me);
    match HandleIp(data, me)
    case Drop => Reject
    case Deliver(proto, src, dst, s) => if proto == PROTO_TCP then ParseTcp(s, src, dst) else Reject
  }

  lemma HandledRange(data: seq<Byte>, me: nat)
    ensures var p := HandleIp(data, me); p.Deliver? ==> p.src < U32 && p.dst == me < U32 && |p.payload| < 0x1_0000
  {
    hide Ipv4Checksum, Swap16, Swap32, PutWord, Load16, Load32;
  }

  // ---------------------------------------------------------------------------------------
  // Round trips
  // ---------------------------------------------------------------------------------------

  lemma LoadSwapped16(b: seq<Byte>, i: nat, x: nat)
    requires i + 2 <= |b| && x < 0x1_0000 && b[i] == B0(Swap16(x)) && b[i + 1] == B1(Swap16(x))
    ensures Swap16(Load16(b, i)) == x
  {
    Swap16Involution(x);
  }

  lemma LoadSwapped32(b: seq<Byte>, i: nat, x: nat)
    requires i + 4 <= |b| && x < U32
    requires b[i] == B0(Swap32(x)) && b[i + 1] == B1(Swap32(x)) && b[i + 2] == B2(Swap32(x)) && b[i + 3] == B3(Swap32(x))
    ensures Swap32(Load32(b, i)) == x
  {
    Bytes32(Swap32(x));
    Swap32Involution(x);
    hide Swap32, B0, B1, B2, B3;
  }

  /** Network byte order: most significant byte first. */
  function Be16(b: seq<Byte>, i: nat): nat
    requires i + 2 <= |b|
  {
    b[i] as int * 0x100 + b[i + 1]
  }

  function Be32(b: seq<Byte>, i: nat): nat
    requires i + 4 <= |b|
  {
    ((b[i] as int * 0x100 + b[i + 1]) * 0x100 + b[i + 2]) * 0x100 + b[i + 3]
  }

  lemma Swapped16IsBe(b: seq<Byte>, i: nat)
    requires i + 2 <= |b|
    ensures Swap16(Load16(b, i)) == Be16(b, i)
  {
    DivisionUnique(Load16(b, i), 256, b[i + 1], b[i]);
  }

  lemma Swapped32IsBe(b: seq<Byte>, i: nat)
    requires i + 4 <= |b|
    ensures Swap32(Load32(b, i)) == Be32(b, i)
  {
    FourBytes(b[i], b[i + 1], b[i + 2], b[i + 3]);
    hide B0, B1, B2, B3;
  }

  /** The fields as the receiving code reads them. */
  lemma TcpHeaderLoads(f: Fields)
    requires InRange(f)
    ensures var h := TcpHeader(f);
            && Swap16(Load16(h, 0)) == f.srcPort && Swap16(Load16(h, 2)) == f.dstPort
            && Swap32(Load32(h, 4)) == f.seqNo && Swap32(Load32(h, 8)) == f.ackNo && Swap16(Load16(h, 14)) == f.window
  {
    hide B0, B1, B2, B3, Swap16, Swap32, Load16, Load32;
    var h := TcpHeader(f);
    LoadSwapped16(h, 0, f.srcPort);
    LoadSwapped16(h, 2, f.dstPort);
    LoadSwapped32(h, 4, f.seqNo);
    LoadSwapped32(h, 8, f.ackNo);
    LoadSwapped16(h, 14, f.window);
  }

  /** The TCP header has the layout of section 3.1 of RFC 793: every field at its offset, in network
      byte order, a data offset of five words, and nothing in the reserved and urgent fields. */
  lemma TcpHeaderLayout(f: Fields)
    requires InRange(f)
    ensures var h := TcpHeader(f);
            && Be16(h, 0) == f.srcPort && Be16(h, 2) == f.dstPort && Be32(h, 4) == f.seqNo && Be32(h, 8) == f.ackNo
            && h[12] == 5 * 16 && h[13] == f.flags && Be16(h, 14) == f.window && Be16(h, 16) == 0 && Be16(h, 18) == 0
  {
    hide B0, B1, B2, B3, Swap16, Swap32, Load16, Load32;
    var h := TcpHeader(f);
    TcpHeaderLoads(f);
    Swapped16IsBe(h, 0);
    Swapped16IsBe(h, 2);
    Swapped32IsBe(h, 4);
    Swapped32IsBe(h, 8);
    Swapped16IsBe(h, 14);
  }

  lemma IpHeaderLoads(total: nat, proto: Byte, src: nat, dst: nat)
    requires src < U32 && dst < U32
    ensures var h := IpHeader(total, proto, src, dst);
            && Swap16(Load16(h, 2)) == total % 0x1_0000 && Swap16(Load16(h, 4)) == 1
            && Swap32(Load32(h, 12)) == src && Swap32(Load32(h, 16)) == dst
  {
    hide B0, B1, B2, B3, Swap16, Swap32, Load16, Load32;
    var h := IpHeader(total, proto, src, dst);
    LoadSwapped16(h, 2, total % 0x1_0000);
    LoadSwapped16(h, 4, 1);
    LoadSwapped32(h, 12, src);
    LoadSwapped32(h, 16, dst);
  }

  /** The IPv4 header has the layout of section 3.1 of RFC 791, with a zero checksum field. */
  lemma IpHeaderLayout(total: nat, proto: Byte, src: nat, dst: nat)
    requires src < U32 && dst < U32
    ensures var h := IpHeader(total, proto, src, dst);
            && h[0] == 4 * 16 + 5 && h[1] == 0 && Be16(h, 2) == total % 0x1_0000 && Be16(h, 4) == 1 && Be16(h, 6) == 0
            && h[8] == 64 && h[9] == proto && Be16(h, 10) == 0 && Be32(h, 12) == src && Be32(h, 16) == dst
  {
    hide B0, B1, B2, B3, Swap16, Swap32, Load16, Load32;
    var h := IpHeader(total, proto, src, dst);
    IpHeaderLoads(total, proto, src, dst);
    Swapped16IsBe(h, 2);
    Swapped16IsBe(h, 4);
    Swapped32IsBe(h, 12);
    Swapped32IsBe(h, 16);
  }

  /** The finished packet is that header with the checksum of it in bytes 10 and 11, low byte first,
      and then the payload. */
  lemma IpPacketLayout(proto: Byte, src: nat, dst: nat, payload: seq<Byte>)
    requires src < U32 && dst < U32
    ensures var h := IpHeader(HEADER + |payload|, proto, src, dst);
            var p := BuildIp(proto, src, dst, payload);
            && |p| == HEADER + |payload| && p[..10] == h[..10] && p[12..HEADER] == h[12..] && p[HEADER..] == payload
            && Load16(p, IP_CHECKSUM_AT) == Ipv4Checksum(h)
  {
    hide Ipv4Checksum, IpHeader;
    ChecksumWord(IpHeader(HEADER + |payload|, proto, src, dst));
  }

  /** As long as `total_len` does not wrap, the whole segment is sealed and sent. */
  lemma BuiltWhole(f: Fields, src: nat, dst: nat, payload: seq<Byte>)
    requires InRange(f) && src < U32 && dst < U32 && HEADER + |payload| < 0x1_0000
    ensures var raw := TcpHeader(f) + payload;
            |raw| == HEADER + |payload| && BuildTcp(f, src, dst, payload) == PutWord(raw, CHECKSUM_AT, TcpCompute(src, dst, raw))
  {
    hide TcpHeader, TcpCompute, PutWord;
    var raw := TcpHeader(f) + payload;
    assert raw[..SegmentLength(|payload|)] == raw;
    ChecksumBound(src, dst, raw);
  }

  /** A segment built here passes the checks if and only if `total_len` did not wrap, and then parses
      as itself, with the same addresses. */
  lemma TcpRoundTrip(f: Fields, src: nat, dst: nat, payload: seq<Byte>)
    requires InRange(f) && src < U32 && dst < U32 && |payload| < 0x1_0000
    ensures ParseTcp(BuildTcp(f, src, dst, payload), src, dst)
         == if |payload| <= 65515 then Accept(f.srcPort, f.dstPort, f.seqNo, f.ackNo, f.flags, payload) else Reject
  {
    hide TcpCompute, TcpValid, BuildTcp, TcpHeader, PutWord, Swap16, Swap32, Load16, Load32;
    if |payload| <= 65515 {
      BuiltWhole(f, src, dst, payload);
      HeaderHeld(f);
      var raw := TcpHeader(f) + payload;
      SealedValidates(src, dst, raw);
      ChecksumBound(src, dst, raw);
      SealedParts(f, payload, TcpCompute(src, dst, raw));
    }
  }

  lemma HeaderHeld(f: Fields)
    requires InRange(f)
    ensures var h := TcpHeader(f); h[12] == 80 && h[13] == f.flags && h[CHECKSUM_AT] == 0 && h[CHECKSUM_AT + 1] == 0
  {
  }

  /** Whatever goes into the checksum field, the other fields and the payload can be read back. */
  lemma SealedParts(f: Fields, payload: seq<Byte>, c: nat)
    requires InRange(f) && c < 0x1_0000
    ensures var s := PutWord(TcpHeader(f) + payload, CHECKSUM_AT, c);
            && s[12] == 80 && s[13] == f.flags && s[20..] == payload
            && Swap16(Load16(s, 0)) == f.srcPort && Swap16(Load16(s, 2)) == f.dstPort
            && Swap32(Load32(s, 4)) == f.seqNo && Swap32(Load32(s, 8)) == f.ackNo
  {
    hide TcpHeader, Swap16, Swap32;
    TcpHeaderLoads(f);
    HeaderHeld(f);
    var h := TcpHeader(f);
    var s := PutWord(h + payload, CHECKSUM_AT, c);
    assert s[20..] == payload;
    assert forall i | 0 <= i < 16 :: s[i] == h[i];
  }

  /** The header of a built packet, seen through padding: every field the handler reads. */
  lemma BuiltHeader(proto: Byte, src: nat, dst: nat, payload: seq<Byte>, pad: seq<Byte>)
    requires src < U32 && dst < U32
    ensures var h := IpHeader(HEADER + |payload|, proto, src, dst);
            var data := BuildIp(proto, src, dst, payload) + pad;
            && |data| == HEADER + |payload| + |pad|
            && data[0] == 0x45 && data[9] == proto
            && Ipv4Checksum(PutWord(data, IP_CHECKSUM_AT, 0)[..HEADER]) == Load16(data, IP_CHECKSUM_AT)
            && Swap16(Load16(data, 2)) == IpLength(|payload|)
            && Swap32(Load32(data, 12)) == src && Swap32(Load32(data, 16)) == dst
            && data[HEADER..HEADER + |payload|] == payload
  {
    hide Ipv4Checksum, IpHeader, Swap16, Swap32;
    var h := IpHeader(HEADER + |payload|, proto, src, dst);
    var data := BuildIp(proto, src, dst, payload) + pad;
    ChecksumWord(h);
    IpHeaderLoads(HEADER + |payload|, proto, src, dst);
    IpHeaderHeld(HEADER + |payload|, proto, src, dst);
    assert forall i | 0 <= i < HEADER && i != 10 && i != 11 :: data[i] == h[i];
    assert PutWord(data, IP_CHECKSUM_AT, 0)[..HEADER] == h;
    assert data[HEADER..HEADER + |payload|] == payload;
  }

  lemma IpHeaderHeld(total: nat, proto: Byte, src: nat, dst: nat)
    requires src < U32 && dst < U32
    ensures var h := IpHeader(total, proto, src, dst); h[0] == 0x45 && h[9] == proto && h[10] == 0 && h[11] == 0
  {
  }

  lemma ChecksumWord(h: seq<Byte>)
    ensures Ipv4Checksum(h) < 0x1_0000
  {
  }

  /** What becomes of a packet built here, with any payload and any padding after it: the addressee
      gets as much of the payload as the 16-bit length field speaks of, or drops the packet when
      that is less than a header; so the whole payload arrives exactly when the true length fits
      the field. Nobody else gets anything. */
  lemma IpRoundTripIff(proto: Byte, src: nat, dst: nat, payload: seq<Byte>, pad: seq<Byte>)
    requires src < U32 && dst < U32
    ensures var total := IpLength(|payload|);
            HandleIp(BuildIp(proto, src, dst, payload) + pad, dst)
            == if total < HEADER then Drop else Deliver(proto, src, dst, payload[..total - HEADER])
    ensures HandleIp(BuildIp(proto, src, dst, payload) + pad, dst) == Deliver(proto, src, dst, payload)
            <==> HEADER + |payload| < 0x1_0000
    ensures forall me: nat | me != dst :: HandleIp(BuildIp(proto, src, dst, payload) + pad, me) == Drop
  {
    hide Ipv4Checksum, Swap16, Swap32, BuildIp, HandleIp, PutWord, Load16, Load32, IpHeader, IpLength;
    BuiltHeader(proto, src, dst, payload, pad);
    LengthField(|payload|);
    HandleCases(BuildIp(proto, src, dst, payload) + pad, IpLength(|payload|), proto, src, dst, payload);
    PrefixWhole(payload);
  }

  lemma LengthField(len: nat)
    ensures IpLength(len) == HEADER + len <==> HEADER + len < 0x1_0000
  {
  }

  lemma PrefixWhole(s: seq<Byte>)
    ensures forall k | 0 <= k <= |s| :: s[..k] == s <==> k == |s|
  {
  }

  lemma HandleCases(data: seq<Byte>, total: nat, proto: Byte, src: nat, dst: nat, payload: seq<Byte>)
    requires total <= HEADER + |payload| <= |data| && data[0] == 0x45 && data[9] == proto
    requires Ipv4Checksum(PutWord(data, IP_CHECKSUM_AT, 0)[..HEADER]) == Load16(data, IP_CHECKSUM_AT)
    requires Swap16(Load16(data, 2)) == total
    requires Swap32(Load32(data, 12)) == src && Swap32(Load32(data, 16)) == dst && data[HEADER..HEADER + |payload|] == payload
    ensures HandleIp(data, dst) == if total < HEADER then Drop else Deliver(proto, src, dst, payload[..total - HEADER])
    ensures forall me: nat | me != dst :: HandleIp(data, me) == Drop
  {
    hide Ipv4Checksum, Swap16, Swap32, PutWord, Load16, Load32;
    if total >= HEADER {
      assert data[HEADER..total] == payload[..total - HEADER];
    }
  }

  /** The whole path, for every payload `tcp_send_segment` can be given: a segment built by one host,
      wrapped, padded on the wire, and handled by a host that runs the same code, arrives with the
      same addresses, ports, numbers, flags and payload if and only if the payload is at most 65495
      bytes. Up to 65515 bytes IPv4 drops it, beyond that TCP does. */
  lemma FullStackRoundTrip(f: Fields, src: nat, dst: nat, payload: seq<Byte>, pad: seq<Byte>)
    requires InRange(f) && src < U32 && dst < U32 && |payload| < 0x1_0000
    ensures var s := BuildTcp(f, src, dst, payload);
            var data := BuildIp(PROTO_TCP, src, dst, s) + pad;
            var accepted := Accept(f.srcPort, f.dstPort, f.seqNo, f.ackNo, f.flags, payload);
            && Receive(data, dst) == (if |payload| <= 65495 then accepted else Reject)
            && (|payload| <= 65495 ==> HandleIp(data, dst) == Deliver(PROTO_TCP, src, dst, s) && ParseTcp(s, src, dst) == accepted)
            && forall me: nat | me != dst :: Receive(data, me) == Reject
  {
    hide BuildTcp, BuildIp, HandleIp, ParseTcp;
    var s := BuildTcp(f, src, dst, payload);
    TcpRoundTrip(f, src, dst, payload);
    IpRoundTripIff(PROTO_TCP, src, dst, s, pad);
    assert |payload| <= 65495 || |payload| > 65515 ==> s[..|s|] == s;
  }

  /** The shortest payload that is lost, here of zeroes. */
  lemma LostPayload(f: Fields, src: nat, dst: nat)
    requires InRange(f) && src < U32 && dst < U32
    ensures var payload := seq(65496, _ => 0 as Byte);
            Receive(BuildIp(PROTO_TCP, src, dst, BuildTcp(f, src, dst, payload)), dst) == Reject
  {
    hide BuildTcp, BuildIp, HandleIp, ParseTcp, Receive;
    var payload := seq(65496, _ => 0 as Byte);
    FullStackRoundTrip(f, src, dst, payload, []);
    var data := BuildIp(PROTO_TCP, src, dst, BuildTcp(f, src, dst, payload));
    assert data + [] == data;
  }

  // ---------------------------------------------------------------------------------------
  // The code
  // ---------------------------------------------------------------------------------------

  method Store16(b: array<Byte>, i: nat, w: nat)
    requires i + 2 <= b.Length && w < 0x1_0000
    modifies b
    ensures b[..] == PutWord(old(b[..]), i, w)
    ensures b[i] == B0(w) && b[i + 1] == B1(w)
    ensures forall j | 0 <= j < b.Length && j != i && j != i + 1 :: b[j] == old(b[j])
  {
    b[i], b[i + 1] := w % 256, w / 256;
  }

  method Store32(b: array<Byte>, i: nat, w: nat)
    requires i + 4 <= b.Length && w < U32
    modifies b
    ensures b[i] == B0(w) && b[i + 1] == B1(w) && b[i + 2] == B2(w) && b[i + 3] == B3(w)
    ensures forall j | 0 <= j < b.Length && !(i <= j < i + 4) :: b[j] == old(b[j])
  {
    b[i], b[i + 1], b[i + 2], b[i + 3] := B0(w), B1(w), B2(w), B3(w);
  }

  /** `memcpy` into the middle of a buffer. */
  method CopyInto(b: array<Byte>, at: nat, data: seq<Byte>)
    requires at + |data| <= b.Length
    modifies b
    ensures forall j | 0 <= j < b.Length :: b[j] == if at <= j < at + |data| then data[j - at] else old(b[j])
  {
    for i := 0 to |data|
      invariant forall j | 0 <= j < b.Length :: b[j] == if at <= j < at + i then data[j - at] else old(b[j])
    {
      b[at + i] := data[i];
    }
  }

  /** The header fields of `tcp_send_segment`, written into whatever the buffer held. */
  method FillTcpHeader(b: array<Byte>, f: Fields)
    requires InRange(f) && b.Length >= HEADER
    modifies b
    ensures b[..HEADER] == TcpHeader(f)
    ensures forall j | HEADER <= j < b.Length :: b[j] == old(b[j])
  {
    hide B0, B1, B2, B3, Swap16, Swap32, PutWord;
    FillTcpPorts(b, f);
    FillTcpNumbers(b, f);
    FillTcpTail(b, f);
  }

  method FillTcpPorts(b: array<Byte>, f: Fields)
    requires InRange(f) && b.Length >= HEADER
    modifies b
    ensures var sp, dp := Swap16(f.srcPort), Swap16(f.dstPort);
            b[0] == B0(sp) && b[1] == B1(sp) && b[2] == B0(dp) && b[3] == B1(dp)
    ensures forall j | 4 <= j < b.Length :: b[j] == old(b[j])
  {
    hide B0, B1, Swap16, PutWord;
    Store16(b, 0, Swap16(f.srcPort));
    Store16(b, 2, Swap16(f.dstPort));
  }

  method FillTcpNumbers(b: array<Byte>, f: Fields)
    requires InRange(f) && b.Length >= HEADER
    modifies b
    ensures var sq, ak := Swap32(f.seqNo), Swap32(f.ackNo);
            && b[4] == B0(sq) && b[5] == B1(sq) && b[6] == B2(sq) && b[7] == B3(sq)
            && b[8] == B0(ak) && b[9] == B1(ak) && b[10] == B2(ak) && b[11] == B3(ak)
    ensures forall j | 0 <= j < b.Length && !(4 <= j < 12) :: b[j] == old(b[j])
  {
    hide B0, B1, B2, B3, Swap32;
    Store32(b, 4, Swap32(f.seqNo));
    Store32(b, 8, Swap32(f.ackNo));
  }

  method FillTcpTail(b: array<Byte>, f: Fields)
    requires InRange(f) && b.Length >= HEADER
    modifies b
    ensures var wn := Swap16(f.window);
            && b[12] == 80 && b[13] == f.flags && b[14] == B0(wn) && b[15] == B1(wn)
            && b[16] == 0 && b[17] == 0 && b[18] == 0 && b[19] == 0
    ensures forall j | 0 <= j < b.Length && !(12 <= j < HEADER) :: b[j] == old(b[j])
  {
    hide B0, B1, Swap16, PutWord;
    b[12], b[13] := 80, f.flags;
    Store16(b, 14, Swap16(f.window));
    b[16], b[17], b[18], b[19] := 0, 0, 0, 0;
  }

  /** `tcp_send_segment`, from the buffer to the segment handed to IPv4. `b` is the memory from the
      buffer's address on: the header and all of the payload are written to it, whatever room
      `total_len` reserved, and `b[..total]` is handed over. */
  method FillTcp(b: array<Byte>, f: Fields, src: nat, dst: nat, payload: seq<Byte>)
    requires InRange(f) && src < U32 && dst < U32 && |payload| < 0x1_0000 && HEADER + |payload| <= b.Length
    modifies b
    ensures b[..SegmentLength(|payload|)] == BuildTcp(f, src, dst, payload)
    ensures b[HEADER..HEADER + |payload|] == payload && b[..CHECKSUM_AT] == TcpHeader(f)[..CHECKSUM_AT]
    ensures b[HEADER + |payload|..] == old(b[HEADER + |payload|..])
  {
    hide TcpCompute, TcpHeader, B0, B1;
    FillTcpHeader(b, f);
    CopyInto(b, HEADER, payload);
    ghost var raw := TcpHeader(f) + payload;
    assert b[..|raw|] == raw;
    var total := SegmentLength(|payload|);
    assert b[..total] == raw[..total];
    var c := TcpComputeLoop(src, dst, b[..total]);
    ChecksumBound(src, dst, raw[..total]);
    Store16(b, CHECKSUM_AT, c);
    assert b[..|raw|] == PutWord(raw, CHECKSUM_AT, c);
  }

  lemma ChecksumBound(src: nat, dst: nat, s: seq<Byte>)
    requires src < U32 && dst < U32 && |s| < 0x1_0000
    ensures TcpCompute(src, dst, s) < 0x1_0000
  {
  }

  /** `ipv4_handle`: zeroes the checksum in place, recomputes it, and puts it back, so the packet
      is the same afterwards whatever the outcome. */
  method HandlePacket(data: array<Byte>, me: nat) returns (r: Packet)
    modifies data
    ensures data[..] == old(data[..]) && r == HandleIp(data[..], me)
  {
    hide Ipv4Checksum, SumBe, Finalize, Swap16, Swap32;
    if data.Length < HEADER { return Drop; }
    var version, ihl := data[0] / 16, data[0] % 16;
    if version != 4 || ihl < 5 { return Drop; }
    var headerLen := ihl * 4;
    if data.Length < headerLen { return Drop; }
    var original := Load16(data[..], IP_CHECKSUM_AT);
    Store16(data, IP_CHECKSUM_AT, 0);
    var computed := Ipv4ChecksumLoop(data[..headerLen]);
    assert data[..headerLen] == PutWord(old(data[..]), IP_CHECKSUM_AT, 0)[..headerLen];
    Store16(data, IP_CHECKSUM_AT, original);
    assert data[..] == old(data[..]);
    if computed != original { return Drop; }
    var total := Swap16(Load16(data[..], 2));
    if total < headerLen || total > data.Length { return Drop; }
    var src, dst := Swap32(Load32(data[..], 12)), Swap32(Load32(data[..], 16));
    if dst != me { return Drop; }
    return Deliver(data[9], src, dst, data[headerLen..total]);
  }

  /** `ipv4_send`, from the packet buffer to the packet handed to Ethernet. */
  method FillIp(b: array<Byte>, proto: Byte, src: nat, dst: nat, payload: seq<Byte>)
    requires src < U32 && dst < U32 && b.Length == HEADER + |payload|
    modifies b
    ensures b[..] == BuildIp(proto, src, dst, payload)
  {
    hide Ipv4Checksum, SumBe, Finalize;
    for i := 0 to b.Length
      invariant forall j | 0 <= j < i :: b[j] == 0
    {
      b[i] := 0;
    }
    FillIpHeader(b, HEADER + |payload|, proto, src, dst);
    var c := Ipv4ChecksumLoop(b[..HEADER]);
    ChecksumWord(b[..HEADER]);
    ghost var h := b[..HEADER];
    Store16(b, IP_CHECKSUM_AT, c);
    hide IpHeader;
    assert b[..HEADER] == PutWord(h, IP_CHECKSUM_AT, c);
    CopyInto(b, HEADER, payload);
    assert b[..] == b[..HEADER] + payload;
  }

  method FillIpHeader(b: array<Byte>, total: nat, proto: Byte, src: nat, dst: nat)
    requires src < U32 && dst < U32 && b.Length >= HEADER
    modifies b
    ensures b[..HEADER] == IpHeader(total, proto, src, dst)
  {
    hide B0, B1, B2, B3, Swap16, Swap32;
    FillIpFixed(b, total, proto);
    FillIpAddresses(b, src, dst);
  }

  method FillIpFixed(b: array<Byte>, total: nat, proto: Byte)
    requires b.Length >= HEADER
    modifies b
    ensures var tl, id := Swap16(total % 0x1_0000), Swap16(1);
            && b[0] == 0x45 && b[1] == 0 && b[2] == B0(tl) && b[3] == B1(tl) && b[4] == B0(id) && b[5] == B1(id)
            && b[6] == 0 && b[7] == 0 && b[8] == 64 && b[9] == proto && b[10] == 0 && b[11] == 0
  {
    hide B0, B1, Swap16, PutWord;
    b[0], b[1] := 0x45, 0;
    Store16(b, 2, Swap16(total % 0x1_0000));
    Store16(b, 4, Swap16(1));
    b[6], b[7], b[8], b[9], b[10], b[11] := 0, 0, 64, proto, 0, 0;
  }

  method FillIpAddresses(b: array<Byte>, src: nat, dst: nat)
    requires src < U32 && dst < U32 && b.Length >= HEADER
    modifies b
    ensures var s, d := Swap32(src), Swap32(dst);
            && b[12] == B0(s) && b[13] == B1(s) && b[14] == B2(s) && b[15] == B3(s)
            && b[16] == B0(d) && b[17] == B1(d) && b[18] == B2(d) && b[19] == B3(d)
    ensures forall j | 0 <= j < b.Length && !(12 <= j < HEADER) :: b[j] == old(b[j])
  {
    hide B0, B1, B2, B3, Swap32;
    Store32(b, 12, Swap32(src));
    Store32(b, 16, Swap32(dst));
  }
}
