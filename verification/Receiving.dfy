/** What the receiving code makes of arbitrary bytes: which packets and segments it accepts, and what it
    takes from them. */
module Receiving {
  import opened Machine
  import opened Arith
  import opened Bytes
  import opened Checksum
  import opened Wire

  // ---------------------------------------------------------------------------------------
  // IPv4
  // ---------------------------------------------------------------------------------------

  /** The first `n` bytes with a zero checksum field. */
  function Unsealed(data: seq<Byte>, n: nat): (h: seq<Byte>)
    requires 12 <= n <= |data|
    ensures |h| == n
  {
    data[..10] + [0, 0] + data[12..n]
  }

  /** The header's big-endian words and the checksum, low byte first, add up to a multiple of 65535; the
      one representation of zero that the code never computes does not count. */
  ghost predicate AddsUp(data: seq<Byte>, n: nat)
    requires 12 <= n <= |data|
  {
    var c := data[10] + 256 * (data[11] as int);
    (SumBe(Unsealed(data, n)) + c) % 65535 == 0 && c != 0xFFFF
  }

  lemma FinalizeIff(sum: nat, c: nat)
    requires 0 < sum && c < 65536
    ensures Finalize(sum) == c <==> (sum + c) % 65535 == 0 && c != 0xFFFF
  {
    ComplementCompletes(sum);
    FoldIsOnesComplement(sum);
    var k := Quotient(sum);
    hide OnesComplement, Fold;
    SmallShift(sum + Finalize(sum), sum + c, Finalize(sum), c);
  }

  lemma UnsealedIs(data: seq<Byte>, n: nat)
    requires 12 <= n <= |data|
    ensures PutWord(data, IP_CHECKSUM_AT, 0)[..n] == Unsealed(data, n)
  {
  }

  lemma {:induction false} SumPositive(b: seq<Byte>)
    requires b != [] && b[0] != 0
    ensures SumBe(b) > 0
  {
  }

  /** The conditions of sections 3.1 and 3.2 of RFC 791 that the code checks, on the bytes themselves. */
  ghost predicate Deliverable(data: seq<Byte>, me: nat) {
    |data| >= 20 && data[0] / 16 == 4
    && var n := 4 * (data[0] % 16);
       20 <= n <= |data| && n <= Be16(data, 2) <= |data| && Be32(data, 16) == me && AddsUp(data, n)
  }

  /** IPv4 delivers exactly the packets that meet the conditions, and of those the protocol, the source
      and the bytes from the end of the header, options included, to the end of the packet. */
  lemma DeliverIff(data: seq<Byte>, me: nat)
    ensures HandleIp(data, me)
         == if Deliverable(data, me) then Deliver(data[9], Be32(data, 12), me, data[4 * (data[0] % 16)..Be16(data, 2)]) else Drop
  {
    hide Swap16, Swap32, Load16, Load32, AddsUp, Ipv4Checksum, PutWord, Be16, Be32;
    if |data| >= 20 && data[0] / 16 == 4 && data[0] % 16 >= 5 {
      var n := 4 * (data[0] % 16);
      Swapped16IsBe(data, 2);
      Swapped32IsBe(data, 12);
      Swapped32IsBe(data, 16);
      if n <= |data| { ChecksumIff(data, n); }
    }
  }

  lemma ChecksumIff(data: seq<Byte>, n: nat)
    requires 20 <= n <= |data| && data[0] / 16 == 4
    ensures Ipv4Checksum(PutWord(data, IP_CHECKSUM_AT, 0)[..n]) == Load16(data, IP_CHECKSUM_AT) <==> AddsUp(data, n)
  {
    UnsealedIs(data, n);
    SumPositive(Unsealed(data, n));
    FinalizeIff(SumBe(Unsealed(data, n)), Load16(data, IP_CHECKSUM_AT));
    hide Finalize, SumBe, Unsealed, PutWord;
  }

  lemma {:induction false} SumBeAfterPut(b: seq<Byte>, i: nat, w: nat)
    requires i + 1 < |b| && i % 2 == 0 && w < 65536
    ensures SumBe(PutWord(b, i, w)) + Swap16(WordAt(b, i)) == SumBe(b) + Swap16(w)
    decreases |b|
  {
    var r := PutWord(b, i, w);
    if i == 0 {
      assert r[2..] == b[2..];
      WordsSwap(b[0], b[1]);
      WordsSwap(w % 256, w / 256);
    } else {
      assert r[2..] == PutWord(b[2..], i - 2, w);
      SumBeAfterPut(b[2..], i - 2, w);
    }
  }

  lemma WordsSwap(b0: Byte, b1: Byte)
    ensures LeWord(b0, b1) < 65536 && Swap16(LeWord(b0, b1)) == BeWord(b0, b1)
  {
    DivisionUnique(LeWord(b0, b1), 256, b1, b0);
  }

  lemma UnsealedAfterPut(data: seq<Byte>, n: nat, i: nat, w: nat)
    requires 12 <= n <= |data| && i % 2 == 0 == n % 2 && i < n && w < 65536
    ensures Unsealed(PutWord(data, i, w), n) == if i == 10 then Unsealed(data, n) else PutWord(Unsealed(data, n), i, w)
    ensures i != 10 ==> WordAt(Unsealed(data, n), i) == WordAt(data, i)
  {
    EvenApart(i, n);
    UnsealedAt(data, n);
    UnsealedAt(PutWord(data, i, w), n);
    PutWordAt(data, i, w);
    PutWordAt(Unsealed(data, n), i, w);
    hide Unsealed, PutWord, LeWord;
    var left := Unsealed(PutWord(data, i, w), n);
    var right := if i == 10 then Unsealed(data, n) else PutWord(Unsealed(data, n), i, w);
    assert forall k | 0 <= k < n :: left[k] == right[k];
  }

  lemma EvenApart(i: nat, n: nat)
    requires i % 2 == 0 == n % 2 && i < n
    ensures i + 1 < n && (i != 10 ==> i + 1 < 10 || i > 11)
  {
  }

  lemma UnsealedAt(data: seq<Byte>, n: nat)
    requires 12 <= n <= |data|
    ensures forall k | 0 <= k < n :: Unsealed(data, n)[k] == if k == 10 || k == 11 then 0 else data[k]
  {
  }

  lemma PutWordAt(b: seq<Byte>, i: nat, w: nat)
    requires i + 1 < |b| && w < 65536
    ensures forall k | 0 <= k < |b| :: PutWord(b, i, w)[k] == if k == i then w % 256 else if k == i + 1 then w / 256 else b[k]
  {
  }

  lemma SwapDiffers(v: nat, w: nat)
    requires v < 65536 && w < 65536
    ensures Swap16(v) == Swap16(w) ==> v == w
    ensures (Swap16(v) == 0 <==> v == 0) && (Swap16(v) == 65535 <==> v == 65535)
  {
    hide Swap16;
    Swap16Involution(v);
    Swap16Involution(w);
    SwapEnds(v);
  }

  lemma ChecksumReplaced(data: seq<Byte>, n: nat, w: nat)
    requires 12 <= n <= |data| && n % 2 == 0 && w < 65536 && AddsUp(data, n)
    ensures AddsUp(PutWord(data, 10, w), n) <==> w == WordAt(data, 10)
  {
    UnsealedAfterPut(data, n, 10, w);
    var sum, c, data' := SumBe(Unsealed(data, n)), WordAt(data, 10), PutWord(data, 10, w);
    SmallShift(sum + c, sum + w, c, w);
    assert WordAt(data', 10) == w;
    hide SumBe, Unsealed, PutWord;
  }

  lemma WordReplaced(data: seq<Byte>, n: nat, i: nat, w: nat)
    requires 12 <= n <= |data| && i % 2 == 0 == n % 2 && i < n && i != 10 && w < 65536 && AddsUp(data, n)
    ensures AddsUp(PutWord(data, i, w), n) <==> w == WordAt(data, i) || {w, WordAt(data, i)} == {0, 0xFFFF}
  {
    hide SumBe, Unsealed, PutWord, Swap16, LeWord;
    EvenApart(i, n);
    PutWordAt(data, i, w);
    var h, data', v := Unsealed(data, n), PutWord(data, i, w), WordAt(data, i);
    var c := data[10] + 256 * (data[11] as int);
    UnsealedAfterPut(data, n, i, w);
    WordBound(data, i);
    SumBeAfterPut(h, i, w);
    SwapDiffers(v, w);
    SwapDiffers(w, v);
    hide WordAt;
    SmallShift(SumBe(h) + c, SumBe(Unsealed(data', n)) + c, Swap16(v), Swap16(w));
    ExchangedSet(v, w);
  }

  lemma WordBound(b: seq<Byte>, i: nat)
    requires i < |b|
    ensures WordAt(b, i) < 65536
  {
  }

  lemma ExchangedSet(v: nat, w: nat)
    ensures {w, v} == {0, 0xFFFF} <==> (w == 0 && v == 0xFFFF) || (w == 0xFFFF && v == 0)
  {
    if {w, v} == {0, 0xFFFF} {
      assert w in {0, 0xFFFF} && v in {0, 0xFFFF} && 0 in {w, v} && 0xFFFF in {w, v};
    }
  }

  /** The header checksum after one word of the header was replaced: it holds exactly if the word was
      unchanged or, outside the checksum field, 0x0000 and 0xFFFF were exchanged. */
  lemma AddsUpAfterPut(data: seq<Byte>, n: nat, i: nat, w: nat)
    requires 12 <= n <= |data| && i % 2 == 0 == n % 2 && i < n && w < 65536 && AddsUp(data, n)
    ensures AddsUp(PutWord(data, i, w), n)
            <==> w == WordAt(data, i) || (i != 10 && {w, WordAt(data, i)} == {0, 0xFFFF})
  {
    hide AddsUp, PutWord, WordAt;
    if i == 10 { ChecksumReplaced(data, n, w); } else { WordReplaced(data, n, i, w); }
  }

  /** A damaged header is dropped: in a packet that is delivered, to whatever length its options make
      the header, replace one aligned word behind the first. It is dropped unless the word was
      unchanged or, outside the checksum field, 0x0000 and 0xFFFF were exchanged. */
  lemma HeaderDamageDropped(data: seq<Byte>, me: nat, i: nat, w: nat)
    requires HandleIp(data, me).Deliver? && 2 <= i && i % 2 == 0 && w < 65536
    requires |data| > 0 && i < 4 * (data[0] % 16) && i + 1 < |data|
    requires w != WordAt(data, i) && (i == 10 || !({w, WordAt(data, i)} == {0, 0xFFFF}))
    ensures HandleIp(PutWord(data, i, w), me) == Drop
  {
    hide HandleIp, WordAt, AddsUp;
    DeliverIff(data, me);
    DeliverIff(PutWord(data, i, w), me);
    AddsUpAfterPut(data, 4 * (data[0] % 16), i, w);
    assert PutWord(data, i, w)[0] == data[0];
  }

  // ---------------------------------------------------------------------------------------
  // TCP
  // ---------------------------------------------------------------------------------------

  /** The data offset of section 3.1 of RFC 793 is at least five words and within the segment, and
      pseudo-header and segment add up to a multiple of 65535. */
  ghost predicate Acceptable(s: seq<Byte>, src: nat, dst: nat)
    requires src < U32 && dst < U32 && |s| < 65536
  {
    |s| >= 20 && 5 * 4 <= 4 * (s[12] / 16) <= |s| && SumLe(PseudoHeader(src, dst, |s|) + s) % 65535 == 0
  }

  /** TCP accepts exactly the segments that meet the conditions, with the fields of their header, and as
      payload what lies behind the header, options included. */
  lemma AcceptIff(s: seq<Byte>, src: nat, dst: nat)
    requires src < U32 && dst < U32 && |s| < 65536
    ensures ParseTcp(s, src, dst)
         == if Acceptable(s, src, dst) then Accept(Be16(s, 0), Be16(s, 2), Be32(s, 4), Be32(s, 8), s[13], s[4 * (s[12] / 16)..])
            else Reject
  {
    hide Swap16, Swap32, Load16, Load32, Be16, Be32, SumLe, PseudoHeader, TcpSum, TcpValid;
    ValidIff(src, dst, s);
    SumWithPseudoHeader(src, dst, s);
    if |s| >= 20 {
      Swapped16IsBe(s, 0);
      Swapped16IsBe(s, 2);
      Swapped32IsBe(s, 4);
      Swapped32IsBe(s, 8);
    }
  }

  /** A data offset below five words, or beyond the segment, is rejected. */
  lemma BadOffsetRejected(s: seq<Byte>, src: nat, dst: nat)
    requires src < U32 && dst < U32 && 20 <= |s| < 65536 && (s[12] / 16 < 5 || 4 * (s[12] / 16) > |s|)
    ensures ParseTcp(s, src, dst) == Reject
  {
    AcceptIff(s, src, dst);
    hide ParseTcp, PseudoHeader, SumLe;
  }

  /** A segment with up to ten words of options, as a peer builds it. */
  function WithOptions(f: Fields, options: seq<Byte>, payload: seq<Byte>): (s: seq<Byte>)
    requires InRange(f) && |options| % 4 == 0 && |options| <= 40
    ensures |s| == HEADER + |options| + |payload|
  {
    TcpHeader(f)[12 := 80 + 4 * |options|] + options + payload
  }

  /** Options never count as payload: sealed, such a segment parses as its fields and exactly its payload. */
  lemma OptionsRoundTrip(f: Fields, options: seq<Byte>, payload: seq<Byte>, src: nat, dst: nat)
    requires InRange(f) && |options| % 4 == 0 && |options| <= 40 && HEADER + |options| + |payload| < 65536
    requires src < U32 && dst < U32
    ensures var raw := WithOptions(f, options, payload);
            var c := TcpCompute(src, dst, raw);
            && c < 65536
            && ParseTcp(PutWord(raw, CHECKSUM_AT, c), src, dst)
               == Accept(f.srcPort, f.dstPort, f.seqNo, f.ackNo, f.flags, payload)
  {
    var raw := WithOptions(f, options, payload);
    HeaderHeld(f);
    ChecksumBound(src, dst, raw);
    SealedValidates(src, dst, raw);
    var c := TcpCompute(src, dst, raw);
    TcpHeaderLoads(f);
    hide TcpHeader, TcpCompute, TcpValid, Swap16, Swap32, WithOptions, PutWord;
    OptionFields(f, options, payload, c);
  }

  lemma OptionFields(f: Fields, options: seq<Byte>, payload: seq<Byte>, c: nat)
    requires InRange(f) && |options| % 4 == 0 && |options| <= 40 && c < 65536
    ensures var s := PutWord(WithOptions(f, options, payload), CHECKSUM_AT, c);
            && s[12] / 16 * 4 == HEADER + |options| && s[13] == f.flags && s[HEADER + |options|..] == payload
            && Load16(s, 0) == Load16(TcpHeader(f), 0) && Load16(s, 2) == Load16(TcpHeader(f), 2)
            && Load32(s, 4) == Load32(TcpHeader(f), 4) && Load32(s, 8) == Load32(TcpHeader(f), 8)
  {
    HeaderHeld(f);
    hide TcpHeader;
    var h := TcpHeader(f);
    var s := PutWord(WithOptions(f, options, payload), CHECKSUM_AT, c);
    assert s[HEADER + |options|..] == payload;
    assert forall i | 0 <= i < 12 :: s[i] == h[i];
    DivisionUnique(s[12], 16, 5 + |options| / 4, 0);
  }

  /** Packets of other protocols reach no connection. */
  lemma OtherProtocolsIgnored(data: seq<Byte>, me: nat)
    requires |data| > 9 && data[9] != 6
    ensures Receive(data, me) == Reject
  {
    DeliverIff(data, me);
    hide HandleIp, Deliverable, ParseTcp, Be16, Be32;
  }
}
