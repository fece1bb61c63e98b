/** The Internet checksum (RFC 1071), in the kernel's two implementations: TCP sums little-endian
    words, IPv4 sums big-endian words. Both fold a 32-bit sum to 16 bits and complement it. */
module Checksum {
  import opened Machine
  import opened Arith
  import opened Bytes

  // ---------------------------------------------------------------------------------------
  // Sums of 16-bit words; an odd last byte is padded with zero
  // ---------------------------------------------------------------------------------------

  function LeWord(b0: Byte, b1: Byte): nat { b0 + b1 as int * 256 }
  function BeWord(b0: Byte, b1: Byte): nat { b0 as int * 256 + b1 }

  function SumLe(b: seq<Byte>): nat {
    if |b| == 0 then 0
    else if |b| == 1 then b[0]
    else LeWord(b[0], b[1]) + SumLe(b[2..])
  }

  function SumBe(b: seq<Byte>): nat {
    if |b| == 0 then 0
    else if |b| == 1 then BeWord(b[0], 0)
    else BeWord(b[0], b[1]) + SumBe(b[2..])
  }

  /** The sum of the bytes at odd positions. */
  function SumOdd(b: seq<Byte>): nat {
    if |b| < 2 then 0 else b[1] + SumOdd(b[2..])
  }

  lemma {:induction false} SumBounds(b: seq<Byte>)
    ensures SumLe(b) <= 65535 * ((|b| + 1) / 2) && SumBe(b) <= 65535 * ((|b| + 1) / 2)
  {
    if |b| >= 2 { SumBounds(b[2..]); }
  }

  /** The one exact relation between the two byte orders. */
  lemma {:induction false} SumsRelated(b: seq<Byte>)
    ensures 256 * SumLe(b) == SumBe(b) + 65535 * SumOdd(b)
  {
    if |b| >= 2 { SumsRelated(b[2..]); }
  }

  // ---------------------------------------------------------------------------------------
  // Folding is arithmetic modulo 65535
  // ---------------------------------------------------------------------------------------

  /** One end-around carry. */
  function Carry(sum: nat): nat { sum % 65536 + sum / 65536 }

  function Fold(sum: nat): nat
    decreases sum
  {
    if sum < 65536 then sum else Fold(Carry(sum))
  }

  /** The representative of `sum` modulo 65535 in 1..65535, except that zero stays zero. */
  function OnesComplement(sum: nat): nat {
    if sum == 0 then 0 else (sum - 1) % 65535 + 1
  }

  lemma CarryCongruent(sum: nat)
    requires sum >= 65536
    ensures 0 < Carry(sum) < sum && sum == Carry(sum) + 65535 * (sum / 65536)
  {
  }

  lemma SameRemainder(a: nat, b: nat, k: nat)
    requires b > 0 && a == b + 65535 * k
    ensures OnesComplement(a) == OnesComplement(b)
  {
    assert a - 1 == (b - 1) + 65535 * k;
    assert (a - 1) % 65535 == (b - 1) % 65535;
  }

  /** However many carries it takes, folding preserves the sum modulo 65535. */
  lemma {:induction false} FoldIsOnesComplement(sum: nat)
    ensures Fold(sum) == OnesComplement(sum) <= 65535
    decreases sum
  {
    if sum >= 65536 {
      CarryCongruent(sum);
      FoldIsOnesComplement(Carry(sum));
      SameRemainder(sum, Carry(sum), sum / 65536);
    }
  }

  lemma Quotient(sum: nat) returns (k: nat)
    requires sum > 0
    ensures sum == OnesComplement(sum) + 65535 * k && 1 <= OnesComplement(sum) <= 65535
  {
    k := (sum - 1) / 65535;
  }

  /** The complement of the folded sum, as a 16-bit word. */
  function Finalize(sum: nat): (c: nat)
    ensures c <= 65535
  {
    FoldIsOnesComplement(sum);
    65535 - Fold(sum)
  }

  function Ipv4Checksum(b: seq<Byte>): nat { Finalize(SumBe(b)) }

  // ---------------------------------------------------------------------------------------
  // Byte-order independence, section 2(B) of RFC 1071
  // ---------------------------------------------------------------------------------------

  lemma SwapIsTimes256(w: nat)
    requires 0 < w <= 65535
    ensures 256 * w == Swap16(w) + 65535 * (w / 256) && 0 < Swap16(w) <= 65535
    ensures Swap16(65535 - w) == 65535 - Swap16(w)
  {
  }

  lemma CongruentEqual(a: int, b: int, k: int)
    requires 0 < a <= 65535 && 0 < b <= 65535 && a - b == 65535 * k
    ensures a == b
  {
  }

  lemma {:induction false} ZeroSums(b: seq<Byte>)
    ensures SumLe(b) == 0 <==> SumBe(b) == 0
  {
    if |b| >= 2 { ZeroSums(b[2..]); }
  }

  lemma RepresentativesSwap(le: nat, be: nat, odd: nat)
    requires le > 0 && be > 0 && 256 * le == be + 65535 * odd
    ensures 0 < OnesComplement(le) <= 65535 && OnesComplement(be) == Swap16(OnesComplement(le))
  {
    hide OnesComplement, Swap16;
    var k := Quotient(le);
    var j := Quotient(be);
    var w := OnesComplement(le);
    SwapIsTimes256(w);
    assert 256 * le == 256 * w + 65535 * (256 * k);
    CongruentEqual(Swap16(w), OnesComplement(be), j + odd - 256 * k - w / 256);
  }

  /** The two implementations agree up to a byte swap, on every byte string. */
  lemma ByteOrderIndependent(b: seq<Byte>)
    ensures Ipv4Checksum(b) == Swap16(Finalize(SumLe(b)))
  {
    var le, be := SumLe(b), SumBe(b);
    ZeroSums(b);
    SumsRelated(b);
    FoldIsOnesComplement(le);
    FoldIsOnesComplement(be);
    hide SumLe, SumBe, SumOdd, Fold;
    if le > 0 {
      RepresentativesSwap(le, be, SumOdd(b));
      hide OnesComplement;
      SwapIsTimes256(OnesComplement(le));
    }
  }

  // ---------------------------------------------------------------------------------------
  // The TCP checksum
  // ---------------------------------------------------------------------------------------

  const PROTO_TCP: int := 6

  /** The pseudo-header, summed as the code sums it. */
  function Pseudo(src: nat, dst: nat, len: nat): nat
    requires src < U32 && dst < U32 && len < 65536
  {
    src % 65536 + src / 65536 + dst % 65536 + dst / 65536 + Swap16(PROTO_TCP) + Swap16(len)
  }

  function TcpSum(src: nat, dst: nat, segment: seq<Byte>): nat
    requires src < U32 && dst < U32 && |segment| < 65536
  {
    Pseudo(src, dst, |segment|) + SumLe(segment)
  }

  function TcpCompute(src: nat, dst: nat, segment: seq<Byte>): nat
    requires src < U32 && dst < U32 && |segment| < 65536
  {
    Finalize(TcpSum(src, dst, segment))
  }

  predicate TcpValid(src: nat, dst: nat, segment: seq<Byte>)
    requires src < U32 && dst < U32 && |segment| < 65536
  {
    TcpCompute(src, dst, segment) == 0
  }

  /** The pseudo-header as twelve bytes: the two addresses as they lie in memory, a zero byte, the
      protocol, and the segment length with its high byte first. */
  function PseudoHeader(src: nat, dst: nat, len: nat): (h: seq<Byte>)
    requires src < U32 && dst < U32 && len < 65536
    ensures |h| == 12
  {
    [B0(src), B1(src), B2(src), B3(src), B0(dst), B1(dst), B2(dst), B3(dst), 0, 6, len / 256, len % 256]
  }

  /** What is checked is one sum over these twelve bytes and the segment. */
  lemma SumWithPseudoHeader(src: nat, dst: nat, segment: seq<Byte>)
    requires src < U32 && dst < U32 && |segment| < 65536
    ensures TcpSum(src, dst, segment) == SumLe(PseudoHeader(src, dst, |segment|) + segment)
  {
    hide B0, B1, B2, B3, SumLe;
    var h := PseudoHeader(src, dst, |segment|);
    SumLeAppend(h, segment);
    SumOfTwelve(h);
    Halves(src);
    Halves(dst);
    hide LeWord, PseudoHeader;
    PseudoWords(src, dst, |segment|);
  }

  lemma PseudoWords(src: nat, dst: nat, len: nat)
    requires src < U32 && dst < U32 && len < 65536
    ensures var h := PseudoHeader(src, dst, len);
            && LeWord(h[0], h[1]) == LeWord(B0(src), B1(src)) && LeWord(h[2], h[3]) == LeWord(B2(src), B3(src))
            && LeWord(h[4], h[5]) == LeWord(B0(dst), B1(dst)) && LeWord(h[6], h[7]) == LeWord(B2(dst), B3(dst))
            && LeWord(h[8], h[9]) == Swap16(PROTO_TCP) && LeWord(h[10], h[11]) == Swap16(len)
  {
    hide B0, B1, B2, B3;
  }

  lemma {:induction false} SumLeAppend(a: seq<Byte>, b: seq<Byte>)
    requires |a| % 2 == 0
    ensures SumLe(a + b) == SumLe(a) + SumLe(b)
  {
    if a == [] {
      assert a + b == b;
    } else {
      assert (a + b)[2..] == a[2..] + b;
      SumLeAppend(a[2..], b);
    }
  }

  lemma SumOfTwelve(h: seq<Byte>)
    requires |h| == 12
    ensures SumLe(h) == LeWord(h[0], h[1]) + LeWord(h[2], h[3]) + LeWord(h[4], h[5]) + LeWord(h[6], h[7])
                        + LeWord(h[8], h[9]) + LeWord(h[10], h[11])
  {
    hide LeWord;
    var h10, h8, h6, h4, h2 := h[10..], h[8..], h[6..], h[4..], h[2..];
    assert h2[2..] == h4 && h4[2..] == h6 && h6[2..] == h8 && h8[2..] == h10 && h10[2..] == [];
    assert SumLe(h10) == LeWord(h[10], h[11]);
    assert SumLe(h8) == LeWord(h[8], h[9]) + SumLe(h10);
    assert SumLe(h6) == LeWord(h[6], h[7]) + SumLe(h8);
    assert SumLe(h4) == LeWord(h[4], h[5]) + SumLe(h6);
    assert SumLe(h2) == LeWord(h[2], h[3]) + SumLe(h4);
  }

  /** The two halves of an address are its words in memory. */
  lemma Halves(w: nat)
    requires w < U32
    ensures LeWord(B0(w), B1(w)) == w % 65536 && LeWord(B2(w), B3(w)) == w / 65536
  {
    Bytes32(w);
    var low, high := LeWord(B0(w), B1(w)), LeWord(B2(w), B3(w));
    assert w == 65536 * high + low;
    DivisionUnique(w, 65536, high, low);
    hide B0, B1, B2, B3;
  }

  /** The length is covered: a valid segment to which zero bytes are appended is not valid any more,
      although they add nothing to the sum of the segment. */
  lemma LengthCovered(src: nat, dst: nat, segment: seq<Byte>, zeros: seq<Byte>)
    requires src < U32 && dst < U32 && |segment| + |zeros| < 65536 && TcpValid(src, dst, segment)
    requires 0 < |zeros| < 65535 && forall i | 0 <= i < |zeros| :: zeros[i] == 0
    ensures !TcpValid(src, dst, segment + zeros)
  {
    var n, m := |segment|, |segment| + |zeros|;
    ValidIff(src, dst, segment);
    ValidIff(src, dst, segment + zeros);
    ZerosAddNothing(segment, zeros);
    LengthWords(n, m);
    var rest := TcpSum(src, dst, segment) - Swap16(n);
    assert TcpSum(src, dst, segment + zeros) == rest + Swap16(m);
    hide TcpSum, Swap16, TcpCompute;
    SameShift(rest, Swap16(n), Swap16(m));
  }

  lemma {:induction false} ZerosAddNothing(s: seq<Byte>, zeros: seq<Byte>)
    requires forall i | 0 <= i < |zeros| :: zeros[i] == 0
    ensures SumLe(s + zeros) == SumLe(s)
    decreases |s| + |zeros|
  {
    var t := s + zeros;
    if |s| >= 2 {
      assert t[2..] == s[2..] + zeros;
      ZerosAddNothing(s[2..], zeros);
    } else if |zeros| >= 2 {
      assert t[2..] == [] + zeros[2 - |s|..];
      ZerosAddNothing([], zeros[2 - |s|..]);
    } else if s == [] {
      assert t == zeros;
    } else if zeros == [] {
      assert t == s;
    }
  }

  /** Two different lengths are different words modulo 65535, unless they are 0 and 65535. */
  lemma LengthWords(n: nat, m: nat)
    requires n < m < 65536 && m - n < 65535
    ensures Swap16(n) % 65535 != Swap16(m) % 65535
  {
    hide Swap16;
    Swap16Involution(n);
    Swap16Involution(m);
    SwapEnds(n);
    SwapEnds(m);
  }

  lemma SwapEnds(w: nat)
    requires w < 65536
    ensures (Swap16(w) == 0 <==> w == 0) && (Swap16(w) == 65535 <==> w == 65535)
  {
  }

  /** A segment validates exactly when its sum is a multiple of 65535. */
  lemma ValidIff(src: nat, dst: nat, segment: seq<Byte>)
    requires src < U32 && dst < U32 && |segment| < 65536
    ensures TcpSum(src, dst, segment) > 0
    ensures TcpValid(src, dst, segment) <==> TcpSum(src, dst, segment) % 65535 == 0
  {
    FoldIsOnesComplement(TcpSum(src, dst, segment));
    MultipleIff(TcpSum(src, dst, segment));
  }

  lemma MultipleIff(sum: nat)
    requires sum > 0
    ensures OnesComplement(sum) == 65535 <==> sum % 65535 == 0
  {
  }

  /** The little-endian word at an even offset, and the string with that word replaced. */
  function WordAt(b: seq<Byte>, i: nat): nat
    requires i < |b|
  {
    if i + 1 < |b| then LeWord(b[i], b[i + 1]) else b[i]
  }

  function PutWord(b: seq<Byte>, i: nat, w: nat): (r: seq<Byte>)
    requires i < |b| && w < 65536 && (i + 1 == |b| ==> w < 256)
    ensures |r| == |b|
  {
    if i + 1 < |b| then b[i := w % 256][i + 1 := w / 256] else b[i := w]
  }

  lemma {:induction false} SumAfterPut(b: seq<Byte>, i: nat, w: nat)
    requires i < |b| && i % 2 == 0 && w < 65536 && (i + 1 == |b| ==> w < 256)
    ensures SumLe(PutWord(b, i, w)) + WordAt(b, i) == SumLe(b) + w
    decreases |b|
  {
    var r := PutWord(b, i, w);
    if i == 0 {
      if |b| > 1 { assert r[2..] == b[2..]; }
    } else {
      assert r[2..] == PutWord(b[2..], i - 2, w);
      SumAfterPut(b[2..], i - 2, w);
    }
  }

  /** Offset of the checksum in the TCP header. */
  const CHECKSUM_AT: int := 16

  /** Sealing: storing the checksum computed over a zeroed field makes the segment validate. */
  lemma SealedValidates(src: nat, dst: nat, segment: seq<Byte>)
    requires src < U32 && dst < U32 && 20 <= |segment| < 65536
    requires segment[CHECKSUM_AT] == 0 && segment[CHECKSUM_AT + 1] == 0
    ensures TcpValid(src, dst, PutWord(segment, CHECKSUM_AT, TcpCompute(src, dst, segment)))
  {
    var sum, c := TcpSum(src, dst, segment), TcpCompute(src, dst, segment);
    var sealed := PutWord(segment, CHECKSUM_AT, c);
    SumAfterPut(segment, CHECKSUM_AT, c);
    ValidIff(src, dst, segment);
    ValidIff(src, dst, sealed);
    ComplementCompletes(sum);
    assert TcpSum(src, dst, sealed) == sum + c;
  }

  lemma ComplementCompletes(sum: nat)
    requires sum > 0
    ensures (sum + Finalize(sum)) % 65535 == 0
  {
    FoldIsOnesComplement(sum);
    var k := Quotient(sum);
    hide OnesComplement, Fold;
    DivisionUnique(sum + Finalize(sum), 65535, k + 1, 0);
  }

  /** Error detection: changing one aligned word of a valid segment keeps it valid only if the
      word is unchanged or one of 0x0000 and 0xFFFF became the other. */
  lemma WordChangeDetected(src: nat, dst: nat, segment: seq<Byte>, i: nat, w: nat)
    requires src < U32 && dst < U32 && |segment| < 65536 && TcpValid(src, dst, segment)
    requires i < |segment| && i % 2 == 0 && w < 65536 && (i + 1 == |segment| ==> w < 256)
    ensures TcpValid(src, dst, PutWord(segment, i, w))
            <==> w == WordAt(segment, i) || (w == 0 && WordAt(segment, i) == 65535) || (w == 65535 && WordAt(segment, i) == 0)
  {
    SumAfterPut(segment, i, w);
    ValidIff(src, dst, segment);
    ValidIff(src, dst, PutWord(segment, i, w));
    SmallShift(TcpSum(src, dst, segment), TcpSum(src, dst, PutWord(segment, i, w)), WordAt(segment, i), w);
  }

  /** The two halves of an address, as the pseudo-header adds them. */
  function HalfSum(ip: nat): nat { ip % 65536 + ip / 65536 }

  /** The checksum covers both addresses: a valid segment stays valid under other addresses exactly
      when their halves add up to the same value modulo 65535. */
  lemma AddressesCovered(src: nat, dst: nat, src': nat, dst': nat, segment: seq<Byte>)
    requires src < U32 && dst < U32 && src' < U32 && dst' < U32 && |segment| < 65536 && TcpValid(src, dst, segment)
    ensures TcpValid(src', dst', segment)
            <==> (HalfSum(src') + HalfSum(dst')) % 65535 == (HalfSum(src) + HalfSum(dst)) % 65535
  {
    ValidIff(src, dst, segment);
    ValidIff(src', dst', segment);
    var rest := TcpSum(src, dst, segment) - HalfSum(src) - HalfSum(dst);
    assert TcpSum(src', dst', segment) == rest + (HalfSum(src') + HalfSum(dst'));
    hide TcpSum, HalfSum, TcpCompute;
    SameShift(rest, HalfSum(src) + HalfSum(dst), HalfSum(src') + HalfSum(dst'));
  }

  lemma SameShift(rest: int, a: nat, b: nat)
    requires (rest + a) % 65535 == 0
    ensures (rest + b) % 65535 == 0 <==> b % 65535 == a % 65535
  {
    var k, i, j := (rest + a) / 65535, a / 65535, b / 65535;
    DivisionUnique(rest + a, 65535, k, 0);
    if b % 65535 == a % 65535 {
      DivisionUnique(rest + b, 65535, k + j - i, 0);
    } else if (rest + b) % 65535 == 0 {
      var m := (rest + b) / 65535;
      DivisionUnique(b, 65535, m - k + i, a % 65535);
    }
  }

  lemma SmallShift(a: nat, b: nat, v: nat, w: nat)
    requires a % 65535 == 0 && v <= 65535 && w <= 65535 && b + v == a + w
    ensures b % 65535 == 0 <==> v == w || (w == 0 && v == 65535) || (w == 65535 && v == 0)
  {
    var k, j := a / 65535, b / 65535;
    assert a == 65535 * k && b == 65535 * j + b % 65535;
  }

  // ---------------------------------------------------------------------------------------
  // The code
  // ---------------------------------------------------------------------------------------

  /** Addition in a 32-bit accumulator. */
  function Add32(a: nat, b: nat): nat { (a + b) % U32 }

  lemma Add32Exact(a: nat, b: nat)
    requires a + b < U32
    ensures Add32(a, b) == a + b
  {
  }

  /** `checksum_accumulate`: the 32-bit accumulator never overflows on a 16-bit length. */
  method Accumulate(data: seq<Byte>) returns (sum: nat)
    requires |data| < 65536
    ensures sum == SumLe(data) < U32
  {
    hide Add32;
    sum := 0;
    var ptr: nat, length: nat := 0, |data|;
    SumBounds(data);
    assert data[0..] == data;
    while length > 1
      invariant ptr + length == |data|
      invariant sum + SumLe(data[ptr..]) == SumLe(data)
    {
      assert data[ptr..][2..] == data[ptr + 2..];
      Add32Exact(sum, LeWord(data[ptr], data[ptr + 1]));
      sum := Add32(sum, LeWord(data[ptr], data[ptr + 1]));
      ptr, length := ptr + 2, length - 2;
    }
    if length > 0 {
      Add32Exact(sum, data[ptr]);
      sum := Add32(sum, data[ptr]);
    }
  }

  /** `checksum_finalize`. */
  method FinalizeLoop(start: nat) returns (c: nat)
    ensures c == Finalize(start)
  {
    var sum := start;
    while sum / 65536 != 0
      invariant 0 <= sum && Fold(sum) == Fold(start)
      decreases sum
    {
      CarryCongruent(sum);
      sum := sum % 65536 + sum / 65536;
    }
    c := 65535 - sum;
  }

  /** What a 32-bit accumulator keeps of a sum. */
  function Low32(sum: nat): nat { sum % U32 }

  lemma Low32Add(a: nat, b: nat, rest: nat)
    ensures Low32(Add32(a, b) + rest) == Low32(a + (b + rest)) && Add32(a, b) < U32
  {
    var x := (a + b) % U32 + rest;
    DivisionUnique(a + b + rest, U32, (a + b) / U32 + x / U32, x % U32);
  }

  lemma Low32Exact(n: nat)
    ensures Low32(n) == n <==> n < U32
  {
  }

  lemma SumBeStep(data: seq<Byte>, ptr: nat)
    requires ptr <= |data|
    ensures SumBe(data[0..]) == SumBe(data)
    ensures ptr == |data| ==> SumBe(data[ptr..]) == 0
    ensures ptr + 1 == |data| ==> SumBe(data[ptr..]) == BeWord(data[ptr], 0)
    ensures ptr + 1 < |data| ==> SumBe(data[ptr..]) == BeWord(data[ptr], data[ptr + 1]) + SumBe(data[ptr + 2..])
  {
    assert data[0..] == data;
    assert ptr + 1 < |data| ==> data[ptr..][2..] == data[ptr + 2..];
  }

  /** `ipv4_checksum`: the checksum of the sum modulo 2^32, which is the checksum itself as long as
      the sum does not overflow, and so for every string of up to 131074 bytes, whose 65537 words add
      up to at most 2^32 - 1. */
  method Ipv4ChecksumLoop(data: seq<Byte>) returns (c: nat)
    ensures c == Finalize(Low32(SumBe(data)))
    ensures SumBe(data) < U32 || |data| <= 131074 ==> c == Ipv4Checksum(data)
  {
    hide Add32, Finalize, Low32, SumBe, BeWord;
    var sum: nat := 0;
    var ptr: nat, len: nat := 0, |data|;
    SumBounds(data);
    SumBeStep(data, 0);
    while len > 1
      invariant ptr + len == |data| && sum < U32
      invariant Low32(sum + SumBe(data[ptr..])) == Low32(SumBe(data))
    {
      SumBeStep(data, ptr);
      var word := BeWord(data[ptr], data[ptr + 1]);
      Low32Add(sum, word, SumBe(data[ptr + 2..]));
      sum := Add32(sum, word);
      ptr, len := ptr + 2, len - 2;
    }
    SumBeStep(data, ptr);
    if len == 1 {
      Low32Add(sum, BeWord(data[ptr], 0), 0);
      sum := Add32(sum, BeWord(data[ptr], 0));
    }
    Low32Exact(sum);
    Low32Exact(SumBe(data));
    c := FinalizeLoop(sum);
  }

  /** `tcp_compute_checksum`. */
  method TcpComputeLoop(src: nat, dst: nat, segment: seq<Byte>) returns (c: nat)
    requires src < U32 && dst < U32 && |segment| < 65536
    ensures c == TcpCompute(src, dst, segment)
  {
    hide Finalize, Add32;
    var sum: nat := src % 65536;
    Add32Exact(sum, src / 65536);
    sum := Add32(sum, src / 65536);
    Add32Exact(sum, dst % 65536);
    sum := Add32(sum, dst % 65536);
    Add32Exact(sum, dst / 65536);
    sum := Add32(sum, dst / 65536);
    Add32Exact(sum, Swap16(PROTO_TCP));
    sum := Add32(sum, Swap16(PROTO_TCP));
    Add32Exact(sum, Swap16(|segment|));
    sum := Add32(sum, Swap16(|segment|));
    assert sum == Pseudo(src, dst, |segment|) <= 6 * 65535;
    hide Pseudo;
    SumBounds(segment);
    var rest := Accumulate(segment);
    Add32Exact(sum, rest);
    sum := Add32(sum, rest);
    c := FinalizeLoop(sum);
  }
}
