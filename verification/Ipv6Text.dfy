/** Printing IPv6 addresses with `::` compression, and reading them back. */
module Ipv6Text {
  import opened Arith
  import opened Bytes

  // ---------------------------------------------------------------------------------------
  // Groups of hexadecimal digits
  // ---------------------------------------------------------------------------------------

  const HEX := "0123456789abcdef"

  function HexDigit(d: nat): (c: char)
    requires d < 16
    ensures '0' <= c <= '9' || 'a' <= c <= 'f'
  {
    HEX[d]
  }

  /** The four digits `uart_print_hex16` prints. */
  function Hex4(w: nat): (s: string)
    ensures |s| == 4 && forall i | 0 <= i < 4 :: '0' <= s[i] <= '9' || 'a' <= s[i] <= 'f'
  {
    [HexDigit(w / 4096 % 16), HexDigit(w / 256 % 16), HexDigit(w / 16 % 16), HexDigit(w % 16)]
  }

  predicate IsHex(c: char) { '0' <= c <= '9' || 'a' <= c <= 'f' || 'A' <= c <= 'F' }

  function HexVal(c: char): (v: nat)
    requires IsHex(c)
    ensures v < 16
  {
    if '0' <= c <= '9' then c as int - '0' as int
    else if 'a' <= c <= 'f' then c as int - 'a' as int + 10
    else c as int - 'A' as int + 10
  }

  /** Number of leading hexadecimal digits. */
  function HexPrefix(s: string): (n: nat)
    ensures n <= |s| && forall i | 0 <= i < n :: IsHex(s[i])
  {
    if s != "" && IsHex(s[0]) then 1 + HexPrefix(s[1..]) else 0
  }

  function HexValue(s: string): nat
    requires forall i | 0 <= i < |s| :: IsHex(s[i])
  {
    if s == "" then 0 else HexValue(s[..|s| - 1]) * 16 + HexVal(s[|s| - 1])
  }

  // ---------------------------------------------------------------------------------------
  // A reader for the text forms of section 2.2 of RFC 4291
  // ---------------------------------------------------------------------------------------

  datatype Option<T> = None | Some(value: T)

  /** `h16 (":" h16)*`, each group of one to four digits. */
  function ReadGroups(s: string): Option<seq<nat>>
    decreases |s|
  {
    var n := HexPrefix(s);
    if n == 0 || n > 4 then None
    else if n == |s| then Some([HexValue(s)])
    else if s[n] != ':' then None
    else
      match ReadGroups(s[n + 1..])
      case None => None
      case Some(rest) => Some([HexValue(s[..n])] + rest)
  }

  function ReadMaybe(s: string): Option<seq<nat>> { if s == "" then Some([]) else ReadGroups(s) }

  /** Position of the first `::`, or the length. */
  function Double(s: string): (i: nat)
    ensures i <= |s| && (i + 1 < |s| ==> s[i] == ':' == s[i + 1]) && i + 1 != |s|
  {
    if |s| == 0 then 0
    else if |s| == 1 then 1
    else if s[0] == ':' == s[1] then 0
    else 1 + Double(s[1..])
  }

  function Zeros(n: nat): (z: seq<nat>)
    ensures |z| == n && forall i | 0 <= i < n :: z[i] == 0
  {
    seq(n, _ => 0)
  }

  /** Eight groups, or fewer around one `::` that stands for the missing zero groups. */
  function ReadAddress(s: string): Option<seq<nat>> {
    var d := Double(s);
    if d == |s| then
      match ReadGroups(s)
      case Some(ws) => if |ws| == 8 then Some(ws) else None
      case None => None
    else
      match (ReadMaybe(s[..d]), ReadMaybe(s[d + 2..]))
      case (Some(a), Some(b)) => if |a| + |b| < 8 then Some(a + Zeros(8 - |a| - |b|) + b) else None
      case _ => None
  }

  // ---------------------------------------------------------------------------------------
  // The printer
  // ---------------------------------------------------------------------------------------

  /** Number of zero words from `i` on. */
  function RunLen(ws: seq<nat>, i: nat): (n: nat)
    requires i <= |ws|
    ensures i + n <= |ws| && forall j | i <= j < i + n :: ws[j] == 0
    decreases |ws| - i
  {
    if i < |ws| && ws[i] == 0 then 1 + RunLen(ws, i + 1) else 0
  }

  /** `len` is the length of a longest zero run and `start` the first place where one begins;
      without any zero word, `len` is 0 and `start` is -1. */
  ghost predicate FirstLongest(ws: seq<nat>, start: int, len: nat) {
    && (forall j | 0 <= j < |ws| :: RunLen(ws, j) <= len)
    && if len == 0 then start == -1
       else 0 <= start < |ws| && RunLen(ws, start) == len && forall j | 0 <= j < start :: RunLen(ws, j) < len
  }

  /** What the printing loop emits from word `i` on, compressing `[start, start + len)`. */
  function Print(ws: seq<nat>, start: int, len: nat, i: nat): string
    requires start >= 0 ==> len > 0
    decreases |ws| - i
  {
    if i >= |ws| then ""
    else if i == start then "::" + Print(ws, start, len, i + len)
    else Hex4(ws[i]) + (if i != |ws| - 1 && i + 1 != start then ":" else "") + Print(ws, start, len, i + 1)
  }

  function Join(ws: seq<nat>): string {
    if ws == [] then ""
    else if |ws| == 1 then Hex4(ws[0])
    else Hex4(ws[0]) + ":" + Join(ws[1..])
  }

  // ---------------------------------------------------------------------------------------
  // Reading back what was printed
  // ---------------------------------------------------------------------------------------

  lemma HexDigitBack(d: nat)
    requires d < 16
    ensures IsHex(HexDigit(d)) && HexVal(HexDigit(d)) == d
  {
  }

  lemma Nibbles(w: nat)
    requires w < 0x1_0000
    ensures w == ((w / 4096 % 16 * 16 + w / 256 % 16) * 16 + w / 16 % 16) * 16 + w % 16
  {
    assert w / 256 == w / 4096 * 16 + w / 256 % 16;
    assert w / 16 == w / 256 * 16 + w / 16 % 16;
  }

  lemma Hex4Back(w: nat)
    requires w < 0x1_0000
    ensures (forall i | 0 <= i < 4 :: IsHex(Hex4(w)[i])) && HexValue(Hex4(w)) == w
  {
    HexDigitBack(w / 4096 % 16);
    HexDigitBack(w / 256 % 16);
    HexDigitBack(w / 16 % 16);
    HexDigitBack(w % 16);
    Nibbles(w);
    var s := Hex4(w);
    assert s[..3][..2] == s[..2] && s[..3][..2][..1] == s[..1] && s[..1][..0] == "";
    HexValue4(s);
  }

  lemma HexValue4(s: string)
    requires |s| == 4 && forall i | 0 <= i < 4 :: IsHex(s[i])
    ensures HexValue(s) == ((HexVal(s[0]) * 16 + HexVal(s[1])) * 16 + HexVal(s[2])) * 16 + HexVal(s[3])
  {
    var s3, s2, s1 := s[..3], s[..2], s[..1];
    assert s3[..2] == s2 && s2[..1] == s1 && s1[..0] == "";
    assert HexValue(s1) == HexVal(s[0]);
    assert HexValue(s2) == HexVal(s[0]) * 16 + HexVal(s[1]);
    assert HexValue(s3) == HexValue(s2) * 16 + HexVal(s[2]);
  }

  /** A group is read up to the colon or the end of the text. */
  lemma PrefixOfGroup(w: nat, t: string)
    requires w < 0x1_0000 && (t == "" || !IsHex(t[0]))
    ensures HexPrefix(Hex4(w) + t) == 4
  {
    Hex4Back(w);
    hide Hex4, HexValue;
    var s := Hex4(w) + t;
    assert s[1..][1..][1..][1..] == t;
    assert HexPrefix(t) == 0;
    assert HexPrefix(s[1..][1..][1..]) == 1;
    assert HexPrefix(s[1..][1..]) == 2;
    assert HexPrefix(s[1..]) == 3;
  }

  ghost predicate Words(ws: seq<nat>) { forall i | 0 <= i < |ws| :: ws[i] < 0x1_0000 }

  lemma {:induction false} GroupsBack(ws: seq<nat>)
    requires Words(ws) && ws != []
    ensures ReadGroups(Join(ws)) == Some(ws)
  {
    hide Hex4, IsHex;
    ColonIsNotHex();
    Hex4Back(ws[0]);
    var g := Hex4(ws[0]);
    if |ws| == 1 {
      assert g + "" == g;
      PrefixOfGroup(ws[0], "");
      assert ws == [ws[0]];
    } else {
      var t := ":" + Join(ws[1..]);
      assert Join(ws) == g + t;
      PrefixOfGroup(ws[0], t);
      GroupsBack(ws[1..]);
      assert (g + t)[4 + 1..] == Join(ws[1..]) && (g + t)[..4] == g && (g + t)[4] == ':';
      assert [ws[0]] + ws[1..] == ws;
    }
  }

  lemma ColonIsNotHex()
    ensures !IsHex(':')
  {
  }

  lemma DoubleSkips(c: char, t: string)
    requires c != ':' || (t != "" && t[0] != ':')
    ensures Double([c] + t) == 1 + Double(t)
  {
    assert ([c] + t)[1..] == t;
  }

  lemma {:induction false} DoubleSkipsText(g: string, t: string)
    requires forall i | 0 <= i < |g| :: g[i] != ':'
    ensures Double(g + t) == |g| + Double(t)
  {
    if g == "" {
      assert g + t == t;
    } else {
      assert g + t == [g[0]] + (g[1..] + t);
      DoubleSkips(g[0], g[1..] + t);
      DoubleSkipsText(g[1..], t);
    }
  }

  lemma DoubleSkipsGroup(w: nat, t: string)
    requires w < 0x1_0000
    ensures Double(Hex4(w) + t) == 4 + Double(t)
  {
    Hex4Back(w);
    ColonIsNotHex();
    hide Hex4, HexValue, Double, IsHex;
    DoubleSkipsText(Hex4(w), t);
  }

  lemma JoinStart(ws: seq<nat>)
    requires Words(ws) && ws != []
    ensures Join(ws) != "" && Join(ws)[0] != ':'
  {
    Hex4Back(ws[0]);
    assert IsHex(Hex4(ws[0])[0]);
  }

  lemma JoinMore(ws: seq<nat>, t: string)
    requires Words(ws) && |ws| >= 2
    ensures Join(ws) + t == Hex4(ws[0]) + ([':'] + (Join(ws[1..]) + t))
  {
    hide Hex4;
    var g, j := Hex4(ws[0]), Join(ws[1..]);
    assert Join(ws) == g + ":" + j;
    hide Join;
    ColonBetween(g, j, t);
  }

  lemma ColonBetween(g: string, j: string, t: string)
    ensures (g + ":" + j) + t == g + ([':'] + (j + t))
  {
  }

  /** The first `::` after some groups is the one put there. */
  lemma {:induction false} DoubleAfter(ws: seq<nat>, t: string)
    requires Words(ws) && (t == "" || (|t| >= 2 && t[0] == ':' == t[1]))
    ensures Double(Join(ws) + t) == |Join(ws)|
  {
    hide Hex4;
    if ws == [] {
      assert "" + t == t;
    } else if |ws| == 1 {
      DoubleSkipsGroup(ws[0], t);
    } else {
      var rest := Join(ws[1..]) + t;
      JoinMore(ws, t);
      DoubleSkipsGroup(ws[0], [':'] + rest);
      JoinStart(ws[1..]);
      DoubleSkips(':', rest);
      DoubleAfter(ws[1..], t);
    }
  }

  /** Past the compressed run, or without one, the loop prints plain groups. */
  lemma {:induction false} PrintPlain(ws: seq<nat>, start: int, len: nat, i: nat)
    requires start >= 0 ==> len > 0
    requires i <= |ws| && start < i
    ensures Print(ws, start, len, i) == Join(ws[i..])
    decreases |ws| - i
  {
    hide Hex4;
    if i < |ws| {
      PrintPlain(ws, start, len, i + 1);
      assert ws[i..][1..] == ws[i + 1..];
      if i == |ws| - 1 {
        assert Hex4(ws[i]) + "" + "" == Hex4(ws[i]);
      }
    }
  }

  lemma {:induction false} PrintAround(ws: seq<nat>, start: nat, len: nat, i: nat)
    requires 0 < len && start + len <= |ws| && i <= start
    ensures Print(ws, start, len, i) == Join(ws[i..start]) + "::" + Join(ws[start + len..])
    decreases start - i
  {
    hide Hex4;
    if i == start {
      PrintPlain(ws, start, len, start + len);
      assert ws[i..start] == [];
      assert "" + "::" == "::";
    } else {
      PrintAround(ws, start, len, i + 1);
      assert ws[i..start][1..] == ws[i + 1..start];
      var tail := "::" + Join(ws[start + len..]);
      if i + 1 == start {
        assert ws[i + 1..start] == [] && ws[i..start] == [ws[i]];
        assert Hex4(ws[i]) + "" + ("" + "::" + Join(ws[start + len..])) == Hex4(ws[i]) + "::" + Join(ws[start + len..]);
      } else {
        assert Hex4(ws[i]) + ":" + (Join(ws[i + 1..start]) + "::" + Join(ws[start + len..]))
            == (Hex4(ws[i]) + ":" + Join(ws[i + 1..start])) + "::" + Join(ws[start + len..]);
      }
    }
  }

  lemma ReadMaybeBack(ws: seq<nat>)
    requires Words(ws)
    ensures ReadMaybe(Join(ws)) == Some(ws)
  {
    if ws != [] {
      GroupsBack(ws);
      JoinStart(ws);
    }
  }

  /** Whatever zero run is compressed, or none, the text reads back as the same eight words. */
  lemma PrintReadsBack(ws: seq<nat>, start: int, len: nat)
    requires |ws| == 8 && Words(ws) && (start >= 0 ==> len > 0)
    requires start >= 0 ==> start + len <= 8 && forall j | start <= j < start + len :: ws[j] == 0
    ensures ReadAddress(Print(ws, start, len, 0)) == Some(ws)
  {
    hide Hex4, ReadGroups, ReadMaybe, Double, Join, Print;
    if start < 0 {
      PrintPlain(ws, start, len, 0);
      assert ws[0..] == ws;
      DoubleAfter(ws, "");
      assert Join(ws) + "" == Join(ws);
      GroupsBack(ws);
    } else {
      PrintAround(ws, start, len, 0);
      var a, b := ws[0..start], ws[start + len..];
      var t := "::" + Join(b);
      var s := Print(ws, start, len, 0);
      assert s == Join(a) + t;
      DoubleAfter(a, t);
      assert s[..|Join(a)|] == Join(a) && s[|Join(a)| + 2..] == Join(b);
      ReadMaybeBack(a);
      ReadMaybeBack(b);
      assert a + Zeros(8 - |a| - |b|) + b == ws;
    }
  }

  // ---------------------------------------------------------------------------------------
  // The code
  // ---------------------------------------------------------------------------------------

  /** Inside a run, what is left of it gets shorter by one each step. */
  lemma {:induction false} RunLenInside(ws: seq<nat>, i: nat, j: nat)
    requires i <= j <= |ws| && forall k | i <= k < j :: ws[k] == 0
    requires j == |ws| || ws[j] != 0
    ensures RunLen(ws, i) == j - i
    decreases j - i
  {
    if i < j { RunLenInside(ws, i + 1, j); }
  }

  /** The search so far: like `FirstLongest`, for runs that start before `i`. */
  ghost predicate LongestBefore(ws: seq<nat>, i: nat, start: int, len: nat)
    requires i <= |ws|
  {
    && (forall j | 0 <= j < i :: RunLen(ws, j) <= len)
    && if len == 0 then start == -1
       else 0 <= start < i && RunLen(ws, start) == len && forall j | 0 <= j < start :: RunLen(ws, j) < len
  }

  /** The zero-run search. */
  method FindLongest(ws: seq<nat>) returns (bestStart: int, bestLen: nat)
    ensures FirstLongest(ws, bestStart, bestLen)
  {
    bestStart, bestLen := -1, 0;
    var i: nat := 0;
    while i < |ws|
      invariant i <= |ws| && LongestBefore(ws, i, bestStart, bestLen)
    {
      if ws[i] == 0 {
        var j: nat := i;
        while j < |ws| && ws[j] == 0
          invariant i <= j <= |ws| && forall k | i <= k < j :: ws[k] == 0
        {
          j := j + 1;
        }
        var len := j - i;
        forall k | i <= k < j ensures RunLen(ws, k) == j - k { RunLenInside(ws, k, j); }
        if len > bestLen {
          bestLen := len;
          bestStart := i;
        }
        i := j;
      } else {
        i := i + 1;
      }
    }
  }

  /** Word `i` of an address: two bytes, the first one high. */
  function AddressWord(addr: seq<Byte>, i: nat): (w: nat)
    requires 2 * i + 1 < |addr|
    ensures w < 0x1_0000
  {
    addr[2 * i] as int * 256 + addr[2 * i + 1]
  }

  /** The eight words of an address. */
  function AddressWords(addr: seq<Byte>): seq<nat>
    requires |addr| == 16
  {
    seq(8, i requires 0 <= i < 8 => AddressWord(addr, i))
  }

  /** Only one run is the first longest one. */
  lemma FirstLongestUnique(ws: seq<nat>, start: int, len: nat, start': int, len': nat)
    requires FirstLongest(ws, start, len) && FirstLongest(ws, start', len')
    ensures start == start' && len == len'
  {
  }

  method ToWords(addr: seq<Byte>) returns (words: seq<nat>)
    requires |addr| == 16
    ensures words == AddressWords(addr) && Words(words)
  {
    hide AddressWord;
    words := [];
    for i := 0 to 8
      invariant |words| == i && Words(words) && forall j | 0 <= j < i :: words[j] == AddressWord(addr, j)
    {
      words := words + [AddressWord(addr, i)];
    }
  }

  /** The printing loop. */
  method Emit(words: seq<nat>, bestStart: int, bestLen: nat) returns (out: string)
    requires |words| == 8 && (bestStart >= 0 ==> bestLen > 0)
    ensures out == Print(words, bestStart, bestLen, 0)
  {
    hide Hex4, Print;
    out := "";
    assert out + Print(words, bestStart, bestLen, 0) == Print(words, bestStart, bestLen, 0);
    var i: nat := 0;
    while i < 8
      invariant out + Print(words, bestStart, bestLen, i) == Print(words, bestStart, bestLen, 0)
      decreases 8 - i
    {
      ghost var before, rest := out, Print(words, bestStart, bestLen, i);
      PrintStep(words, bestStart, bestLen, i);
      ghost var piece := Piece(words, bestStart, i);
      if i == bestStart {
        out := out + "::";
        i := i + bestLen;
      } else {
        out := out + Hex4(words[i]);
        if i != 7 && i + 1 != bestStart {
          out := out + ":";
        }
        i := i + 1;
      }
      assert out == before + piece;
      assert before + (piece + Print(words, bestStart, bestLen, i)) == (before + piece) + Print(words, bestStart, bestLen, i);
    }
    PrintEnd(words, bestStart, bestLen, i);
    assert out + "" == out;
  }

  function Piece(ws: seq<nat>, start: int, i: nat): string
    requires i < |ws|
  {
    if i == start then "::" else Hex4(ws[i]) + (if i != |ws| - 1 && i + 1 != start then ":" else "")
  }

  lemma PrintStep(ws: seq<nat>, start: int, len: nat, i: nat)
    requires i < |ws| && (start >= 0 ==> len > 0)
    ensures Print(ws, start, len, i) == Piece(ws, start, i) + Print(ws, start, len, if i == start then i + len else i + 1)
  {
    hide Hex4;
  }

  lemma PrintEnd(ws: seq<nat>, start: int, len: nat, i: nat)
    requires i >= |ws| && (start >= 0 ==> len > 0)
    ensures Print(ws, start, len, i) == ""
  {
  }

  /** The sixteen bytes, as eight words with the first byte high. */
  ghost predicate SameBytes(words: seq<nat>, addr: seq<Byte>)
    requires |addr| == 16
  {
    |words| == 8 && forall i | 0 <= i < 8 :: words[i] / 256 == addr[2 * i] && words[i] % 256 == addr[2 * i + 1]
  }

  lemma WordsAreBytes(addr: seq<Byte>)
    requires |addr| == 16
    ensures SameBytes(AddressWords(addr), addr)
  {
    forall i | 0 <= i < 8
      ensures AddressWords(addr)[i] / 256 == addr[2 * i] && AddressWords(addr)[i] % 256 == addr[2 * i + 1]
    {
      DivisionUnique(AddressWord(addr, i), 256, addr[2 * i], addr[2 * i + 1]);
    }
  }

  /** Groups joined by single colons, around one `::` if a run is compressed. */
  function Text(ws: seq<nat>, start: int, len: nat): string
    requires start >= 0 ==> start + len <= |ws|
  {
    if start < 0 then Join(ws) else Join(ws[..start]) + "::" + Join(ws[start + len..])
  }

  lemma PrintIsText(ws: seq<nat>, start: int, len: nat)
    requires start >= 0 ==> 0 < len && start + len <= |ws|
    ensures Print(ws, start, len, 0) == Text(ws, start, len)
  {
    if start < 0 {
      PrintPlain(ws, start, len, 0);
      assert ws[0..] == ws;
    } else {
      PrintAround(ws, start, len, 0);
      assert ws[0..start] == ws[..start];
    }
    hide Print, Join;
  }

  /** `print_ipv6`: the text compresses the first longest zero run when it has at least two words
      (section 4.2 of RFC 5952), nothing otherwise, and reads back as the sixteen bytes. */
  method PrintIpv6(addr: seq<Byte>) returns (out: string)
    requires |addr| == 16
    ensures ReadAddress(out).Some? && SameBytes(ReadAddress(out).value, addr)
    ensures forall start: int, len: nat | FirstLongest(ReadAddress(out).value, start, len) ::
              start + len <= 8 && out == Text(ReadAddress(out).value, if len < 2 then -1 else start, len)
  {
    hide Hex4, AddressWords, Print, ReadAddress, FirstLongest, Text, SameBytes;
    WordsAreBytes(addr);
    var words := ToWords(addr);
    assert |words| == 8 by { WordCount(addr); }
    var bestStart, bestLen := FindLongest(words);
    LongestIsRun(words, bestStart, bestLen);
    forall start: int, len: nat | FirstLongest(words, start, len) ensures start == bestStart && len == bestLen {
      FirstLongestUnique(words, start, len, bestStart, bestLen);
    }
    var from := if bestLen < 2 then -1 else bestStart;
    out := Emit(words, from, bestLen);
    PrintIsText(words, from, bestLen);
    PrintReadsBack(words, from, bestLen);
  }

  lemma WordCount(addr: seq<Byte>)
    requires |addr| == 16
    ensures |AddressWords(addr)| == 8
  {
  }

  lemma LongestIsRun(ws: seq<nat>, start: int, len: nat)
    requires FirstLongest(ws, start, len)
    ensures len > 0 ==> 0 <= start && start + len <= |ws| && forall j | start <= j < start + len :: ws[j] == 0
  {
  }
}
