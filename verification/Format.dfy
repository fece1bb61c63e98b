/** Decimal numerals and the bounded formatter `ksnprintf`. */
module Format {

  // ---------------------------------------------------------------------------------------
  // Decimal numerals
  // ---------------------------------------------------------------------------------------

  predicate IsDigit(c: char) { '0' <= c <= '9' }

  function Digit(d: nat): (c: char)
    requires d < 10
    ensures IsDigit(c) && c as int - '0' as int == d
  {
    '0' + d as char
  }

  /** The decimal numeral of `n`, most significant digit first. */
  function Digits(n: nat): (s: string)
    ensures |s| > 0 && forall i | 0 <= i < |s| :: IsDigit(s[i])
  {
    if n < 10 then [Digit(n)] else Digits(n / 10) + [Digit(n % 10)]
  }

  function DigitVal(c: char): nat
    requires IsDigit(c)
  {
    c as int - '0' as int
  }

  /** The value of a string of digits. */
  function Value(s: string): nat
    requires forall i | 0 <= i < |s| :: IsDigit(s[i])
  {
    if s == "" then 0 else Value(s[..|s| - 1]) * 10 + DigitVal(s[|s| - 1])
  }

  /** Numerals read back, and have no leading zero. */
  lemma {:induction false} DigitsReadBack(n: nat)
    ensures Value(Digits(n)) == n && (n > 0 ==> Digits(n)[0] != '0')
  {
    var s := Digits(n);
    if n < 10 {
      assert s[..|s| - 1] == "";
    } else {
      DigitsReadBack(n / 10);
      assert s[..|s| - 1] == Digits(n / 10);
    }
  }

  function Pow10(k: nat): nat { if k == 0 then 1 else 10 * Pow10(k - 1) }

  lemma {:induction false} DigitsLength(n: nat, k: nat)
    requires k > 0 && n < Pow10(k)
    ensures |Digits(n)| <= k
  {
    if n >= 10 { DigitsLength(n / 10, k - 1); }
  }

  /** A 32-bit number has at most ten digits, so the 16-byte scratch buffers suffice. */
  lemma DigitsFit(n: nat)
    requires n < 0x1_0000_0000
    ensures |Digits(n)| <= 10
  {
    assert Pow10(10) == 10_000_000_000;
    DigitsLength(n, 10);
  }

  function Reverse(s: string): (r: string)
    ensures |r| == |s| && forall i | 0 <= i < |s| :: r[i] == s[|s| - 1 - i]
  {
    seq(|s|, i requires 0 <= i < |s| => s[|s| - 1 - i])
  }

  /** What is still to be collected before the digits in hand. */
  function Pending(n: nat): string { if n > 0 then Digits(n) else "" }

  lemma PendingStep(n: nat, low: string)
    requires n > 0
    ensures Pending(n / 10) + Reverse(low + [Digit(n % 10)]) == Pending(n) + Reverse(low)
    ensures |Pending(n / 10)| + 1 == |Pending(n)|
  {
    assert Reverse(low + [Digit(n % 10)]) == [Digit(n % 10)] + Reverse(low);
    assert Pending(n) == Pending(n / 10) + [Digit(n % 10)];
  }

  /** The collecting loop: least significant digit first. */
  method CollectDigits(tmp: array<char>, number: nat) returns (len: nat)
    requires 0 < number < 0x1_0000_0000 && tmp.Length >= 16
    modifies tmp
    ensures len <= 10 && Reverse(tmp[..len]) == Digits(number)
  {
    DigitsFit(number);
    hide Digits, Reverse, Digit, Pow10;
    len := 0;
    var value: nat := number;
    assert Reverse(tmp[..0]) == "" && Pending(number) + "" == Pending(number);
    while value > 0
      invariant |Pending(value)| + len == |Digits(number)|
      invariant Pending(value) + Reverse(tmp[..len]) == Digits(number)
      decreases value
    {
      PendingStep(value, tmp[..len]);
      ghost var low := tmp[..len];
      tmp[len] := Digit(value % 10);
      assert tmp[..len + 1] == low + [Digit(value % 10)];
      len := len + 1;
      value := value / 10;
    }
    assert "" + Reverse(tmp[..len]) == Reverse(tmp[..len]);
  }

  /** `utoa_dec`: digits collected least significant first, then copied out in reverse. */
  method UtoaDec(buf: array<char>, number: nat) returns (len: nat)
    requires number < 0x1_0000_0000 && buf.Length >= 16
    modifies buf
    ensures 0 < len <= 10 && buf[..len] == Digits(number)
  {
    if number == 0 {
      buf[0] := '0';
      assert buf[..1] == ['0'];
      return 1;
    }
    var tmp := new char[16](_ => '0');
    len := CollectDigits(tmp, number);
    ghost var low := tmp[..len];
    for j := 0 to len
      invariant tmp[..len] == low && forall k | 0 <= k < j :: buf[k] == low[len - 1 - k]
    {
      buf[j] := tmp[len - j - 1];
    }
    assert buf[..len] == Reverse(low);
  }

  // ---------------------------------------------------------------------------------------
  // ksnprintf
  // ---------------------------------------------------------------------------------------

  datatype Arg = Unsigned(u: nat) | Signed(d: int) | Text(s: string)

  function SignedText(d: int): string {
    if d < 0 then "-" + Digits(-d) else Digits(d)
  }

  /** The characters before a terminator. */
  predicate CString(s: string) { forall i | 0 <= i < |s| :: s[i] != '\0' }

  /** The next argument is there and of the kind the directive asks for, in range; a string holds no
      terminator, and %d is not given the least 32-bit number. */
  predicate Suits(c: char, args: seq<Arg>) {
    match c
    case 'u' => args != [] && args[0].Unsigned? && args[0].u < 0x1_0000_0000
    case 'd' => args != [] && args[0].Signed? && -0x8000_0000 < args[0].d < 0x8000_0000
    case 's' => args != [] && args[0].Text? && CString(args[0].s)
    case _ => c != '\0'
  }

  /** What a directive contributes, and the arguments left after it. */
  function Contribution(c: char, args: seq<Arg>): string
    requires Suits(c, args)
  {
    match c
    case 'u' => Digits(args[0].u)
    case 'd' => SignedText(args[0].d)
    case 's' => args[0].s
    case _ => ""
  }

  function Rest(c: char, args: seq<Arg>): seq<Arg>
    requires Suits(c, args)
  {
    if c in {'u', 'd', 's'} then args[1..] else args
  }

  /** The arguments fit the directives, and the format does not end in a bare '%'. */
  predicate Fits(fmt: string, args: seq<Arg>)
    decreases |fmt|
  {
    if fmt == "" then true
    else if fmt[0] != '%' then fmt[0] != '\0' && Fits(fmt[1..], args)
    else |fmt| > 1 && Suits(fmt[1], args) && Fits(fmt[2..], Rest(fmt[1], args))
  }

  /** The ideal expansion, of any length. Unknown directives expand to nothing. */
  function Expand(fmt: string, args: seq<Arg>): string
    requires Fits(fmt, args)
    decreases |fmt|
  {
    if fmt == "" then ""
    else if fmt[0] != '%' then [fmt[0]] + Expand(fmt[1..], args)
    else Contribution(fmt[1], args) + Expand(fmt[2..], Rest(fmt[1], args))
  }

  /** The text of %d reads back: a minus sign exactly for negative numbers, then the magnitude, without a
      leading zero. */
  lemma SignedReadsBack(d: int)
    ensures var t := SignedText(d);
            var digits := if d < 0 then t[1..] else t;
            && (d < 0 <==> t[0] == '-')
            && (forall i | 0 <= i < |digits| :: IsDigit(digits[i]))
            && Value(digits) == (if d < 0 then -d else d) && (d != 0 ==> digits != "" && digits[0] != '0')
  {
    DigitsReadBack(if d < 0 then -d else d);
    hide Digits, Value;
    if d < 0 { assert SignedText(d)[1..] == Digits(-d); }
  }

  /** The number of arguments a format takes. */
  function Arity(fmt: string): nat {
    if fmt == "" then 0
    else if fmt[0] != '%' then Arity(fmt[1..])
    else if |fmt| == 1 then 0
    else (if fmt[1] in {'u', 'd', 's'} then 1 else 0) + Arity(fmt[2..])
  }

  /** What single pieces expand to: a character to itself, a directive to its argument's text, and a
      directive that the code does not know to nothing. */
  lemma ExpandPieces(c: char, n: nat, d: int, t: string)
    requires c != '\0' && n < 0x1_0000_0000 && -0x8000_0000 < d < 0x8000_0000 && CString(t)
    ensures c != '%' ==> Fits([c], []) && Expand([c], []) == [c] && Arity([c]) == 0
    ensures Fits("%u", [Unsigned(n)]) && Expand("%u", [Unsigned(n)]) == Digits(n) && Arity("%u") == 1
    ensures Fits("%d", [Signed(d)]) && Expand("%d", [Signed(d)]) == SignedText(d) && Arity("%d") == 1
    ensures Fits("%s", [Text(t)]) && Expand("%s", [Text(t)]) == t && Arity("%s") == 1
    ensures c !in {'u', 'd', 's'} ==> Fits(['%', c], []) && Expand(['%', c], []) == "" && Arity(['%', c]) == 0
  {
    hide Digits, SignedText;
  }

  /** `w` has been written of `ideal`, and `rest` is still to come unless there is no room left. */
  ghost predicate Written(w: string, rest: string, ideal: string, remaining: nat) {
    w <= ideal && (remaining > 0 ==> w + rest == ideal)
  }

  lemma WrittenMore(w: string, s: string, rest: string, ideal: string, remaining: nat, k: nat)
    requires Written(w, s + rest, ideal, remaining) && remaining > 0 && k <= |s| && k <= remaining
    requires k == |s| || k == remaining
    ensures Written(w + s[..k], rest, ideal, remaining - k)
  {
    assert w + (s + rest) == (w + s[..k]) + (s[k..] + rest);
    if k == |s| { assert s[k..] + rest == rest; }
  }

  /** Copies as much of `s` as there is room for. */
  method CopyBounded(out: array<char>, dst: nat, remaining: nat, s: string) returns (k: nat)
    requires dst + remaining < out.Length
    modifies out
    ensures k == (if |s| <= remaining then |s| else remaining)
    ensures out[..dst + k] == old(out[..dst]) + s[..k]
    ensures forall j | dst + k <= j < out.Length :: out[j] == old(out[j])
  {
    k := 0;
    while k < |s| && k < remaining
      invariant k <= |s| && k <= remaining
      invariant out[..dst] == old(out[..dst]) && out[dst..dst + k] == s[..k]
      invariant forall j | dst + k <= j < out.Length :: out[j] == old(out[j])
    {
      out[dst + k] := s[k];
      k := k + 1;
    }
  }

  function Room(s: string, remaining: nat): (k: nat)
    ensures k <= |s| && k <= remaining && (k == |s| || k == remaining)
  {
    if |s| <= remaining then |s| else remaining
  }

  /** %u */
  method PutUnsigned(out: array<char>, dst: nat, remaining: nat, n: nat) returns (k: nat)
    requires dst + remaining < out.Length && n < 0x1_0000_0000
    modifies out
    ensures k == Room(Digits(n), remaining) && out[..dst + k] == old(out[..dst]) + Digits(n)[..k]
    ensures forall j | dst + k <= j < out.Length :: out[j] == old(out[j])
  {
    hide Digits;
    var num := new char[16](_ => '0');
    var len := UtoaDec(num, n);
    k := CopyBounded(out, dst, remaining, num[..len]);
  }

  lemma SignFirst(before: string, digits: string, remaining: nat, k: nat)
    requires remaining > 0 && k == Room(digits, remaining - 1)
    ensures 1 + k == Room("-" + digits, remaining)
    ensures (before + "-") + digits[..k] == before + ("-" + digits)[..1 + k]
  {
    assert ("-" + digits)[..1 + k] == "-" + digits[..k];
  }

  /** A minus sign, and as much of the magnitude as fits. */
  method PutNegative(out: array<char>, dst: nat, remaining: nat, n: nat) returns (k: nat)
    requires dst + remaining < out.Length && n < 0x1_0000_0000 && remaining > 0
    modifies out
    ensures k == Room("-" + Digits(n), remaining) && out[..dst + k] == old(out[..dst]) + ("-" + Digits(n))[..k]
    ensures forall j | dst + k <= j < out.Length :: out[j] == old(out[j])
  {
    hide Digits, Room;
    ghost var before := out[..dst];
    out[dst] := '-';
    assert out[..dst + 1] == before + "-";
    k := PutUnsigned(out, dst + 1, remaining - 1, n);
    SignFirst(before, Digits(n), remaining, k);
    k := 1 + k;
  }

  /** %d: a minus sign if there is room for one, then the magnitude. */
  method PutSigned(out: array<char>, dst: nat, remaining: nat, d: int) returns (k: nat)
    requires dst + remaining < out.Length && -0x8000_0000 < d < 0x8000_0000 && remaining > 0
    modifies out
    ensures k == Room(SignedText(d), remaining) && out[..dst + k] == old(out[..dst]) + SignedText(d)[..k]
    ensures forall j | dst + k <= j < out.Length :: out[j] == old(out[j])
  {
    hide Digits, Room;
    if d < 0 {
      k := PutNegative(out, dst, remaining, -d);
    } else {
      k := PutUnsigned(out, dst, remaining, d);
    }
  }

  lemma LiteralFirst(fmt: string, args: seq<Arg>)
    requires fmt != "" && fmt[0] != '%'
    ensures Fits(fmt, args) <==> fmt[0] != '\0' && Fits(fmt[1..], args)
    ensures Fits(fmt, args) ==> Expand(fmt, args) == [fmt[0]] + Expand(fmt[1..], args)
    ensures Arity(fmt) == Arity(fmt[1..])
  {
  }

  lemma DirectiveFirst(fmt: string, args: seq<Arg>)
    requires |fmt| > 1 && fmt[0] == '%'
    ensures Fits(fmt, args) <==> Suits(fmt[1], args) && Fits(fmt[2..], Rest(fmt[1], args))
    ensures Fits(fmt, args) ==> Expand(fmt, args) == Contribution(fmt[1], args) + Expand(fmt[2..], Rest(fmt[1], args))
    ensures Arity(fmt) == (if fmt[1] in {'u', 'd', 's'} then 1 else 0) + Arity(fmt[2..])
  {
  }

  /** Formats compose: two formats in a row expand to their expansions in a row, the arguments being
      handed out from left to right. With the single pieces this settles every expansion. */
  lemma {:induction false} ExpandAppend(a: string, x: seq<Arg>, b: string, y: seq<Arg>)
    requires Fits(a, x) && |x| == Arity(a) && Fits(b, y)
    ensures Fits(a + b, x + y) && Expand(a + b, x + y) == Expand(a, x) + Expand(b, y)
    decreases |a|
  {
    if a == "" {
      AppendToNothing(a, x, b, y);
    } else if a[0] != '%' {
      hide Fits, Expand, Arity;
      assert (a + b)[1..] == a[1..] + b;
      LiteralFirst(a, x);
      ExpandAppend(a[1..], x, b, y);
      LiteralFirst(a + b, x + y);
      Associative([a[0]], Expand(a[1..], x), Expand(b, y));
    } else {
      DirectiveLength(a, x);
      hide Fits, Expand, Arity, Contribution, Suits;
      DirectiveFirst(a, x);
      assert (a + b)[2..] == a[2..] + b && (a + b)[1] == a[1];
      FirstArgument(a[1], x, y);
      ExpandAppend(a[2..], Rest(a[1], x), b, y);
      DirectiveFirst(a + b, x + y);
      Associative(Contribution(a[1], x), Expand(a[2..], Rest(a[1], x)), Expand(b, y));
    }
  }

  lemma AppendToNothing(a: string, x: seq<Arg>, b: string, y: seq<Arg>)
    requires a == "" && x == [] && Fits(b, y)
    ensures Fits(a, x) && Fits(a + b, x + y) && Expand(a + b, x + y) == Expand(a, x) + Expand(b, y)
  {
    assert a + b == b && x + y == y;
    ExpandEmpty(x);
    hide Expand, Fits;
    assert "" + Expand(b, y) == Expand(b, y);
  }

  lemma DirectiveLength(fmt: string, args: seq<Arg>)
    requires Fits(fmt, args) && fmt != "" && fmt[0] == '%'
    ensures |fmt| > 1
  {
  }

  /** More arguments behind do not change what a directive takes. */
  lemma FirstArgument(c: char, x: seq<Arg>, y: seq<Arg>)
    requires Suits(c, x)
    ensures Suits(c, x + y) && Rest(c, x + y) == Rest(c, x) + y && Contribution(c, x + y) == Contribution(c, x)
    ensures c in {'u', 'd', 's'} ==> |Rest(c, x)| == |x| - 1
  {
    hide Digits, SignedText;
    if c in {'u', 'd', 's'} { assert (x + y)[1..] == x[1..] + y; }
  }

  lemma Associative(p: string, q: string, r: string)
    ensures p + (q + r) == (p + q) + r
  {
  }

  /** One directive, after its '%': writes its contribution as far as it fits. */
  method PutDirective(out: array<char>, dst: nat, remaining: nat, c: char, args: seq<Arg>) returns (k: nat)
    requires dst + remaining < out.Length && remaining > 0 && Suits(c, args)
    modifies out
    ensures k == Room(Contribution(c, args), remaining)
    ensures out[..dst + k] == old(out[..dst]) + Contribution(c, args)[..k]
    ensures forall j | dst + k <= j < out.Length :: out[j] == old(out[j])
  {
    hide Digits, SignedText;
    if c == 'u' {
      k := PutUnsigned(out, dst, remaining, args[0].u);
    } else if c == 'd' {
      k := PutSigned(out, dst, remaining, args[0].d);
    } else if c == 's' {
      k := CopyBounded(out, dst, remaining, args[0].s);
    } else {
      k := 0;
    }
  }

  lemma ExpandEmpty(args: seq<Arg>)
    ensures Fits("", args) && Expand("", args) == ""
  {
  }

  lemma WrittenStart(ideal: string, remaining: nat)
    ensures Written("", ideal, ideal, remaining)
  {
    assert "" + ideal == ideal;
  }

  lemma WrittenEnd(w: string, rest: string, ideal: string, remaining: nat)
    requires Written(w, rest, ideal, remaining) && (remaining > 0 ==> rest == "")
    ensures |w| == Room(ideal, |w| + remaining) && w == ideal[..|w|]
  {
    assert w + "" == w;
  }

  /** One turn of the loop at an ordinary character. */
  method PutLiteral(out: array<char>, dst: nat, remaining: nat, fmt: string, args: seq<Arg>, ghost ideal: string)
    requires dst + remaining < out.Length && remaining > 0 && Fits(fmt, args) && fmt != "" && fmt[0] != '%'
    requires Written(out[..dst], Expand(fmt, args), ideal, remaining)
    modifies out
    ensures Fits(fmt[1..], args) && Written(out[..dst + 1], Expand(fmt[1..], args), ideal, remaining - 1)
    ensures forall j | dst + 1 <= j < out.Length :: out[j] == old(out[j])
  {
    hide Fits, Expand, Written;
    LiteralFirst(fmt, args);
    ghost var w := out[..dst];
    WrittenMore(w, [fmt[0]], Expand(fmt[1..], args), ideal, remaining, 1);
    out[dst] := fmt[0];
    assert out[..dst + 1] == w + [fmt[0]][..1];
  }

  /** One turn of the loop at a directive. */
  method PutNext(out: array<char>, dst: nat, remaining: nat, fmt: string, args: seq<Arg>, ghost ideal: string) returns (k: nat)
    requires dst + remaining < out.Length && remaining > 0 && Fits(fmt, args) && fmt != "" && fmt[0] == '%'
    requires Written(out[..dst], Expand(fmt, args), ideal, remaining)
    modifies out
    ensures |fmt| > 1 && Suits(fmt[1], args) && k <= remaining
    ensures Fits(fmt[2..], Rest(fmt[1], args))
    ensures Written(out[..dst + k], Expand(fmt[2..], Rest(fmt[1], args)), ideal, remaining - k)
    ensures forall j | dst + k <= j < out.Length :: out[j] == old(out[j])
  {
    DirectiveLength(fmt, args);
    hide Fits, Expand, Digits, SignedText, Contribution, Suits, Written, Room;
    DirectiveFirst(fmt, args);
    ghost var s := Contribution(fmt[1], args);
    WrittenMore(out[..dst], s, Expand(fmt[2..], Rest(fmt[1], args)), ideal, remaining, Room(s, remaining));
    k := PutDirective(out, dst, remaining, fmt[1], args);
  }

  /** The formatting loop, over a buffer with room for at least the terminator. */
  method FormatInto(out: array<char>, outSize: nat, format: string, arguments: seq<Arg>) returns (dst: nat)
    requires Fits(format, arguments) && 0 < outSize <= out.Length
    modifies out
    ensures var ideal := Expand(format, arguments);
            dst == Room(ideal, outSize - 1) && out[..dst] == ideal[..dst]
    ensures forall j | dst <= j < out.Length :: out[j] == old(out[j])
  {
    hide Fits, Expand, Digits, SignedText, Contribution, Written, Room;
    ghost var ideal := Expand(format, arguments);
    dst := 0;
    var remaining: nat, fmt, args := outSize - 1, format, arguments;
    WrittenStart(ideal, remaining);
    assert out[..0] == "";
    while fmt != "" && remaining > 0
      invariant dst + remaining == outSize - 1 && Fits(fmt, args)
      invariant Written(out[..dst], Expand(fmt, args), ideal, remaining)
      invariant forall j | dst <= j < out.Length :: out[j] == old(out[j])
      decreases |fmt|
    {
      if fmt[0] != '%' {
        PutLiteral(out, dst, remaining, fmt, args, ideal);
        dst, remaining, fmt := dst + 1, remaining - 1, fmt[1..];
      } else {
        var k := PutNext(out, dst, remaining, fmt, args, ideal);
        dst, remaining, fmt, args := dst + k, remaining - k, fmt[2..], Rest(fmt[1], args);
      }
    }
    ExpandEmpty(args);
    WrittenEnd(out[..dst], Expand(fmt, args), ideal, remaining);
  }

  /** `ksnprintf`: writes exactly the first `outSize - 1` characters of the ideal expansion and a
      terminator, touches nothing after it, and returns the number of characters written. */
  method Ksnprintf(out: array?<char>, outSize: nat, format: string, arguments: seq<Arg>) returns (n: nat)
    requires Fits(format, arguments) && (out != null ==> outSize <= out.Length)
    modifies out
    ensures out == null || outSize == 0 ==> n == 0
    ensures out != null && outSize == 0 ==> out[..] == old(out[..])
    ensures out != null && outSize > 0 ==>
              var ideal := Expand(format, arguments);
              && n == Room(ideal, outSize - 1) && out[..n] == ideal[..n] && out[n] == '\0'
              && forall j | n < j < out.Length :: out[j] == old(out[j])
  {
    hide Fits, Expand;
    if out == null || outSize == 0 { return 0; }
    n := FormatInto(out, outSize, format, arguments);
    out[n] := '\0';
  }
}
