/** Printing (src/cc_print.c, include/cc_print.h) and parsing (src/cc_bstring.c) of 64-bit integers. */
module Print {
  import opened Bytes
  import opened Digits

  const INT64_MIN: int := -0x8000_0000_0000_0000
  const INT64_MAX: int := 0x7FFF_FFFF_FFFF_FFFF

  // ------------------------------------------------------------------
  // Counting digits
  // ------------------------------------------------------------------

  const BASE10: seq<nat> := [
    0, 10, 100, 1000, 10000, 100000, 1000000, 10000000, 100000000, 1000000000,
    10000000000, 100000000000, 1000000000000, 10000000000000, 100000000000000,
    1000000000000000, 10000000000000000, 100000000000000000, 1000000000000000000, 10000000000000000000]

  lemma {:induction false} TableIsPow10(d: nat)
    requires 1 <= d < 20
    ensures BASE10[d] == Pow10(d)
  {
    if d > 1 {
      TableIsPow10(d - 1);
      assert BASE10[d] == 10 * BASE10[d - 1];
    }
  }

  /** The search of `digits`; None is a read past the table. */
  function Search(n: nat, d: nat): Option<nat>
    requires 1 <= d
    decreases 20 - d
  {
    if d >= 20 then None else if n >= BASE10[d] then Search(n, d + 1) else Some(d)
  }

  lemma {:induction false} SearchIs(n: nat, d: nat)
    requires 1 <= d <= 20 && (d == 1 || Pow10(d - 1) <= n)
    ensures Search(n, d) == if n < Pow10(19) then Some(|Decimal(n)|) else None
    decreases 20 - d
  {
    hide Pow10, Decimal;
    if d < 20 {
      TableIsPow10(d);
      if n >= BASE10[d] {
        SearchIs(n, d + 1);
      } else {
        Pow10Mono(d, 19);
        LengthFrom(n, d);
      }
    }
  }

  lemma {:induction false} LengthFrom(n: nat, d: nat)
    requires 1 <= d && (d == 1 || Pow10(d - 1) <= n) && n < Pow10(d)
    ensures |Decimal(n)| == d
  {
    hide Pow10, Decimal;
    DecimalLength(n);
    var k := |Decimal(n)|;
    if n == 0 {
      NoLeadingZero(0);
    } else if k > d {
      Pow10Mono(d, k - 1);
    } else if k < d {
      Pow10Mono(k, d - 1);
    }
  }

  /** `digits` stays inside its table exactly below 10^19, and then counts the digits. */
  lemma DigitsInTableIff(n: nat)
    ensures Search(n, 1).Some? <==> n < Pow10(19)
    ensures n < Pow10(19) ==> Search(n, 1) == Some(|Decimal(n)|)
  {
    SearchIs(n, 1);
  }

  method CountDigits(n: nat) returns (d: nat)
    requires n < Pow10(19)
    ensures d == |Decimal(n)|
  {
    d := 1;
    DigitsInTableIff(n);
    while n >= BASE10[d]
      invariant 1 <= d < 20 && Search(n, 1) == Search(n, d)
      decreases 20 - d
    {
      SearchStep(n, d);
      d := d + 1;
    }
  }

  lemma SearchStep(n: nat, d: nat)
    requires 1 <= d < 20 && n >= BASE10[d] && Search(n, d).Some?
    ensures d + 1 < 20
  {}

  // ------------------------------------------------------------------
  // Printing into memory
  // ------------------------------------------------------------------

  /** Fills backwards from `end`, so the numeral ends there whatever space was reckoned for it. */
  method PrintBackwards(buf: array<char>, end: nat, n: nat)
    requires |Decimal(n)| <= end <= buf.Length
    modifies buf
    ensures buf[..] == Overlay(old(buf[..]), end - |Decimal(n)|, Decimal(n))
  {
    hide Decimal, Overlay;
    var p, m := end, n;
    ghost var done := "";
    ghost var was := buf[..];
    OverlayNothing(was, p);
    while true
      invariant |done| == end - p <= end && |Decimal(m)| <= p && Decimal(n) == Decimal(m) + done
      invariant buf[..] == Overlay(was, p, done)
      decreases m
    {
      LastDigit(m);
      p := p - 1;
      OverlayOne(was, p, done, DigitChar(m % 10));
      buf[p] := DigitChar(m % 10);
      done := [DigitChar(m % 10)] + done;
      if m / 10 == 0 { break; }
      m := m / 10;
    }
    assert Decimal(n) == done;
  }

  lemma LastDigit(m: nat)
    ensures Decimal(m) == (if m / 10 == 0 then "" else Decimal(m / 10)) + [DigitChar(m % 10)]
  {}

  lemma OverlayNothing(mem: seq<char>, at: nat)
    requires at <= |mem|
    ensures Overlay(mem, at, "") == mem
  {}

  lemma OverlayOne(mem: seq<char>, at: nat, s: string, c: char)
    requires at + 1 + |s| <= |mem|
    ensures Overlay(mem, at + 1, s)[at := c] == Overlay(mem, at, [c] + s)
  {}

  method PrintUint64Unsafe(buf: array<char>, at: nat, n: nat) returns (d: nat)
    requires n < Pow10(19) && at + |Decimal(n)| <= buf.Length
    modifies buf
    ensures d == |Decimal(n)| && buf[..] == Overlay(old(buf[..]), at, Decimal(n))
  {
    d := CountDigits(n);
    PrintBackwards(buf, at + d, n);
  }

  method PrintUint64(buf: array<char>, at: nat, size: nat, n: nat) returns (d: nat)
    requires n < Pow10(19) && at + size <= buf.Length
    modifies buf
    ensures d == if size < |Decimal(n)| then 0 else |Decimal(n)|
    ensures buf[..] == if d == 0 then old(buf[..]) else Overlay(old(buf[..]), at, Decimal(n))
  {
    d := CountDigits(n);
    if size < d { return 0; }
    PrintBackwards(buf, at + d, n);
  }

  /** abs_int64 as an unsigned value; the negation of INT64_MIN wraps to itself. */
  function Abs64(n: int): nat { if n >= 0 then n else -n }

  function SignedDecimal(n: int): string { (if n < 0 then "-" else "") + Decimal(Abs64(n)) }

  lemma AbsPrintable(n: int)
    requires INT64_MIN <= n <= INT64_MAX
    ensures Abs64(n) < Pow10(19)
  {
    TableIsPow10(19);
  }

  method PutSign(buf: array<char>, at: nat, n: int)
    requires at < buf.Length
    modifies buf
    ensures buf[..] == if n < 0 then Overlay(old(buf[..]), at, "-") else old(buf[..])
  {
    if n < 0 { buf[at] := '-'; }
  }

  lemma OverlayNext(mem: seq<char>, at: nat, c: char, s: string)
    requires at + 1 + |s| <= |mem|
    ensures Overlay(Overlay(mem, at, [c]), at + 1, s) == Overlay(mem, at, [c] + s)
  {}

  method PrintInt64Unsafe(buf: array<char>, at: nat, n: int) returns (d: nat)
    requires INT64_MIN <= n <= INT64_MAX && at + |SignedDecimal(n)| <= buf.Length
    modifies buf
    ensures d == |SignedDecimal(n)| && buf[..] == Overlay(old(buf[..]), at, SignedDecimal(n))
  {
    hide Decimal, Overlay, Pow10;
    AbsPrintable(n);
    ghost var was := buf[..];
    var sign := if n < 0 then 1 else 0;
    PutSign(buf, at, n);
    d := CountDigits(Abs64(n));
    PrintBackwards(buf, at + sign + d, Abs64(n));
    if n < 0 { OverlayNext(was, at, '-', Decimal(-n)); }
    assert n >= 0 ==> SignedDecimal(n) == Decimal(n);
    d := d + sign;
  }

  /** cc_print_int64 prints n itself, read as unsigned, where it reckoned space for |n|. */
  function CheckedResult(mem: seq<char>, at: nat, n: int): seq<char>
    requires INT64_MIN <= n <= INT64_MAX && 20 <= at && at + 20 <= |mem|
  {
    var text := Decimal(if n < 0 then n + TWO64 else n);
    var signed := if n < 0 then Overlay(mem, at, "-") else mem;
    var end := at + (if n < 0 then 1 else 0) + |Decimal(Abs64(n))|;
    PrintableLengths(n);
    Overlay(signed, end - |text|, text)
  }

  method PrintInt64(buf: array<char>, at: nat, size: nat, n: int) returns (d: nat)
    requires INT64_MIN <= n <= INT64_MAX && 20 <= at && at + size <= buf.Length && at + 20 <= buf.Length
    modifies buf
    ensures d == if size < |SignedDecimal(n)| then 0 else |SignedDecimal(n)|
    ensures buf[..] == if d == 0 then old(buf[..]) else CheckedResult(old(buf[..]), at, n)
  {
    hide Decimal, Overlay, Pow10;
    AbsPrintable(n);
    PrintableLengths(n);
    ghost var was := buf[..];
    var sign := if n < 0 then 1 else 0;
    d := CountDigits(Abs64(n));
    if size < d + sign { return 0; }
    PutSign(buf, at, n);
    PrintBackwards(buf, at + sign + d, if n < 0 then n + TWO64 else n);
    d := d + sign;
  }

  lemma PrintableLengths(n: int)
    requires INT64_MIN <= n <= INT64_MAX
    ensures |Decimal(Abs64(n))| <= 19 && |Decimal(if n < 0 then n + TWO64 else n)| <= 20
    ensures n < 0 ==> |Decimal(Abs64(n))| <= |Decimal(n + TWO64)|
  {
    AbsPrintable(n);
    TableIsPow10(19);
    ShortNumeral(Abs64(n), 19);
    ShortNumeral(if n < 0 then n + TWO64 else n, 20);
    if n < 0 { LengthMono(Abs64(n), n + TWO64); }
  }

  lemma ShortNumeral(n: nat, k: nat)
    requires n < Pow10(k) && k > 0
    ensures |Decimal(n)| <= k
  {
    DecimalLength(n);
    if |Decimal(n)| > k {
      if n > 0 { Pow10Mono(k, |Decimal(n)| - 1); }
    }
  }

  /** What it leaves where the number was to be. */
  function CheckedText(mem: seq<char>, at: nat, n: int): string
    requires INT64_MIN <= n <= INT64_MAX && 20 <= at && at + 20 <= |mem|
  {
    PrintableLengths(n);
    CheckedResult(mem, at, n)[at..at + |SignedDecimal(n)|]
  }

  /** The size-checked signed printer is right if and only if n is not negative or is INT64_MIN. */
  lemma CheckedRightIff(mem: seq<char>, at: nat, n: int)
    requires INT64_MIN <= n <= INT64_MAX && 20 <= at && at + 20 <= |mem|
    ensures CheckedText(mem, at, n) == SignedDecimal(n) <==> n >= 0 || n == INT64_MIN
  {
    hide Decimal;
    PrintableLengths(n);
    if n < 0 {
      var out := CheckedText(mem, at, n);
      var text, want := Decimal(n + TWO64), Decimal(-n);
      if |text| > |want| {
        assert out[0] in text;
        assert out[0] != '-' && SignedDecimal(n)[0] == '-';
      } else {
        assert out == "-" + text;
        assert SignedDecimal(n)[1..] == want && out[1..] == text;
        if text == want { DecimalInjective(n + TWO64, -n); }
      }
    }
  }

  /** -1 comes out as the end of 2^64 - 1, in the space of two characters. */
  lemma MinusOneMisprinted(mem: seq<char>, at: nat)
    requires 20 <= at && at + 20 <= |mem|
    ensures CheckedText(mem, at, -1) != SignedDecimal(-1)
  {
    hide CheckedText, SignedDecimal;
    CheckedRightIff(mem, at, -1);
  }

  // ------------------------------------------------------------------
  // Parsing
  // ------------------------------------------------------------------

  const MAXLEN: nat := 21
  const UINT64_MAX: nat := 0xFFFF_FFFF_FFFF_FFFF

  /** bstring_atou64 after the digits of `str` from `i` on; None is CC_ERROR. */
  function ParseUint(str: string, i: nat, u: nat): Option<nat>
    requires i <= |str|
    decreases |str| - i
  {
    if i == |str| then Some(u)
    else if !IsDigit(str[i]) then None
    else if i == MAXLEN - 2 && u == UINT64_MAX / 10 && DigitValue(str[i]) > UINT64_MAX % 10 then None
    else ParseUint(str, i + 1, (u * 10 + DigitValue(str[i])) % TWO64)
  }

  function Atou64(str: string): Option<nat> {
    if |str| == 0 || |str| >= MAXLEN then None else ParseUint(str, 0, 0)
  }

  method BstringAtou64(str: string) returns (ok: bool, u: nat)
    ensures ok <==> Atou64(str).Some?
    ensures ok ==> Atou64(str) == Some(u)
  {
    u := 0;
    if |str| == 0 || |str| >= MAXLEN { return false, u; }
    for offset := 0 to |str|
      invariant Atou64(str) == ParseUint(str, offset, u)
    {
      var c := str[offset];
      if !IsDigit(c) { return false, u; }
      if offset == MAXLEN - 2 && u == UINT64_MAX / 10 && DigitValue(c) > UINT64_MAX % 10 { return false, u; }
      u := (u * 10 + DigitValue(c)) % TWO64;
    }
    ok := true;
  }

  lemma ValueSnoc(str: string, i: nat)
    requires i < |str|
    ensures DecimalValue(str[..i + 1]) == DecimalValue(str[..i]) * 10 + DigitValue(str[i])
  {
    assert str[..i + 1][..i] == str[..i];
  }

  lemma SmallValue(ds: string, k: nat)
    requires |ds| <= k < 20
    ensures DecimalValue(ds) < Pow10(k)
  {
    ValueBound(ds);
    Pow10Mono(|ds|, k);
  }

  lemma PowersOfTen()
    ensures Pow10(18) == 1_000_000_000_000_000_000 && Pow10(19) == 10_000_000_000_000_000_000
    ensures Pow10(20) == 100_000_000_000_000_000_000
  {
    TableIsPow10(18);
    TableIsPow10(19);
  }

  lemma EmptyValue()
    ensures DecimalValue("") == 0
  {}

  lemma ParseUintStep(str: string, i: nat, u: nat)
    requires i < |str| && i < 19 && IsDigit(str[i]) && u * 10 + DigitValue(str[i]) < TWO64
    ensures ParseUint(str, i, u) == ParseUint(str, i + 1, u * 10 + DigitValue(str[i]))
  {
    assert (u * 10 + DigitValue(str[i])) % TWO64 == u * 10 + DigitValue(str[i]);
  }

  /** Up to 19 digits are read exactly. */
  lemma {:induction false} ParseUintPrefix(str: string, i: nat)
    requires AllDigits(str) && i <= |str| && i <= 19
    ensures ParseUint(str, 0, 0) == ParseUint(str, i, DecimalValue(str[..i]))
    decreases i
  {
    hide DecimalValue, ParseUint, Pow10;
    if i > 0 {
      ParseUintPrefix(str, i - 1);
      ValueSnoc(str, i - 1);
      SmallValue(str[..i], 19);
      PowersOfTen();
      ParseUintStep(str, i - 1, DecimalValue(str[..i - 1]));
    } else {
      assert str[..i] == "";
      EmptyValue();
    }
  }

  lemma {:induction false} ParseUintDigits(str: string, i: nat, u: nat)
    requires i <= |str| && ParseUint(str, i, u).Some?
    ensures AllDigits(str[i..])
    decreases |str| - i
  {
    if i < |str| {
      ParseUintDigits(str, i + 1, (u * 10 + DigitValue(str[i])) % TWO64);
      assert str[i..] == [str[i]] + str[i + 1..];
    }
  }

  /** What a string ought to be read as. */
  function Unsigned(str: string): Option<nat> {
    if str != "" && AllDigits(str) && DecimalValue(str) <= UINT64_MAX then Some(DecimalValue(str)) else None
  }

  /** What the overflow check and the length limit leave right. */
  predicate UnsignedReadRight(str: string) {
    || !AllDigits(str)
    || |str| < 20
    || (|str| == 20 && DecimalValue(str[..19]) <= UINT64_MAX / 10)
    || (|str| > 20 && DecimalValue(str) > UINT64_MAX)
  }

  /**
   * A numeral of 20 digits is read right if and only if its first 19 do not already exceed a tenth
   * of the largest value; a shorter one and a string that is no numeral always are.
   */
  lemma Atou64RightIff(str: string)
    ensures Atou64(str) == Unsigned(str) <==> UnsignedReadRight(str)
  {
    hide DecimalValue, ParseUint, Pow10;
    if !AllDigits(str) {
      if str != "" && ParseUint(str, 0, 0).Some? {
        assert str[0..] == str;
        ParseUintDigits(str, 0, 0);
      }
    } else if 0 < |str| < MAXLEN {
      AllDigitsReadIff(str);
    }
  }

  lemma LastUintDigit(str: string, p: nat)
    requires |str| == 20 && IsDigit(str[19])
    ensures var c := DigitValue(str[19]);
            ParseUint(str, 19, p) == (if p == UINT64_MAX / 10 && c > 5 then None else Some((p * 10 + c) % TWO64))
  {}

  lemma TwentiethDigitIff(p: nat, c: nat)
    requires c < 10 && p < 10_000_000_000_000_000_000
    ensures var v := p * 10 + c;
            var read := if p == UINT64_MAX / 10 && c > 5 then None else Some(v % TWO64);
            read == (if v <= UINT64_MAX then Some(v) else None) <==> p <= UINT64_MAX / 10
  {
    var v := p * 10 + c;
    if v <= UINT64_MAX {
      assert v % TWO64 == v;
    }
  }

  lemma AllDigitsReadIff(str: string)
    requires AllDigits(str) && 0 < |str| < MAXLEN
    ensures ParseUint(str, 0, 0) == Unsigned(str) <==> UnsignedReadRight(str)
  {
    hide DecimalValue, Pow10, ParseUint;
    PowersOfTen();
    if |str| < 20 {
      ParseUintPrefix(str, |str|);
      assert str[..|str|] == str;
      SmallValue(str, 19);
      ParseUintEnd(str, DecimalValue(str));
    } else {
      ParseUintPrefix(str, 19);
      ValueSnoc(str, 19);
      assert str[..20] == str;
      SmallValue(str[..19], 19);
      LastUintDigit(str, DecimalValue(str[..19]));
      TwentiethDigitIff(DecimalValue(str[..19]), DigitValue(str[19]));
    }
  }

  lemma ParseUintEnd(str: string, u: nat)
    ensures ParseUint(str, |str|, u) == Some(u)
  {}

  /** Twenty nines are too large for 64 bits and accepted. */
  lemma TwentyNinesAccepted()
    ensures var nines := "99999999999999999999"; Unsigned(nines) == None && Atou64(nines).Some?
  {
    hide DecimalValue, ParseUint;
    var nines := "99999999999999999999";
    assert AllDigits(nines);
    Nines(nines, 19);
    ValueSnoc(nines, 19);
    assert nines[..20] == nines;
    ParseUintPrefix(nines, 19);
    LastUintDigit(nines, DecimalValue(nines[..19]));
  }

  /** k nines are 10^k - 1. */
  lemma {:induction false} Nines(ds: string, k: nat)
    requires k <= |ds| && k <= 19 && forall i :: 0 <= i < |ds| ==> ds[i] == '9'
    ensures DecimalValue(ds[..k]) == Pow10(k) - 1 && Pow10(19) == 10_000_000_000_000_000_000
  {
    hide DecimalValue;
    PowersOfTen();
    if k == 0 {
      assert ds[..k] == "";
      EmptyValue();
    } else {
      Nines(ds, k - 1);
      ValueSnoc(ds, k - 1);
    }
  }

  /** Parsing what was printed gives the number back, for every 64-bit number. */
  lemma Uint64RoundTrip(n: nat)
    requires n <= UINT64_MAX
    ensures Atou64(Decimal(n)) == Some(n)
  {
    hide Decimal, Atou64, DecimalValue, Pow10;
    var s := Decimal(n);
    DecimalRoundTrip(n);
    PowersOfTen();
    ShortNumeral(n, 20);
    Atou64RightIff(s);
    if |s| == 20 {
      ValueSnoc(s, 19);
      assert s[..20] == s;
    }
  }

  /** Two's complement, which signed overflow is taken to follow. */
  function Wrap64(x: int): int {
    var r := x % TWO64;
    if r > INT64_MAX then r - TWO64 else r
  }

  function Signed(negative: bool, c: int): int { if negative then -c else c }

  predicate Refused(negative: bool, v: int, c: nat) {
    if negative then v == -922337203685477580 && c > 8 else v == 922337203685477580 && c > 7
  }

  /** bstring_atoi64 from `i` on. */
  function ParseInt(str: string, negative: bool, i: nat, v: int): Option<int>
    requires i <= |str|
    decreases |str| - i
  {
    if i == |str| then Some(v)
    else if !IsDigit(str[i]) then None
    else if i == MAXLEN - 2 && Refused(negative, v, DigitValue(str[i])) then None
    else ParseInt(str, negative, i + 1, Wrap64(v * 10 + Signed(negative, DigitValue(str[i]))))
  }

  predicate Negative(str: string) { str != "" && str[0] == '-' }

  function Start(str: string): (i: nat)
    ensures i <= |str|
  {
    if Negative(str) then 1 else 0
  }

  function Atoi64(str: string): Option<int> {
    if |str| == 0 || |str| >= MAXLEN then None else ParseInt(str, Negative(str), Start(str), 0)
  }

  method BstringAtoi64(str: string) returns (ok: bool, v: int)
    ensures ok <==> Atoi64(str).Some?
    ensures ok ==> Atoi64(str) == Some(v)
  {
    v := 0;
    if |str| == 0 || |str| >= MAXLEN { return false, v; }
    var start, negative := 0, false;
    if str[0] == '-' {
      start, negative := 1, true;
    }
    for offset := start to |str|
      invariant Atoi64(str) == ParseInt(str, negative, offset, v)
    {
      if !IsDigit(str[offset]) { return false, v; }
      var c := DigitValue(str[offset]);
      if offset == MAXLEN - 2 {
        if negative && v == -922337203685477580 && c > 8 { return false, v; }
        if !negative && v == 922337203685477580 && c > 7 { return false, v; }
      }
      v := Wrap64(v * 10 + if negative then -c else c);
    }
    ok := true;
  }

  function Body(str: string): string { str[Start(str)..] }

  function SignedValue(str: string): int { Signed(Negative(str), DecimalValue(Body(str))) }

  predicate InRange(v: int) { INT64_MIN <= v <= INT64_MAX }

  /** What a string ought to be read as. */
  function SignedNumber(str: string): Option<int> {
    if Body(str) != "" && AllDigits(Body(str)) && InRange(SignedValue(str)) then Some(SignedValue(str)) else None
  }

  /** All digits but the last are those of the extreme values. */
  predicate NearExtreme(ds: string) { ds != "" && DecimalValue(ds[..|ds| - 1]) == 922337203685477580 }

  predicate SignedReadRight(str: string) {
    || !AllDigits(Body(str))
    || str == ""
    || (Body(str) != "" && |str| < MAXLEN && InRange(SignedValue(str)))
    || (|str| == MAXLEN - 1 && NearExtreme(Body(str)))
    || (|str| >= MAXLEN && !InRange(SignedValue(str)))
  }

  lemma {:induction false} ParseIntDigits(str: string, negative: bool, i: nat, v: int)
    requires i <= |str| && ParseInt(str, negative, i, v).Some?
    ensures AllDigits(str[i..])
    decreases |str| - i
  {
    hide Wrap64;
    if i < |str| {
      ParseIntDigits(str, negative, i + 1, Wrap64(v * 10 + Signed(negative, DigitValue(str[i]))));
      assert str[i..] == [str[i]] + str[i + 1..];
    }
  }

  lemma BodySnoc(str: string, s: nat, i: nat)
    requires s <= i < |str|
    ensures DecimalValue(str[s..i + 1]) == DecimalValue(str[s..i]) * 10 + DigitValue(str[i])
  {
    var t := str[s..i + 1];
    assert t[..|t| - 1] == str[s..i];
  }

  lemma ParseIntStep(str: string, negative: bool, i: nat, v: nat)
    requires i < |str| && i < 19 && IsDigit(str[i]) && v * 10 + DigitValue(str[i]) <= INT64_MAX
    ensures ParseInt(str, negative, i, Signed(negative, v))
         == ParseInt(str, negative, i + 1, Signed(negative, v * 10 + DigitValue(str[i])))
  {
    assert Wrap64(Signed(negative, v * 10 + DigitValue(str[i]))) == Signed(negative, v * 10 + DigitValue(str[i]));
  }

  /** Up to 18 digits are read exactly. */
  lemma {:induction false} ParseIntPrefix(str: string, negative: bool, s: nat, i: nat)
    requires s <= i <= |str| && s <= 1 && i - s <= 18 && AllDigits(str[s..])
    ensures ParseInt(str, negative, s, 0) == ParseInt(str, negative, i, Signed(negative, DecimalValue(str[s..i])))
    decreases i
  {
    hide DecimalValue, Pow10, ParseInt;
    if i > s {
      ParseIntPrefix(str, negative, s, i - 1);
      BodySnoc(str, s, i - 1);
      SmallValue(str[s..i], 18);
      PowersOfTen();
      assert str[i - 1] == str[s..][i - 1 - s];
      ParseIntStep(str, negative, i - 1, DecimalValue(str[s..i - 1]));
    } else {
      assert str[s..i] == "";
      EmptyValue();
    }
  }

  lemma WrapIff(x: int)
    ensures InRange(Wrap64(x))
    ensures Wrap64(x) == x <==> InRange(x)
  {}

  lemma LastIntDigit(str: string, negative: bool, v: int)
    requires 0 < |str| < MAXLEN && IsDigit(str[|str| - 1])
    ensures var c := DigitValue(str[|str| - 1]);
            ParseInt(str, negative, |str| - 1, v)
              == if |str| == MAXLEN - 1 && Refused(negative, v, c) then None
                 else Some(Wrap64(v * 10 + Signed(negative, c)))
  {
    hide Wrap64, Refused, Signed;
  }

  /** The last digit of a numeral whose others denote p. */
  lemma LastDigitIff(negative: bool, p: nat, c: nat, checked: bool)
    requires c < 10 && p < if negative then Pow10(18) else Pow10(19)
    ensures var v := Signed(negative, p * 10 + c);
            var w := Wrap64(Signed(negative, p));
            var read := if checked && Refused(negative, w, c) then None else Some(Wrap64(w * 10 + Signed(negative, c)));
            read == (if InRange(v) then Some(v) else None) <==> InRange(v) || (checked && p == 922337203685477580)
  {
    hide Wrap64, Pow10;
    PowersOfTen();
    var v := Signed(negative, p * 10 + c);
    WrapIff(v);
    WrapIff(Signed(negative, p));
    WrapHits(p);
  }

  lemma WrapHits(p: nat)
    requires p < TWO64
    ensures Wrap64(p) == 922337203685477580 <==> p == 922337203685477580
  {}

  /** All digits of the body but the last, as they stand when the last is read. */
  lemma ReadUpToLast(str: string, negative: bool, s: nat)
    requires s == (if negative then 1 else 0) && s < |str| < MAXLEN && AllDigits(str[s..])
    ensures ParseInt(str, negative, s, 0)
         == ParseInt(str, negative, |str| - 1, Wrap64(Signed(negative, DecimalValue(str[s..|str| - 1]))))
  {
    hide DecimalValue, Pow10, ParseInt, Wrap64;
    PowersOfTen();
    var e := |str| - 1;
    if e - s <= 18 {
      ParseIntPrefix(str, negative, s, e);
      SmallValue(str[s..e], 18);
      WrapIff(Signed(negative, DecimalValue(str[s..e])));
    } else {
      ParseIntPrefix(str, negative, s, e - 1);
      assert str[e - 1] == str[s..][e - 1 - s];
      ParseIntAt18(str, negative, Signed(negative, DecimalValue(str[s..e - 1])));
      BodySnoc(str, s, e - 1);
    }
  }

  lemma ParseIntAt18(str: string, negative: bool, v: int)
    requires 18 < |str| && IsDigit(str[18])
    ensures ParseInt(str, negative, 18, v)
         == ParseInt(str, negative, 19, Wrap64(v * 10 + Signed(negative, DigitValue(str[18]))))
  {
    hide Wrap64, Refused, Signed;
  }

  lemma SignedDigitsReadIff(str: string)
    requires |str| < MAXLEN && Body(str) != "" && AllDigits(Body(str))
    ensures Atoi64(str) == SignedNumber(str) <==> SignedReadRight(str)
  {
    hide DecimalValue, Pow10, ParseInt, Wrap64, Refused, Signed;
    var s, e, negative := Start(str), |str| - 1, Negative(str);
    ReadUpToLast(str, negative, s);
    assert str[e] == Body(str)[e - s];
    var p, c := DecimalValue(str[s..e]), DigitValue(str[e]);
    assert Body(str)[..|Body(str)| - 1] == str[s..e] && str[s..e + 1] == Body(str);
    BodySnoc(str, s, e);
    SmallValue(str[s..e], if negative then 18 else 19);
    LastIntDigit(str, negative, Wrap64(Signed(negative, p)));
    LastDigitIff(negative, p, c, |str| == MAXLEN - 1);
  }

  /**
   * A string is read right if and only if it is no numeral (a lone sign excepted), or its value is
   * in range and it has at most 20 characters, or it is out of range and the check of the 20th
   * character sees it.
   */
  lemma Atoi64RightIff(str: string)
    ensures Atoi64(str) == SignedNumber(str) <==> SignedReadRight(str)
  {
    hide DecimalValue, ParseInt, Wrap64, Refused, Signed;
    if !AllDigits(Body(str)) {
      if |str| < MAXLEN && ParseInt(str, Negative(str), Start(str), 0).Some? {
        ParseIntDigits(str, Negative(str), Start(str), 0);
      }
    } else if |str| < MAXLEN && Body(str) != "" {
      SignedDigitsReadIff(str);
    } else if Body(str) == "" && str != "" {
      assert str == "-";
      MinusAlone();
    }
  }

  /** A sign alone is taken for 0. */
  lemma MinusAlone()
    ensures Atoi64("-") == Some(0)
  {}

  /** Parsing what was printed gives the number back, for every signed 64-bit number. */
  lemma Int64RoundTrip(n: int)
    requires InRange(n)
    ensures Atoi64(SignedDecimal(n)) == Some(n)
  {
    hide Decimal, DecimalValue, ParseInt, Atoi64, Pow10;
    var s := SignedDecimal(n);
    PrintableLengths(n);
    DecimalRoundTrip(Abs64(n));
    assert n >= 0 ==> s[0] in Decimal(n);
    assert Body(s) == Decimal(Abs64(n));
    Atoi64RightIff(s);
  }
}
