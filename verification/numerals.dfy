/** Integers as text: Python's `str(int)`, `int(s)` on a stripped decimal
    literal, and `int(p, 16)` on a two-character hexadecimal pair. */
module Numerals {
  import opened Wrappers
  import opened Text

  predicate IsDigit(c: char) {
    '0' <= c <= '9'
  }

  predicate AllDigits(s: string) {
    forall i :: 0 <= i < |s| ==> IsDigit(s[i])
  }

  function DigitValue(c: char): (v: nat)
    requires IsDigit(c)
    ensures v < 10
  {
    c as int - '0' as int
  }

  function DigitChar(v: nat): (c: char)
    requires v < 10
    ensures IsDigit(c) && DigitValue(c) == v
  {
    ('0' as int + v) as char
  }

  /** Value of a decimal digit string, most significant digit first. */
  function DigitsToNat(ds: string): (n: nat)
    requires AllDigits(ds)
  {
    if ds == [] then 0 else 10 * DigitsToNat(ds[..|ds| - 1]) + DigitValue(ds[|ds| - 1])
  }

  /** The decimal digits of `n` without leading zeros. */
  function NatToDigits(n: nat): (ds: string)
    ensures |ds| > 0 && AllDigits(ds)
    ensures ds[0] == '0' <==> n == 0
    ensures n == 0 ==> |ds| == 1
  {
    if n < 10 then [DigitChar(n)] else NatToDigits(n / 10) + [DigitChar(n % 10)]
  }

  /** Reading back the digits of `n` gives `n`. */
  lemma {:induction false} NatDigitsRoundTrip(n: nat)
    ensures DigitsToNat(NatToDigits(n)) == n
  {
    if n >= 10 {
      var ds := NatToDigits(n);
      assert ds[..|ds| - 1] == NatToDigits(n / 10);
      NatDigitsRoundTrip(n / 10);
    }
  }

  /** A digit string that starts with a non-zero digit denotes a positive number. */
  lemma {:induction false} LeadingDigitPositive(ds: string)
    requires |ds| > 0 && AllDigits(ds) && ds[0] != '0'
    ensures DigitsToNat(ds) > 0
  {
    if |ds| > 1 {
      LeadingDigitPositive(ds[..|ds| - 1]);
    }
  }

  /** A digit string without leading zeros is the rendering of its value:
      the rendering is canonical. */
  lemma {:induction false} DigitsCanonical(ds: string)
    requires |ds| > 0 && AllDigits(ds)
    requires ds[0] == '0' ==> |ds| == 1
    ensures NatToDigits(DigitsToNat(ds)) == ds
  {
    if |ds| > 1 {
      var init := ds[..|ds| - 1];
      LeadingDigitPositive(init);
      DigitsCanonical(init);
      var m := DigitsToNat(init);
      var d := DigitValue(ds[|ds| - 1]);
      assert (10 * m + d) / 10 == m && (10 * m + d) % 10 == d;
      assert DigitChar(d) == ds[|ds| - 1];
      assert init + [ds[|ds| - 1]] == ds;
    }
  }

  /** Python's `str(n)`. */
  function IntToString(n: int): (s: string)
    ensures |s| > 0
    ensures s[0] == '-' <==> n < 0
    ensures forall i :: 0 <= i < |s| ==> IsDigit(s[i]) || s[i] == '-'
  {
    if n < 0 then "-" + NatToDigits(-n) else NatToDigits(n)
  }

  /** The literals Python's `int(s)` accepts once `s` has been trimmed: an
      optional sign followed by one or more ASCII decimal digits. */
  predicate IsIntLiteral(s: string) {
    |s| > 0 && (AllDigits(s) || ((s[0] == '-' || s[0] == '+') && |s| > 1 && AllDigits(s[1..])))
  }

  /** Renderings of the numbers the examples use. */
  lemma RenderExamples()
    ensures IntToString(0) == "0" && IntToString(50) == "50"
    ensures IntToString(128) == "128" && IntToString(255) == "255"
  {
    assert NatToDigits(50) == NatToDigits(5) + ['0'];
    assert NatToDigits(12) == NatToDigits(1) + ['2'];
    assert NatToDigits(128) == NatToDigits(12) + ['8'];
    assert NatToDigits(25) == NatToDigits(2) + ['5'];
    assert NatToDigits(255) == NatToDigits(25) + ['5'];
  }

  /** Python's `int(s)` on a string that `strip()` has already trimmed: it
      succeeds exactly on the literals above, and the value is that of the
      digits with the sign applied; leading zeros are allowed. */
  function ParseInt(s: string): (r: Option<int>)
    ensures r.Some? <==> IsIntLiteral(s)
    ensures r.Some? && AllDigits(s) ==> r.value == DigitsToNat(s)
    ensures r.Some? && !AllDigits(s) ==>
              && AllDigits(s[1..])
              && r.value == (if s[0] == '-' then -(DigitsToNat(s[1..]) as int) else DigitsToNat(s[1..]))
    ensures r.Some? ==> |s| > 0 && (IsDigit(s[0]) || s[0] == '-' || s[0] == '+')
    ensures r.Some? && r.value < 0 ==> s[0] == '-'
  {
    if |s| > 0 && (s[0] == '-' || s[0] == '+') then
      var mag := s[1..];
      if |mag| > 0 && AllDigits(mag) then
        Some(if s[0] == '-' then -(DigitsToNat(mag) as int) else DigitsToNat(mag))
      else None
    else if |s| > 0 && AllDigits(s) then Some(DigitsToNat(s))
    else None
  }

  /** Every integer's rendering parses back to it. */
  lemma ParseIntRoundTrip(n: int)
    ensures ParseInt(IntToString(n)) == Some(n)
  {
    var m: nat := if n < 0 then -n else n;
    NatDigitsRoundTrip(m);
    if n < 0 {
      ParseNegative(NatToDigits(m));
    } else {
      ParseUnsigned(NatToDigits(m));
    }
  }

  /** Leading zeros and a plus sign are accepted; anything after the digits
      is not, and neither is a lone sign. */
  lemma ParseIntExamples()
    ensures ParseInt("007") == Some(7)
    ensures ParseInt("+5") == Some(5)
    ensures ParseInt("10") == Some(10) && ParseInt("+2") == Some(2) && ParseInt("030") == Some(30)
    ensures ParseInt("-12") == Some(-12)
    ensures ParseInt("1x") == None
    ensures ParseInt("+") == None
    ensures ParseInt("") == None
  {
    assert DigitsToNat("00") == 0 by { assert "00"[..1] == "0"; }
    assert "007"[..2] == "00";
    assert "+5"[1..] == "5";
    assert "-12"[1..] == "12" && "12"[..1] == "1";
    assert !IsDigit("1x"[1]);
    assert "10"[..1] == "1" && "+2"[1..] == "2" && "030"[..2] == "03" && "03"[..1] == "0";
  }

  lemma ParseNegative(ds: string)
    requires |ds| > 0 && AllDigits(ds)
    ensures ParseInt("-" + ds) == Some(-(DigitsToNat(ds) as int))
  {
    var s := "-" + ds;
    assert s[0] == '-';
    assert s[1..] == ds;
  }

  lemma ParseUnsigned(ds: string)
    requires |ds| > 0 && AllDigits(ds)
    ensures ParseInt(ds) == Some(DigitsToNat(ds))
  {
    assert IsDigit(ds[0]);
  }

  /** Length of the run of decimal digits at the start of `s`. */
  function DigitRun(s: string): (k: nat)
    ensures k <= |s| && AllDigits(s[..k])
    ensures k < |s| ==> !IsDigit(s[k])
  {
    if |s| > 0 && IsDigit(s[0]) then
      var k := 1 + DigitRun(s[1..]);
      assert s[..k] == [s[0]] + s[1..][..k - 1];
      k
    else 0
  }

  /** Reads an integer written as by `str` (an optional minus sign and a
      maximal run of digits) from the front of `s`; returns it with the rest. */
  function ReadInt(s: string): (r: Option<(int, string)>)
    ensures r.Some? ==> |r.value.1| < |s| && r.value.1 == s[|s| - |r.value.1|..]
    ensures r.Some? ==> r.value.1 == [] || !IsDigit(r.value.1[0])
  {
    var neg := |s| > 0 && s[0] == '-';
    var body := if neg then s[1..] else s;
    var k := DigitRun(body);
    if k == 0 then None
    else
      var m: int := DigitsToNat(body[..k]);
      Some((if neg then -m else m, body[k..]))
  }

  lemma {:induction false} DigitRunOver(ds: string, rest: string)
    requires AllDigits(ds)
    requires rest == [] || !IsDigit(rest[0])
    ensures DigitRun(ds + rest) == |ds|
  {
    if |ds| > 0 {
      assert (ds + rest)[1..] == ds[1..] + rest;
      DigitRunOver(ds[1..], rest);
    }
  }

  /** Reading an integer back from its rendering, followed by anything that
      does not start with a digit, gives the integer and leaves the rest. */
  lemma ReadIntRoundTrip(n: int, rest: string)
    requires rest == [] || !IsDigit(rest[0])
    ensures ReadInt(IntToString(n) + rest) == Some((n, rest))
  {
    var m: nat := if n < 0 then -n else n;
    var ds := NatToDigits(m);
    var s := IntToString(n) + rest;
    DigitRunOver(ds, rest);
    NatDigitsRoundTrip(m);
    if n < 0 {
      assert s == ['-'] + (ds + rest);
      ReadDigitsAfter(s[1..], ds, rest);
    } else {
      assert s == ds + rest;
      ReadDigitsAfter(s, ds, rest);
    }
  }

  lemma ReadDigitsAfter(body: string, ds: string, rest: string)
    requires AllDigits(ds) && |ds| > 0
    requires body == ds + rest
    requires DigitRun(body) == |ds|
    ensures body[..DigitRun(body)] == ds && body[DigitRun(body)..] == rest
  {
  }

  predicate IsHexDigit(c: char) {
    IsDigit(c) || 'a' <= c <= 'f' || 'A' <= c <= 'F'
  }

  function HexDigitValue(c: char): (v: nat)
    requires IsHexDigit(c)
    ensures v < 16
  {
    if IsDigit(c) then DigitValue(c)
    else if 'a' <= c <= 'f' then c as int - 'a' as int + 10
    else c as int - 'A' as int + 10
  }

  /** The characters `int(p, 16)` can accept in a two-character literal. */
  predicate HexLiteralChar(c: char) {
    IsHexDigit(c) || IsSpace(c) || c == '+' || c == '-'
  }

  /** The hexadecimal digit for `v`, in upper or lower case. */
  function HexDigitChar(v: nat, upper: bool): (c: char)
    requires v < 16
    ensures IsHexDigit(c) && HexDigitValue(c) == v
  {
    if v < 10 then DigitChar(v)
    else if upper then ('A' as int + v - 10) as char
    else ('a' as int + v - 10) as char
  }

  /** Python's `int(p, 16)` on a two-character string: two hex digits, a
      sign and one digit, or one digit beside whitespace that `int` strips. */
  function ParseHexPair(p: string): (r: Option<int>)
    requires |p| == 2
    ensures IsHexDigit(p[0]) && IsHexDigit(p[1]) ==> r.Some? && 0 <= r.value < 256
    ensures r.Some? ==> -15 <= r.value < 256
    ensures r.Some? && r.value < 0 ==> p[0] == '-'
    ensures r.Some? ==> IsHexDigit(p[0]) || IsHexDigit(p[1])
    ensures r.Some? ==> HexLiteralChar(p[0]) && HexLiteralChar(p[1])
  {
    if IsHexDigit(p[0]) && IsHexDigit(p[1]) then
      Some(16 * HexDigitValue(p[0]) + HexDigitValue(p[1]))
    else if IsHexDigit(p[1]) && (p[0] == '+' || IsSpace(p[0])) then
      Some(HexDigitValue(p[1]))
    else if IsHexDigit(p[1]) && p[0] == '-' then
      Some(-(HexDigitValue(p[1]) as int))
    else if IsHexDigit(p[0]) && IsSpace(p[1]) then
      Some(HexDigitValue(p[0]))
    else None
  }

  /** Two hexadecimal digits for a byte value. */
  function HexByte(v: nat, upper: bool): (p: string)
    requires v < 256
    ensures |p| == 2 && IsHexDigit(p[0]) && IsHexDigit(p[1])
  {
    [HexDigitChar(v / 16, upper), HexDigitChar(v % 16, upper)]
  }

  /** Every byte's two-digit rendering, in either case, parses back to it. */
  lemma HexByteRoundTrip(v: nat, upper: bool)
    requires v < 256
    ensures ParseHexPair(HexByte(v, upper)) == Some(v)
  {
  }
}
