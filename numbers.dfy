/**
 * Python's `int(text)` and `int(text, 16)` on the literals an objdump
 * listing holds, and `str(n)` for the default name of a function.
 */
module Numbers {
  import opened Wrappers
  import opened Text

  datatype Base = Decimal | Hexadecimal

  function Radix(b: Base): nat {
    if b == Decimal then 10 else 16
  }

  /** The value of a digit of base `b` (both letter cases in hexadecimal), or -1. */
  function DigitValue(c: char, b: Base): int {
    if '0' <= c <= '9' then c as int - '0' as int
    else if b == Hexadecimal && 'a' <= c <= 'f' then c as int - 'a' as int + 10
    else if b == Hexadecimal && 'A' <= c <= 'F' then c as int - 'A' as int + 10
    else -1
  }

  predicate IsDigitOf(c: char, b: Base) {
    DigitValue(c, b) >= 0
  }

  predicate AllDigits(s: string, b: Base) {
    forall i :: 0 <= i < |s| ==> IsDigitOf(s[i], b)
  }

  /** The positional value of a digit string, most significant digit first. */
  function ValueOf(ds: string, b: Base): nat
    requires AllDigits(ds, b)
  {
    if |ds| == 0 then 0
    else ValueOf(ds[..|ds| - 1], b) * Radix(b) + DigitValue(ds[|ds| - 1], b)
  }

  /** The value of the lower-case hexadecimal digits `[0-9a-f]*`. */
  function HexValue(h: string): nat
    requires AllIn(h, HexDigit)
  {
    assert AllDigits(h, Hexadecimal) by {
      forall i | 0 <= i < |h| ensures IsDigitOf(h[i], Hexadecimal) {
        assert In(h[i], HexDigit);
      }
    }
    ValueOf(h, Hexadecimal)
  }

  /** The lower-case digit of value `d`. */
  function DigitChar(d: nat, b: Base): (c: char)
    requires d < Radix(b)
    ensures DigitValue(c, b) == d
    ensures IsHexDigit(c)
  {
    if d < 10 then ('0' as int + d) as char else ('a' as int + d - 10) as char
  }

  /** The shortest digit string of `n`: Python's `str(n)` for base 10, `"%x" % n` for base 16. */
  function ToDigits(n: nat, b: Base): (ds: string)
    ensures |ds| > 0 && AllDigits(ds, b)
    ensures forall i :: 0 <= i < |ds| ==> IsHexDigit(ds[i])
    decreases n
  {
    if n < Radix(b) then [DigitChar(n, b)]
    else ToDigits(n / Radix(b), b) + [DigitChar(n % Radix(b), b)]
  }

  /** `str(n)` */
  function ToDecimal(n: int): (s: string)
    ensures |s| > 0
  {
    if n < 0 then "-" + ToDigits(-n, Decimal) else ToDigits(n, Decimal)
  }

  lemma {:induction false} ValueOfToDigits(n: nat, b: Base)
    ensures ValueOf(ToDigits(n, b), b) == n
    decreases n
  {
    var ds := ToDigits(n, b);
    if n >= Radix(b) {
      ValueOfToDigits(n / Radix(b), b);
      assert ds[..|ds| - 1] == ToDigits(n / Radix(b), b);
    }
  }

  /** Leading zeros do not change the value of a digit string. */
  lemma {:induction false} ValueOfLeadingZeros(z: string, ds: string, b: Base)
    requires forall i :: 0 <= i < |z| ==> z[i] == '0'
    requires AllDigits(ds, b)
    ensures AllDigits(z + ds, b) && ValueOf(z + ds, b) == ValueOf(ds, b)
    decreases |ds|
  {
    var s := z + ds;
    assert forall i :: 0 <= i < |s| ==> s[i] == if i < |z| then z[i] else ds[i - |z|];
    if |ds| == 0 {
      assert s == z;
      ZerosValue(z, b);
    } else {
      assert s[..|s| - 1] == z + ds[..|ds| - 1];
      ValueOfLeadingZeros(z, ds[..|ds| - 1], b);
    }
  }

  lemma {:induction false} ZerosValue(z: string, b: Base)
    requires forall i :: 0 <= i < |z| ==> z[i] == '0'
    ensures AllDigits(z, b) && ValueOf(z, b) == 0
    decreases |z|
  {
    if |z| > 0 {
      ZerosValue(z[..|z| - 1], b);
    }
  }

  /** `str.strip()`: leading and trailing white space removed. */
  function Strip(s: string): (t: string)
    ensures |t| > 0 ==> !IsSpace(t[0]) && !IsSpace(t[|t| - 1])
  {
    StripRight(s[Skip(s, 0, Space)..])
  }

  function StripRight(s: string): (t: string)
    ensures |t| <= |s| && t == s[..|t|]
    ensures |t| > 0 ==> !IsSpace(t[|t| - 1])
    ensures forall i :: |t| <= i < |s| ==> IsSpace(s[i])
  {
    if |s| > 0 && IsSpace(s[|s| - 1]) then StripRight(s[..|s| - 1]) else s
  }

  lemma StripIdle(s: string)
    requires |s| > 0 && !IsSpace(s[0]) && !IsSpace(s[|s| - 1])
    ensures Strip(s) == s
  {
    SkipIs(s, 0, 0, Space);
  }

  /** Digits of `b` with single underscores between them, as `int()` accepts. */
  predicate Grouped(s: string, b: Base) {
    && |s| > 0
    && IsDigitOf(s[0], b)
    && IsDigitOf(s[|s| - 1], b)
    && (forall i :: 0 <= i < |s| ==> IsDigitOf(s[i], b) || s[i] == '_')
    && (forall i :: 0 <= i < |s| - 1 ==> !(s[i] == '_' && s[i + 1] == '_'))
  }

  /** The digits of `s` without the underscores. */
  function Ungroup(s: string): (t: string)
    ensures forall i :: 0 <= i < |t| ==> t[i] != '_'
    ensures '_' !in s ==> t == s
  {
    if |s| == 0 then ""
    else if s[|s| - 1] == '_' then Ungroup(s[..|s| - 1])
    else Ungroup(s[..|s| - 1]) + [s[|s| - 1]]
  }

  lemma {:induction false} UngroupDigits(s: string, b: Base)
    requires forall i :: 0 <= i < |s| ==> IsDigitOf(s[i], b) || s[i] == '_'
    ensures AllDigits(Ungroup(s), b)
    decreases |s|
  {
    if |s| > 0 {
      UngroupDigits(s[..|s| - 1], b);
    }
  }

  /** The sign and the magnitude text of a stripped literal. */
  function Unsign(t: string): (bool, string) {
    if |t| > 0 && (t[0] == '-' || t[0] == '+') then (t[0] == '-', t[1..]) else (false, t)
  }

  /** The digits after an optional `0x` or `0X` prefix and one optional `_` (base 16 only). */
  function Unprefix(u: string, b: Base): string {
    if b == Hexadecimal && |u| >= 2 && u[0] == '0' && (u[1] == 'x' || u[1] == 'X') then
      if |u| >= 3 && u[2] == '_' then u[3..] else u[2..]
    else u
  }

  /**
   * `int(s)` (base 10) or `int(s, 16)`: white space around an optional sign,
   * an optional `0x` prefix in base 16, and digits grouped by single
   * underscores; anything else, non-ASCII digits included, is a `ValueError`.
   */
  function ParseInt(s: string, b: Base): (r: Result<int>)
    ensures r.Err? ==> r.error == ValueError
  {
    ParseSigned(Unsign(Strip(s)), b)
  }

  function ParseSigned(signed: (bool, string), b: Base): (r: Result<int>)
    ensures r.Err? ==> r.error == ValueError
  {
    match ParseMagnitude(Unprefix(signed.1, b), b)
    case Ok(v) => Ok(if signed.0 then -(v as int) else v as int)
    case Err(e) => Err(e)
  }

  function ParseMagnitude(ds: string, b: Base): (r: Result<nat>)
    ensures r.Err? ==> r.error == ValueError
  {
    if Grouped(ds, b) then
      UngroupDigits(ds, b);
      Ok(ValueOf(Ungroup(ds), b))
    else Err(ValueError)
  }

  /** Digits without underscores parse to their positional value. */
  lemma ParsePlain(ds: string, b: Base)
    requires |ds| > 0 && AllDigits(ds, b)
    ensures ParseMagnitude(ds, b) == Ok(ValueOf(ds, b))
  {
    assert '_' !in ds by {
      forall i | 0 <= i < |ds| ensures ds[i] != '_' {
        assert IsDigitOf(ds[i], b);
      }
    }
    assert Grouped(ds, b);
  }

  /** Plain digits parse to their positional value. */
  lemma ParseDigits(ds: string, b: Base)
    requires |ds| > 0 && AllDigits(ds, b)
    requires b == Hexadecimal ==> ds[0] != '0' || |ds| == 1 || (ds[1] != 'x' && ds[1] != 'X')
    ensures ParseInt(ds, b) == Ok(ValueOf(ds, b))
  {
    StripIdle(ds);
    assert IsDigitOf(ds[0], b);
    assert Unsign(ds) == (false, ds);
    ParsePlain(ds, b);
  }

  /** Lower-case hexadecimal digits `[0-9a-f]+` parse to their value in base 16. */
  lemma ParseHexDigits(h: string)
    requires |h| > 0 && AllIn(h, HexDigit)
    ensures ParseInt(h, Hexadecimal) == Ok(HexValue(h))
  {
    assert In(h[0], HexDigit);
    if |h| > 1 {
      assert In(h[1], HexDigit);
    }
    ParseDigits(h, Hexadecimal);
  }

  /** `int(str(n)) == n` for every integer, negative ones included. */
  lemma ParseToDecimal(n: int)
    ensures ParseInt(ToDecimal(n), Decimal) == Ok(n)
  {
    if n < 0 {
      ValueOfToDigits(-n, Decimal);
      ParseNegative(ToDigits(-n, Decimal));
    } else {
      ValueOfToDigits(n, Decimal);
      ParseDigits(ToDigits(n, Decimal), Decimal);
    }
  }

  lemma ParseNegative(ds: string)
    requires |ds| > 0 && AllDigits(ds, Decimal)
    ensures ParseInt("-" + ds, Decimal) == Ok(-(ValueOf(ds, Decimal) as int))
  {
    UnsignNegative(ds);
    ParseStripped("-" + ds, ds);
  }

  lemma ParseStripped(s: string, ds: string)
    requires |ds| > 0 && AllDigits(ds, Decimal)
    requires Unsign(Strip(s)) == (true, ds)
    ensures ParseInt(s, Decimal) == Ok(-(ValueOf(ds, Decimal) as int))
  {
    ParsePlain(ds, Decimal);
  }

  lemma UnsignNegative(ds: string)
    requires |ds| > 0 && AllDigits(ds, Decimal)
    ensures Unsign(Strip("-" + ds)) == (true, ds)
  {
    var s := "-" + ds;
    assert s[|s| - 1] == ds[|ds| - 1] && IsDigitOf(ds[|ds| - 1], Decimal);
    StripIdle(s);
    assert s[1..] == ds;
  }

  /** `int("0x" + "%x" % n, 16) == n`: a rendered address parses back. */
  lemma ParseToHex(n: nat)
    ensures ParseInt("0x" + ToDigits(n, Hexadecimal), Hexadecimal) == Ok(n)
  {
    var ds := ToDigits(n, Hexadecimal);
    var s := "0x" + ds;
    ValueOfToDigits(n, Hexadecimal);
    assert s[|s| - 1] == ds[|ds| - 1] && IsDigitOf(ds[|ds| - 1], Hexadecimal);
    StripIdle(s);
    assert Unsign(s) == (false, s);
    assert s[2..] == ds;
    assert s[2] == ds[0] && IsDigitOf(ds[0], Hexadecimal);
    assert Unprefix(s, Hexadecimal) == ds;
    ParsePlain(ds, Hexadecimal);
  }
}
