/**
 * The two JavaScript conversions the year picker relies on: `parseInt`
 * with no radix argument, and `String` of an integral number.
 */
module JsNumber {
  import opened Wrappers

  /** JavaScript WhiteSpace and LineTerminator characters, which `parseInt` skips. */
  predicate IsJsSpace(c: char) {
    var x := c as int;
    || x == 0x09 || x == 0x0A || x == 0x0B || x == 0x0C || x == 0x0D || x == 0x20
    || x == 0xA0 || x == 0x1680 || (0x2000 <= x <= 0x200A)
    || x == 0x2028 || x == 0x2029 || x == 0x202F || x == 0x205F || x == 0x3000 || x == 0xFEFF
  }

  /** The text after the leading whitespace. */
  function TrimStart(s: string): (r: string)
    ensures |r| <= |s| && r == s[|s| - |r|..]
    ensures r == [] || !IsJsSpace(r[0])
  {
    if |s| > 0 && IsJsSpace(s[0]) then TrimStart(s[1..]) else s
  }

  /** `c` is a digit in base `radix` (10 or 16; letters in either case). */
  predicate IsDigit(c: char, radix: nat) {
    ('0' <= c <= '9') || (radix == 16 && (('a' <= c <= 'f') || ('A' <= c <= 'F')))
  }

  function DigitValue(c: char): nat {
    if '0' <= c <= '9' then c as nat - '0' as nat
    else if 'a' <= c <= 'f' then c as nat - 'a' as nat + 10
    else if 'A' <= c <= 'F' then c as nat - 'A' as nat + 10
    else 0
  }

  /** The longest prefix of `s` made of base-`radix` digits. */
  function DigitPrefix(s: string, radix: nat): (r: string)
    ensures |r| <= |s| && r == s[..|r|]
    ensures forall k :: 0 <= k < |r| ==> IsDigit(r[k], radix)
    ensures |r| < |s| ==> !IsDigit(s[|r|], radix)
  {
    if |s| > 0 && IsDigit(s[0], radix) then [s[0]] + DigitPrefix(s[1..], radix) else []
  }

  /** The value of a digit string in base 16 or (any other radix) base 10, most significant digit first. */
  function DigitsValue(ds: string, radix: nat): nat {
    if |ds| == 0 then 0
    else if radix == 16 then DigitsValue(ds[..|ds| - 1], radix) * 16 + DigitValue(ds[|ds| - 1])
    else DigitsValue(ds[..|ds| - 1], radix) * 10 + DigitValue(ds[|ds| - 1])
  }

  /**
   * `parseInt(s)`: skip leading whitespace, read an optional sign, read a
   * `0x`/`0X` prefix as base 16 and anything else as base 10, and take the
   * longest run of digits; `None` is `NaN`, returned when that run is empty.
   */
  function ParseInt(s: string): Option<int> {
    ParseTrimmed(TrimStart(s))
  }

  /** `parseInt` of text that starts with something other than whitespace. */
  function ParseTrimmed(t: string): Option<int> {
    var digits := DigitPrefix(Body(t), Radix(t));
    if digits == [] then None
    else if |t| > 0 && t[0] == '-' then Some(-(DigitsValue(digits, Radix(t)) as int))
    else Some(DigitsValue(digits, Radix(t)))
  }

  /** The text after an optional leading sign. */
  function Unsigned(t: string): string {
    if |t| > 0 && (t[0] == '-' || t[0] == '+') then t[1..] else t
  }

  /** The text after the sign and the `0x` prefix: where the digits are read. */
  function Body(t: string): string {
    if Radix(t) == 16 then Unsigned(t)[2..] else Unsigned(t)
  }

  /** 16 when the unsigned text starts with `0x` or `0X`, else 10. */
  function Radix(t: string): nat {
    var u := Unsigned(t);
    if |u| >= 2 && u[0] == '0' && (u[1] == 'x' || u[1] == 'X') then 16 else 10
  }

  /** The decimal digit for `d`. */
  function DigitChar(d: nat): char
    requires d < 10
  {
    ('0' as nat + d) as char
  }

  /** Decimal notation of a natural number, without leading zeros. */
  function NatToString(n: nat): (r: string)
    ensures |r| > 0
    ensures forall k :: 0 <= k < |r| ==> '0' <= r[k] <= '9'
    ensures |r| > 1 ==> r[0] != '0'
  {
    if n < 10 then [DigitChar(n)] else NatToString(n / 10) + [DigitChar(n % 10)]
  }

  /** `String(n)` for an integral number: a minus sign for negatives, then the digits. */
  function IntToString(n: int): string {
    if n < 0 then "-" + NatToString(-n) else NatToString(n)
  }

  lemma {:induction false} NatToStringValue(n: nat)
    ensures DigitsValue(NatToString(n), 10) == n
  {
    if n >= 10 {
      NatToStringValue(n / 10);
      var s := NatToString(n);
      assert s[..|s| - 1] == NatToString(n / 10);
    }
  }

  /** `parseInt` of text whose digits are read in base 10 and are all decimal. */
  lemma ParseTrimmedDecimal(t: string, d: string)
    requires |d| > 0 && forall k :: 0 <= k < |d| ==> '0' <= d[k] <= '9'
    requires Body(t) == d && Radix(t) == 10
    ensures ParseTrimmed(t) == Some(if |t| > 0 && t[0] == '-' then -(DigitsValue(d, 10) as int) else DigitsValue(d, 10) as int)
  {
    assert DigitPrefix(d, 10) == d by {
      DigitPrefixAll(d);
    }
    assert DigitPrefix(Body(t), Radix(t)) == d;
  }

  /** What `parseInt` sees in the notation of a negative number: a minus sign, then decimal digits. */
  lemma NegativeShape(n: int)
    requires n < 0
    ensures TrimStart(IntToString(n)) == IntToString(n)
    ensures IntToString(n)[0] == '-'
    ensures Radix(IntToString(n)) == 10
    ensures Body(IntToString(n)) == NatToString(-n)
  {
    var r := IntToString(n);
    var d := NatToString(-n);
    assert r == "-" + d;
    assert Unsigned(r) == d;
    assert Radix(r) == 10 by {
      assert |d| >= 2 ==> d[1] != 'x' && d[1] != 'X';
    }
  }

  /** What `parseInt` sees in the notation of a non-negative number: decimal digits only. */
  lemma NonNegativeShape(n: int)
    requires n >= 0
    ensures TrimStart(IntToString(n)) == IntToString(n)
    ensures IntToString(n)[0] != '-'
    ensures Radix(IntToString(n)) == 10
    ensures Body(IntToString(n)) == NatToString(n)
  {
    var r := NatToString(n);
    assert IntToString(n) == r;
    assert !IsJsSpace(r[0]) && r[0] != '-' && r[0] != '+';
    assert Unsigned(r) == r;
    assert Radix(r) == 10 by {
      assert |r| >= 2 ==> r[1] != 'x' && r[1] != 'X';
    }
  }

  /** Reading back a number's decimal notation gives the number. */
  lemma ParseIntOfString(n: int)
    ensures ParseInt(IntToString(n)) == Some(n)
  {
    var m := if n < 0 then -n else n;
    if n < 0 {
      NegativeShape(n);
    } else {
      NonNegativeShape(n);
    }
    NatToStringValue(m);
    ParseTrimmedDecimal(IntToString(n), NatToString(m));
  }

  /** A string of decimal digits is its own longest digit prefix. */
  lemma {:induction false} DigitPrefixAll(d: string)
    requires forall k :: 0 <= k < |d| ==> '0' <= d[k] <= '9'
    ensures DigitPrefix(d, 10) == d
  {
    if |d| > 0 {
      DigitPrefixAll(d[1..]);
    }
  }

  /** A non-empty string of decimal digits. */
  predicate IsDecimal(s: string) {
    |s| > 0 && forall k :: 0 <= k < |s| ==> '0' <= s[k] <= '9'
  }

  /** Text that starts with a decimal digit and not with a `0x` or `0X` prefix. */
  predicate StartsDecimal(t: string) {
    |t| > 0 && '0' <= t[0] <= '9' && !(|t| >= 2 && t[0] == '0' && (t[1] == 'x' || t[1] == 'X'))
  }

  /** The unsigned text is a suffix of the text, and all of it when no sign leads. */
  lemma UnsignedSuffix(t: string)
    ensures |Unsigned(t)| <= |t| && Unsigned(t) == t[|t| - |Unsigned(t)|..]
    ensures |t| > 0 && '0' <= t[0] <= '9' ==> Unsigned(t) == t
  {
  }

  /** Only zero is written with a leading `0`. */
  lemma {:induction false} NatToStringLeadingZero(n: nat)
    ensures NatToString(n)[0] == '0' <==> n == 0
  {
    if n >= 10 {
      NatToStringLeadingZero(n / 10);
      assert NatToString(n)[0] == NatToString(n / 10)[0];
    }
  }

  /**
   * `String(n)`: a minus sign exactly for negative numbers, followed by
   * decimal digits that start with `0` only in the notation of zero.
   */
  lemma IntToStringShape(n: int)
    ensures |IntToString(n)| > 0 && (IntToString(n)[0] == '-' <==> n < 0)
    ensures n < 0 ==> IsDecimal(IntToString(n)[1..]) && IntToString(n)[1] != '0'
    ensures n >= 0 ==> IsDecimal(IntToString(n)) && (IntToString(n)[0] == '0' <==> n == 0)
  {
    NatToStringLeadingZero(if n < 0 then -n else n);
    if n < 0 {
      assert IntToString(n)[1..] == NatToString(-n);
    }
  }

  /** `parseInt` finds a number only where the text holds a decimal digit (the `0` of `0x` counts). */
  lemma ParseTrimmedNeedsDigit(t: string)
    ensures ParseTrimmed(t).Some? ==> exists k :: 0 <= k < |t| && '0' <= t[k] <= '9'
  {
    if DigitPrefix(Body(t), Radix(t)) != [] {
      UnsignedSuffix(t);
      assert '0' <= t[|t| - |Unsigned(t)|] <= '9';
    }
  }

  /** Text that starts with a decimal digit outside a `0x` prefix parses to a non-negative number. */
  lemma ParseTrimmedStartsDecimal(t: string)
    requires StartsDecimal(t)
    ensures ParseTrimmed(t).Some? && ParseTrimmed(t).value >= 0
  {
    assert Unsigned(t) == t;
    assert Radix(t) == 10;
    assert Body(t) == t;
    assert DigitPrefix(t, 10) != [] by {
      assert IsDigit(t[0], 10);
    }
  }

  /** A string of decimal digits parses to its decimal value. */
  lemma ParseTrimmedAllDigits(t: string)
    requires IsDecimal(t)
    ensures ParseTrimmed(t) == Some(DigitsValue(t, 10) as int)
  {
    UnsignedSuffix(t);
    ParseTrimmedDecimal(t, t);
  }

  /** A decimal digit in a suffix of `s` is a decimal digit of `s`. */
  lemma DigitInSuffix(s: string, t: string)
    requires |t| <= |s| && t == s[|s| - |t|..]
    ensures (exists k :: 0 <= k < |t| && '0' <= t[k] <= '9') ==> exists k :: 0 <= k < |s| && '0' <= s[k] <= '9'
  {
    if k :| 0 <= k < |t| && '0' <= t[k] <= '9' {
      assert s[|s| - |t| + k] == t[k];
    }
  }

  /** Text that starts with a digit has no leading whitespace to skip. */
  lemma TrimStartDecimal(s: string)
    requires IsDecimal(s)
    ensures TrimStart(s) == s
  {
    assert !IsJsSpace(s[0]);
  }

  /**
   * `parseInt(s)`: a result needs a decimal digit somewhere in `s`; only a
   * minus sign after the leading whitespace makes it negative; text whose
   * first non-blank character is a decimal digit outside a `0x` prefix
   * always parses; an all-digit string parses to its decimal value.
   */
  lemma ParseIntSpec(s: string)
    ensures ParseInt(s).Some? ==> exists k :: 0 <= k < |s| && '0' <= s[k] <= '9'
    ensures ParseInt(s).Some? && ParseInt(s).value < 0 ==> |TrimStart(s)| > 0 && TrimStart(s)[0] == '-'
    ensures StartsDecimal(TrimStart(s)) ==> ParseInt(s).Some? && ParseInt(s).value >= 0
    ensures IsDecimal(s) ==> ParseInt(s) == Some(DigitsValue(s, 10) as int)
  {
    var t := TrimStart(s);
    ParseTrimmedNeedsDigit(t);
    DigitInSuffix(s, t);
    if StartsDecimal(t) {
      ParseTrimmedStartsDecimal(t);
    }
    if IsDecimal(s) {
      TrimStartDecimal(s);
      ParseTrimmedAllDigits(s);
    }
  }

  /** Distinct numbers have distinct decimal notations. */
  lemma IntToStringInjective(a: int, b: int)
    ensures IntToString(a) == IntToString(b) ==> a == b
  {
    ParseIntOfString(a);
    ParseIntOfString(b);
  }
}
