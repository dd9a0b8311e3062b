/**
 * JavaScript value semantics the handlers depend on: absent request fields,
 * truthiness of strings, `xs || []` on arrays, and `parseInt` on a query
 * string (no radix argument), which decides whether a list limit applies.
 */
module JsValues {
  import opened Optional

  /** `!!v` for a field that is a string, `undefined` or `null`:
      only a non-empty string is truthy. */
  predicate Truthy(v: Option<string>) {
    v.Some? && v.value != ""
  }

  /** `xs || []` for an array-valued body field. An array is truthy even when
      empty, so only an absent field falls back to the empty list. */
  function OrEmpty<T>(v: Option<seq<T>>): seq<T> {
    if v.Some? then v.value else []
  }

  /** A JavaScript number as produced by `parseInt`: NaN or an integer. */
  datatype Number = NaN | Int(value: int)

  /** `!!n`: NaN and zero (also negative zero) are falsy. */
  predicate NumberTruthy(n: Number) {
    n.Int? && n.value != 0
  }

  /** The white-space characters `parseInt` skips before the number
      (the ASCII ones plus no-break space and the byte-order mark). */
  predicate IsSpace(c: char) {
    c == ' ' || c == '\t' || c == '\n' || c == '\r' || c == '\U{000B}' || c == '\U{000C}'
    || c == '\U{00A0}' || c == '\U{FEFF}'
  }

  /** Drops the leading white space of `s`. */
  function TrimStart(s: string): (r: string)
    ensures |r| <= |s| && r == s[|s| - |r|..]
    ensures r == [] || !IsSpace(r[0])
    ensures forall i :: 0 <= i < |s| - |r| ==> IsSpace(s[i])
  {
    if s != [] && IsSpace(s[0]) then TrimStart(s[1..]) else s
  }

  /** The value of `c` as a digit in any radix up to 36, or 36 when `c` is
      not a digit at all. */
  function DigitValue(c: char): nat {
    if '0' <= c <= '9' then c as int - '0' as int
    else if 'a' <= c <= 'z' then c as int - 'a' as int + 10
    else if 'A' <= c <= 'Z' then c as int - 'A' as int + 10
    else 36
  }

  predicate IsDigit(c: char, radix: nat) {
    DigitValue(c) < radix
  }

  /** Length of the longest prefix of `s` made of radix-`radix` digits. */
  function DigitRun(s: string, radix: nat): (n: nat)
    ensures n <= |s|
    ensures forall i :: 0 <= i < n ==> IsDigit(s[i], radix)
    ensures n < |s| ==> !IsDigit(s[n], radix)
  {
    if s == [] || !IsDigit(s[0], radix) then 0 else 1 + DigitRun(s[1..], radix)
  }

  /** The number the digits of `s` denote, most significant first. */
  function DigitsValue(s: string, radix: nat): nat {
    if s == [] then 0 else DigitsValue(s[..|s| - 1], radix) * radix + DigitValue(s[|s| - 1])
  }

  /** The unsigned part of `parseInt`: hexadecimal after a `0x`/`0X` prefix,
      decimal otherwise, up to the first non-digit; NaN when no digit was read. */
  function ParseUnsigned(u: string): Number {
    var hex := |u| >= 2 && u[0] == '0' && (u[1] == 'x' || u[1] == 'X');
    var radix := if hex then 16 else 10;
    var digits := if hex then u[2..] else u;
    var n := DigitRun(digits, radix);
    if n == 0 then NaN else Int(DigitsValue(digits[..n], radix))
  }

  /** Unary minus on a number; NaN stays NaN. */
  function Negate(n: Number): Number {
    match n
    case NaN => NaN
    case Int(v) => Int(-v)
  }

  /** `parseInt(s)` without a radix: skip leading white space, take an optional
      sign, then read the unsigned number that follows. */
  function ParseInt(s: string): Number {
    var t := TrimStart(s);
    if t != [] && t[0] == '-' then Negate(ParseUnsigned(t[1..]))
    else if t != [] && t[0] == '+' then ParseUnsigned(t[1..])
    else ParseUnsigned(t)
  }

  function DigitChar(d: nat): char
    requires d < 10
  {
    ('0' as int + d) as char
  }

  /** The decimal rendering of `n` a client puts in `?limit=`. */
  function Decimal(n: nat): (s: string)
    ensures |s| >= 1
    ensures forall i :: 0 <= i < |s| ==> IsDigit(s[i], 10)
    ensures s[0] == '0' ==> n == 0
  {
    if n < 10 then [DigitChar(n)] else Decimal(n / 10) + [DigitChar(n % 10)]
  }

  /** Reading back the decimal rendering of `n` gives `n`. */
  lemma {:induction false} DecimalValue(n: nat)
    ensures DigitsValue(Decimal(n), 10) == n
  {
    if n >= 10 {
      var s := Decimal(n);
      assert s[..|s| - 1] == Decimal(n / 10);
      DecimalValue(n / 10);
    }
  }

  /** The digit run of a block of digits followed by a non-digit is the block. */
  lemma {:induction false} DigitRunStops(p: string, rest: string, radix: nat)
    requires forall i :: 0 <= i < |p| ==> IsDigit(p[i], radix)
    requires rest == [] || !IsDigit(rest[0], radix)
    ensures DigitRun(p + rest, radix) == |p|
  {
    if p != [] {
      assert (p + rest)[1..] == p[1..] + rest;
      DigitRunStops(p[1..], rest, radix);
    }
  }

  /** The unsigned reader takes the decimal rendering of `n` up to the first
      non-digit that follows it. */
  lemma ParseUnsignedDecimal(n: nat, rest: string)
    requires rest == [] || (!IsDigit(rest[0], 10) && rest[0] != 'x' && rest[0] != 'X')
    ensures ParseUnsigned(Decimal(n) + rest) == Int(n)
  {
    var d := Decimal(n);
    var s := d + rest;
    assert s[0] == d[0];
    if |s| >= 2 && s[0] == '0' {
      assert |d| == 1 && s[1] == rest[0];
    }
    DigitRunStops(d, rest, 10);
    assert s[..|d|] == d;
    DecimalValue(n);
  }

  /** `parseInt` reads the decimal rendering of `n`, ignoring whatever
      non-digit text follows it (`parseInt("3abc") === 3`). */
  lemma ParseIntDecimal(n: nat, rest: string)
    requires rest == [] || (!IsDigit(rest[0], 10) && rest[0] != 'x' && rest[0] != 'X')
    ensures ParseInt(Decimal(n) + rest) == Int(n)
  {
    var s := Decimal(n) + rest;
    assert s[0] == Decimal(n)[0];
    assert TrimStart(s) == s;
    ParseUnsignedDecimal(n, rest);
  }

  /** `parseInt` reads a minus sign in front of the decimal rendering of `n`. */
  lemma ParseIntNegative(n: nat)
    ensures ParseInt("-" + Decimal(n)) == Int(-(n as int))
  {
    var s := "-" + Decimal(n);
    assert TrimStart(s) == s;
    assert s[1..] == Decimal(n) + [];
    ParseUnsignedDecimal(n, []);
  }

  /** Text whose first non-blank character is neither a sign nor a decimal
      digit is not a number. */
  lemma ParseIntNoDigits(s: string)
    requires TrimStart(s) != []
    requires var c := TrimStart(s)[0]; !IsDigit(c, 10) && c != '-' && c != '+'
    ensures ParseInt(s) == NaN
  {
  }
}
