/** The JavaScript string primitives the request handlers rely on:
    `String.prototype.trim`, the truthiness of a string parameter,
    `split(' ')`, and the global `parseInt` with no radix argument. */
module JsText {
  import opened Options

  /** ECMAScript StrWhiteSpaceChar: the WhiteSpace code points (tab, vertical tab,
      form feed, space, no-break space, byte-order mark and the Zs category) and
      the LineTerminator code points (LF, CR, LS, PS). */
  predicate IsWhiteSpace(c: char) {
    var n := c as int;
    n == 0x09 || n == 0x0A || n == 0x0B || n == 0x0C || n == 0x0D || n == 0x20
    || n == 0xA0 || n == 0x1680 || (0x2000 <= n <= 0x200A) || n == 0x2028
    || n == 0x2029 || n == 0x202F || n == 0x205F || n == 0x3000 || n == 0xFEFF
  }

  /** Every character is white space. */
  predicate Blank(s: string) {
    forall i :: 0 <= i < |s| ==> IsWhiteSpace(s[i])
  }

  /** Drops the leading white space, as `trimStart` does. */
  function TrimStart(s: string): (r: string)
    ensures |r| <= |s| && r == s[|s| - |r|..]
    ensures r == [] || !IsWhiteSpace(r[0])
  {
    if s != [] && IsWhiteSpace(s[0]) then TrimStart(s[1..]) else s
  }

  /** What `TrimStart` drops is white space. */
  lemma {:induction false} TrimStartDropsBlank(s: string)
    ensures Blank(s[..|s| - |TrimStart(s)|])
  {
    if s != [] && IsWhiteSpace(s[0]) {
      TrimStartDropsBlank(s[1..]);
      var k := |s| - |TrimStart(s)|;
      assert s[..k] == [s[0]] + s[1..][..k - 1];
    }
  }

  /** Drops the trailing white space, as `trimEnd` does. */
  function TrimEnd(s: string): (r: string)
    ensures |r| <= |s| && r == s[..|r|]
    ensures r == [] || !IsWhiteSpace(r[|r| - 1])
  {
    if s != [] && IsWhiteSpace(s[|s| - 1]) then TrimEnd(s[..|s| - 1]) else s
  }

  /** What `TrimEnd` drops is white space. */
  lemma {:induction false} TrimEndDropsBlank(s: string)
    ensures Blank(s[|TrimEnd(s)|..])
  {
    if s != [] && IsWhiteSpace(s[|s| - 1]) {
      var u := s[..|s| - 1];
      TrimEndDropsBlank(u);
      var k := |TrimEnd(s)|;
      assert s[k..] == u[k..] + [s[|s| - 1]];
    }
  }

  /** `s.trim()`. */
  function Trim(s: string): string {
    TrimEnd(TrimStart(s))
  }

  /** `s.trim()` is empty exactly when every character of `s` is white space. */
  lemma TrimEmptyIff(s: string)
    ensures Trim(s) == [] <==> Blank(s)
  {
    var t := TrimStart(s);
    if Trim(s) == [] {
      TrimStartDropsBlank(s);
      TrimEndDropsBlank(t);
      assert t == [];
      assert s[..|s| - |t|] == s;
    } else {
      var r := Trim(s);
      assert !IsWhiteSpace(r[0]);
      assert r[0] == t[0];
      assert t[0] == s[|s| - |t|];
    }
  }

  /** The guard `p && p.trim() !== ""` on a query parameter: the parameter is
      defined, non-empty (so truthy) and not all white space. */
  predicate Present(p: Option<string>) {
    p.Some? && p.value != "" && Trim(p.value) != ""
  }

  /** A parameter passes the guard exactly when it holds a character that is not
      white space. */
  lemma PresentIff(p: Option<string>)
    ensures Present(p) <==> p.Some? && !Blank(p.value)
  {
    if p.Some? {
      TrimEmptyIff(p.value);
    }
  }

  /** `s.split(sep)` for a one-character separator. */
  function Split(s: string, sep: char): (parts: seq<string>)
    ensures |parts| >= 1
    ensures forall i :: 0 <= i < |parts| ==> sep !in parts[i]
  {
    if s == [] then [[]]
    else
      var rest := Split(s[1..], sep);
      if s[0] == sep then [[]] + rest
      else [[s[0]] + rest[0]] + rest[1..]
  }

  /** `parts.join(sep)`, the inverse of `Split`. */
  function Join(parts: seq<string>, sep: char): string
    requires |parts| >= 1
  {
    if |parts| == 1 then parts[0] else parts[0] + [sep] + Join(parts[1..], sep)
  }

  lemma {:induction false} JoinSplit(s: string, sep: char)
    ensures Join(Split(s, sep), sep) == s
  {
    if s != [] {
      JoinSplit(s[1..], sep);
      var rest := Split(s[1..], sep);
      if s[0] != sep {
        if |rest| == 1 {
          assert Join(Split(s, sep), sep) == [s[0]] + rest[0];
        } else {
          assert rest == [rest[0]] + rest[1..];
          assert Join(rest, sep) == rest[0] + [sep] + Join(rest[1..], sep);
          assert Join(Split(s, sep), sep) == [s[0]] + rest[0] + [sep] + Join(rest[1..], sep);
        }
        assert [s[0]] + s[1..] == s;
      }
    }
  }

  /** Splitting a word free of separators, followed by anything. */
  lemma {:induction false} SplitAfterWord(w: string, t: string, sep: char)
    requires sep !in w
    ensures Split(w + t, sep) == [w + Split(t, sep)[0]] + Split(t, sep)[1..]
  {
    var x := Split(t, sep);
    if w == [] {
      assert w + t == t;
      assert w + x[0] == x[0];
      assert x == [x[0]] + x[1..];
    } else {
      SplitAfterWord(w[1..], t, sep);
      var s := w + t;
      assert s[0] == w[0] && s[1..] == w[1..] + t;
      var rest := Split(s[1..], sep);
      assert rest[0] == w[1..] + x[0] && rest[1..] == x[1..];
      assert Split(s, sep) == [[w[0]] + rest[0]] + rest[1..];
      assert [w[0]] + (w[1..] + x[0]) == w + x[0];
    }
  }

  lemma {:induction false} SplitJoin(parts: seq<string>, sep: char)
    requires |parts| >= 1
    requires forall i :: 0 <= i < |parts| ==> sep !in parts[i]
    ensures Split(Join(parts, sep), sep) == parts
  {
    if |parts| == 1 {
      SplitAfterWord(parts[0], [], sep);
      assert parts[0] + [] == parts[0];
    } else {
      var tail := Join(parts[1..], sep);
      SplitJoin(parts[1..], sep);
      assert Split([sep] + tail, sep) == [[]] + parts[1..];
      SplitAfterWord(parts[0], [sep] + tail, sep);
      assert parts[0] + [sep] + tail == parts[0] + ([sep] + tail);
      assert parts[0] + [] == parts[0];
      assert parts == [parts[0]] + parts[1..];
    }
  }

  /** The number `parseInt` produces; `-0` is folded into `Int(0)`, since the
      handlers only test it for truthiness, where both zeros are falsy. */
  datatype Number = NaN | Int(value: int)

  /** The value of a digit in radix up to 36; 36 for anything that is not one. */
  function DigitValue(c: char): nat {
    if '0' <= c <= '9' then c as int - '0' as int
    else if 'a' <= c <= 'z' then c as int - 'a' as int + 10
    else if 'A' <= c <= 'Z' then c as int - 'A' as int + 10
    else 36
  }

  /** The length of the longest prefix of `s` made of radix-`radix` digits. */
  function DigitPrefixLength(s: string, radix: nat): (n: nat)
    ensures n <= |s|
    ensures forall i :: 0 <= i < n ==> DigitValue(s[i]) < radix
    ensures n < |s| ==> DigitValue(s[n]) >= radix
  {
    if s != [] && DigitValue(s[0]) < radix then 1 + DigitPrefixLength(s[1..], radix) else 0
  }

  /** The mathematical value of a digit string, most significant digit first. */
  function DigitsValue(z: string, radix: nat): nat {
    if z == [] then 0
    else DigitsValue(z[..|z| - 1], radix) * radix + DigitValue(z[|z| - 1])
  }

  /** A `0x` or `0X` prefix, which selects radix 16. */
  predicate HexPrefixed(u: string) {
    |u| >= 2 && u[0] == '0' && (u[1] == 'x' || u[1] == 'X')
  }

  /** The digits after an optional sign: a `0x`/`0X` prefix selects radix 16,
      anything else radix 10, and the longest digit prefix is converted; no
      digit at all gives `NaN`. */
  function ParseUnsigned(u: string): Number
    ensures ParseUnsigned(u).Int? ==> ParseUnsigned(u).value >= 0
  {
    var hex := HexPrefixed(u);
    var radix := if hex then 16 else 10;
    var v := if hex then u[2..] else u;
    var n := DigitPrefixLength(v, radix);
    if n == 0 then NaN else Int(DigitsValue(v[..n], radix))
  }

  /** The sign `parseInt` reads: whether the text starts with `-` or `+`. */
  predicate HasSign(t: string) {
    t != [] && (t[0] == '-' || t[0] == '+')
  }

  function ApplySign(negative: bool, n: Number): Number {
    match n
    case NaN => NaN
    case Int(m) => Int(if negative then -m else m)
  }

  /** `parseInt(s)` with the radix left undefined: leading white space is
      skipped, then one `-` or `+` sign is read, then `ParseUnsigned`. */
  function ParseInt(s: string): Number {
    var t := TrimStart(s);
    if HasSign(t) then ApplySign(t[0] == '-', ParseUnsigned(t[1..]))
    else ParseUnsigned(t)
  }

  /** What `parseInt` reads its digits from: the text after leading white
      space and one sign. */
  function Unsigned(s: string): string {
    var t := TrimStart(s);
    if HasSign(t) then t[1..] else t
  }

  /** Unsigned text in which `parseInt` finds no digit: after a `0x` prefix
      nothing or a non-hex character follows, and without one the first
      character is not a decimal digit. */
  predicate NoNumber(u: string) {
    if HexPrefixed(u) then |u| == 2 || DigitValue(u[2]) >= 16
    else u == [] || DigitValue(u[0]) >= 10
  }

  /** Unsigned text is `NaN` exactly when it holds no number. */
  lemma ParseUnsignedNaNIff(u: string)
    ensures ParseUnsigned(u) == NaN <==> NoNumber(u)
  {
    if HexPrefixed(u) && |u| > 2 {
      assert u[2..][0] == u[2];
    }
  }

  /** `parseInt` gives `NaN` exactly when no number follows the white space
      and the sign. */
  lemma ParseIntNaNIff(s: string)
    ensures ParseInt(s) == NaN <==> NoNumber(Unsigned(s))
  {
    ParseUnsignedNaNIff(Unsigned(s));
  }

  function DecimalDigit(d: nat): char
    requires d < 10
  {
    ('0' as int + d) as char
  }

  /** The decimal rendering of a natural number, without leading zeros. */
  function NatString(n: nat): (s: string)
    ensures |s| >= 1
    ensures forall i :: 0 <= i < |s| ==> DigitValue(s[i]) < 10
    ensures n >= 10 ==> s[0] != '0'
  {
    if n < 10 then [DecimalDigit(n)] else NatString(n / 10) + [DecimalDigit(n % 10)]
  }

  /** The decimal rendering of an integer, as `String(n)` gives it. */
  function DecimalString(n: int): string {
    if n < 0 then "-" + NatString(-n) else NatString(n)
  }

  lemma {:induction false} NatStringValue(n: nat)
    ensures DigitsValue(NatString(n), 10) == n
  {
    var s := NatString(n);
    if n >= 10 {
      NatStringValue(n / 10);
      assert s[..|s| - 1] == NatString(n / 10);
    }
  }

  /** The digit prefix of `digits + rest` is `digits` when `rest` does not
      start with a digit. */
  lemma DigitPrefixStops(digits: string, rest: string, radix: nat)
    requires forall i :: 0 <= i < |digits| ==> DigitValue(digits[i]) < radix
    requires rest == [] || DigitValue(rest[0]) >= radix
    ensures DigitPrefixLength(digits + rest, radix) == |digits|
  {
    var u := digits + rest;
    assert forall i :: 0 <= i < |digits| ==> u[i] == digits[i];
    assert rest != [] ==> u[|digits|] == rest[0];
  }

  /** A rendering of a natural number, followed by a character that is not a
      decimal digit, reads back as that number. */
  lemma ParseUnsignedNat(m: nat, rest: string)
    requires rest == [] || (DigitValue(rest[0]) >= 10 && rest[0] != 'x' && rest[0] != 'X')
    ensures ParseUnsigned(NatString(m) + rest) == Int(m)
  {
    var digits := NatString(m);
    var u := digits + rest;
    assert u[0] == digits[0];
    assert !(|u| >= 2 && u[0] == '0' && (u[1] == 'x' || u[1] == 'X')) by {
      if |digits| == 1 {
        assert |u| >= 2 ==> u[1] == rest[0];
      } else {
        assert m >= 10;
      }
    }
    DigitPrefixStops(digits, rest, 10);
    assert u[..|digits|] == digits;
    NatStringValue(m);
  }

  /** `parseInt` reads back every decimal rendering, followed by anything that
      cannot continue the number (a character that is neither a decimal digit
      nor an `x` that would turn a lone `0` into a hexadecimal prefix). */
  lemma ParseIntDecimal(n: int, rest: string)
    requires rest == [] || (DigitValue(rest[0]) >= 10 && rest[0] != 'x' && rest[0] != 'X')
    ensures ParseInt(DecimalString(n) + rest) == Int(n)
  {
    var s := DecimalString(n) + rest;
    if n < 0 {
      var m: nat := -n;
      var t := "-" + (NatString(m) + rest);
      assert s == t;
      ParseIntNegated(m, rest);
      assert ParseInt(t) == Int(n);
    } else {
      assert s == NatString(n) + rest;
      ParseIntNat(n, rest);
    }
  }

  lemma ParseIntNat(m: nat, rest: string)
    requires rest == [] || (DigitValue(rest[0]) >= 10 && rest[0] != 'x' && rest[0] != 'X')
    ensures ParseInt(NatString(m) + rest) == Int(m)
  {
    var body := NatString(m) + rest;
    assert body[0] == NatString(m)[0];
    ParseUnsignedNat(m, rest);
    ParseIntUnsigned(body);
  }

  lemma ParseIntNegated(m: nat, rest: string)
    requires rest == [] || (DigitValue(rest[0]) >= 10 && rest[0] != 'x' && rest[0] != 'X')
    ensures ParseInt("-" + (NatString(m) + rest)) == Int(-(m as int))
  {
    var body := NatString(m) + rest;
    assert body[0] == NatString(m)[0];
    ParseUnsignedNat(m, rest);
    ParseIntMinus(body, m);
  }

  /** Text that starts with a decimal digit is read without a sign. */
  lemma ParseIntUnsigned(s: string)
    requires s != [] && DigitValue(s[0]) < 10
    ensures ParseInt(s) == ParseUnsigned(s)
  {
    DecimalDigitIsPlain(s[0]);
    assert TrimStart(s) == s;
    assert !HasSign(s);
  }

  /** A `-` directly before a digit negates what follows. */
  lemma ParseIntMinus(b: string, k: int)
    requires b != [] && DigitValue(b[0]) < 10
    requires ParseUnsigned(b) == Int(k)
    ensures ParseInt("-" + b) == Int(-k)
  {
    DecimalDigitIsPlain(b[0]);
    var s := "-" + b;
    assert !IsWhiteSpace(s[0]);
    assert TrimStart(s) == s;
    assert s[1..] == b;
  }

  /** A decimal digit is neither white space nor a sign. */
  lemma DecimalDigitIsPlain(c: char)
    requires DigitValue(c) < 10
    ensures '0' <= c <= '9'
    ensures !IsWhiteSpace(c) && c != '-' && c != '+'
  {
  }

  /** Text without a single decimal digit is not a number to `parseInt`. */
  lemma ParseIntNoDigits(s: string)
    requires forall i :: 0 <= i < |s| ==> DigitValue(s[i]) >= 10
    ensures ParseInt(s) == NaN
  {
    var t := TrimStart(s);
    var k := |s| - |t|;
    var u := if HasSign(t) then t[1..] else t;
    var j := if HasSign(t) then k + 1 else k;
    assert u == s[j..];
    if u != [] {
      assert u[0] == s[j];
    }
    ParseUnsignedNoDigit(u);
  }

  /** Text that does not start with a decimal digit has no number in it. */
  lemma ParseUnsignedNoDigit(u: string)
    requires u == [] || DigitValue(u[0]) >= 10
    ensures ParseUnsigned(u) == NaN
  {
    assert u != [] ==> u[0] != '0';
  }

  /** `parseInt(undefined)` reads the string "undefined" and finds no digit. */
  lemma ParseIntUndefined()
    ensures ParseInt("undefined") == NaN
  {
    var s := "undefined";
    assert !IsWhiteSpace(s[0]);
    assert TrimStart(s) == s;
    assert DigitValue(s[0]) == 30;
    assert DigitPrefixLength(s, 10) == 0;
    assert ParseUnsigned(s) == NaN;
  }
}
