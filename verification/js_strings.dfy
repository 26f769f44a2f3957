/** The two JavaScript string built-ins the handlers apply to a due date:
    `String.prototype.split` with a one-character separator and the global
    `parseInt` with no radix (ECMAScript 2023, sections 22.1.3.23 and 19.2.5). */
module JsStrings {
  import opened Wrappers

  /** Number of occurrences of `c` in `s`. */
  function Count(s: string, c: char): nat
  {
    if s == [] then 0 else (if s[0] == c then 1 else 0) + Count(s[1..], c)
  }

  /** `s.split(sep)`: the maximal pieces between separators, in order. */
  function Split(s: string, sep: char): (parts: seq<string>)
    ensures |parts| == Count(s, sep) + 1
    ensures forall i :: 0 <= i < |parts| ==> sep !in parts[i]
    decreases |s|
  {
    if s == [] then [""]
    else
      var rest := Split(s[1..], sep);
      if s[0] == sep then [""] + rest
      else [[s[0]] + rest[0]] + rest[1..]
  }

  /** `parts.join(sep)`, the inverse of `Split`. */
  function Join(parts: seq<string>, sep: char): string
    requires |parts| >= 1
  {
    if |parts| == 1 then parts[0] else parts[0] + [sep] + Join(parts[1..], sep)
  }

  /** Joining the pieces again gives back the original string. */
  lemma {:induction false} JoinSplit(s: string, sep: char)
    ensures Join(Split(s, sep), sep) == s
    decreases |s|
  {
    if s != [] {
      var rest := Split(s[1..], sep);
      JoinSplit(s[1..], sep);
      if s[0] == sep {
        assert Split(s, sep) == [""] + rest;
        assert ([""] + rest)[1..] == rest;
      } else {
        var parts := [[s[0]] + rest[0]] + rest[1..];
        assert Split(s, sep) == parts;
        if |rest| == 1 {
          assert Join(parts, sep) == [s[0]] + rest[0];
        } else {
          assert parts[1..] == rest[1..];
          assert Join(parts, sep) == [s[0]] + rest[0] + [sep] + Join(rest[1..], sep);
        }
      }
    }
  }

  /** A piece free of the separator, followed by the separator, splits off as one piece. */
  lemma {:induction false} SplitAfterPiece(a: string, sep: char, rest: string)
    requires sep !in a
    ensures Split(a + [sep] + rest, sep) == [a] + Split(rest, sep)
    decreases |a|
  {
    var s := a + [sep] + rest;
    if a == [] {
      assert s[0] == sep && s[1..] == rest;
    } else {
      assert s[0] == a[0] && s[1..] == a[1..] + [sep] + rest;
      SplitAfterPiece(a[1..], sep, rest);
      assert [a[0]] + a[1..] == a;
    }
  }

  /** A string free of the separator is a single piece. */
  lemma {:induction false} SplitWhole(a: string, sep: char)
    requires sep !in a
    ensures Split(a, sep) == [a]
    decreases |a|
  {
    if a != [] {
      SplitWhole(a[1..], sep);
      assert [a[0]] + a[1..] == a;
    }
  }

  /** Splitting a join of separator-free pieces gives back the pieces. */
  lemma {:induction false} SplitJoin(parts: seq<string>, sep: char)
    requires |parts| >= 1
    requires forall i :: 0 <= i < |parts| ==> sep !in parts[i]
    ensures Split(Join(parts, sep), sep) == parts
    decreases |parts|
  {
    if |parts| == 1 {
      SplitWhole(parts[0], sep);
    } else {
      SplitJoin(parts[1..], sep);
      SplitAfterPiece(parts[0], sep, Join(parts[1..], sep));
      assert [parts[0]] + parts[1..] == parts;
    }
  }

  /** The characters `parseInt` skips before the number: ECMAScript's
      WhiteSpace and LineTerminator code points. */
  predicate IsJsSpace(c: char)
  {
    var n := c as int;
    n == 0x09 || n == 0x0A || n == 0x0B || n == 0x0C || n == 0x0D || n == 0x20 ||
    n == 0xA0 || n == 0x1680 || (0x2000 <= n <= 0x200A) || n == 0x2028 ||
    n == 0x2029 || n == 0x202F || n == 0x205F || n == 0x3000 || n == 0xFEFF
  }

  /** `s` with its leading white space removed. */
  function TrimStart(s: string): (t: string)
    ensures |t| <= |s| && t == s[|s| - |t|..]
    ensures forall i :: 0 <= i < |s| - |t| ==> IsJsSpace(s[i])
    ensures t == [] || !IsJsSpace(t[0])
    decreases |s|
  {
    if s != [] && IsJsSpace(s[0]) then TrimStart(s[1..]) else s
  }

  /** A digit of the given radix (10, or 16 after a `0x` prefix). */
  predicate IsDigit(c: char, radix: nat)
  {
    ('0' <= c <= '9') ||
    (radix == 16 && (('a' <= c <= 'f') || ('A' <= c <= 'F')))
  }

  function DigitValue(c: char, radix: nat): (d: nat)
    requires IsDigit(c, radix)
    ensures d < 10 || (radix == 16 && d < 16)
  {
    if '0' <= c <= '9' then c as int - '0' as int
    else if 'a' <= c <= 'f' then c as int - 'a' as int + 10
    else c as int - 'A' as int + 10
  }

  predicate AllDigits(z: string, radix: nat)
  {
    forall i :: 0 <= i < |z| ==> IsDigit(z[i], radix)
  }

  /** The longest prefix of `s` made of digits: `parseInt` stops at the first non-digit. */
  function DigitPrefix(s: string, radix: nat): (z: string)
    ensures |z| <= |s| && z == s[..|z|]
    ensures AllDigits(z, radix)
    ensures |z| < |s| ==> !IsDigit(s[|z|], radix)
    decreases |s|
  {
    if s != [] && IsDigit(s[0], radix) then [s[0]] + DigitPrefix(s[1..], radix) else []
  }

  /** The number a digit string denotes, most significant digit first. */
  function DigitsValue(z: string, radix: nat): nat
    requires AllDigits(z, radix)
    decreases |z|
  {
    if z == [] then 0
    else DigitsValue(z[..|z| - 1], radix) * radix + DigitValue(z[|z| - 1], radix)
  }

  /** The sign `parseInt` reads after the white space. */
  function Sign(t: string): int
  {
    if t != [] && t[0] == '-' then -1 else 1
  }

  /** What follows the optional sign. */
  function Unsigned(t: string): string
  {
    if t != [] && (t[0] == '-' || t[0] == '+') then t[1..] else t
  }

  /** An `0x` or `0X` prefix switches `parseInt` to radix 16. */
  predicate HexPrefixed(u: string)
  {
    |u| >= 2 && u[0] == '0' && (u[1] == 'x' || u[1] == 'X')
  }

  /** `parseInt(s)` with no radix: leading white space, an optional sign, an
      optional `0x`/`0X` prefix selecting radix 16, then as many digits as
      there are. `None` is NaN (no digit at all). */
  function ParseInt(s: string): Option<int>
  {
    var t := TrimStart(s);
    var u := Unsigned(t);
    var radix := if HexPrefixed(u) then 16 else 10;
    var z := DigitPrefix(if HexPrefixed(u) then u[2..] else u, radix);
    if z == [] then None else Some(Sign(t) * DigitsValue(z, radix))
  }

  /** The decimal digits of `n`, without leading zeros. */
  function Decimal(n: nat): (z: string)
    ensures |z| >= 1 && AllDigits(z, 10)
    decreases n
  {
    if n < 10 then [('0' as int + n) as char]
    else Decimal(n / 10) + [('0' as int + n % 10) as char]
  }

  function Zeros(k: nat): (z: string)
    ensures |z| == k && forall i :: 0 <= i < k ==> z[i] == '0'
  {
    if k == 0 then [] else ['0'] + Zeros(k - 1)
  }

  /** `n` in decimal, padded on the left with zeros to at least `width`
      digits, as the `yyyy`, `MM` and `dd` fields of a formatted date are. */
  function PadDecimal(n: nat, width: nat): (z: string)
    ensures |z| >= width && |z| >= 1 && AllDigits(z, 10)
  {
    var d := Decimal(n);
    var z := Zeros(if |d| < width then width - |d| else 0) + d;
    assert forall i :: 0 <= i < |z| ==> IsDigit(z[i], 10) by {
      forall i | 0 <= i < |z| ensures IsDigit(z[i], 10) {
        if i >= |z| - |d| { assert z[i] == d[i - (|z| - |d|)]; }
      }
    }
    z
  }

  lemma {:induction false} DecimalValue(n: nat)
    ensures DigitsValue(Decimal(n), 10) == n
    decreases n
  {
    var z := Decimal(n);
    if n >= 10 {
      DecimalValue(n / 10);
      assert z[..|z| - 1] == Decimal(n / 10);
    }
  }

  /** Leading zeros do not change the value of a digit string. */
  lemma {:induction false} LeadingZerosValue(k: nat, d: string)
    requires AllDigits(d, 10)
    ensures AllDigits(Zeros(k) + d, 10)
    ensures DigitsValue(Zeros(k) + d, 10) == DigitsValue(d, 10)
    decreases |d|, k
  {
    var z := Zeros(k) + d;
    assert AllDigits(z, 10) by {
      forall i | 0 <= i < |z| ensures IsDigit(z[i], 10) {
        if i >= k { assert z[i] == d[i - k]; }
      }
    }
    if d == [] {
      assert z == Zeros(k);
      if k > 0 {
        assert z[..|z| - 1] == Zeros(k - 1) + [];
        LeadingZerosValue(k - 1, []);
      }
    } else {
      assert z[..|z| - 1] == Zeros(k) + d[..|d| - 1];
      LeadingZerosValue(k, d[..|d| - 1]);
    }
  }

  /** A digit string is its own digit prefix. */
  lemma {:induction false} DigitPrefixOfDigits(z: string, radix: nat)
    requires AllDigits(z, radix)
    ensures DigitPrefix(z, radix) == z
    decreases |z|
  {
    if z != [] {
      DigitPrefixOfDigits(z[1..], radix);
      assert [z[0]] + z[1..] == z;
    }
  }

  /** White space stops at a digit. */
  lemma TrimStartAtDigit(z: string)
    requires |z| >= 1 && IsDigit(z[0], 10)
    ensures TrimStart(z) == z
  {
  }

  /** A nonempty decimal digit string parses as its value. */
  lemma ParseIntOfDigits(z: string)
    requires |z| >= 1 && AllDigits(z, 10)
    ensures ParseInt(z) == Some(DigitsValue(z, 10))
  {
    TrimStartAtDigit(z);
    assert Unsigned(z) == z && Sign(z) == 1;
    assert !HexPrefixed(z) by {
      if |z| >= 2 { assert IsDigit(z[1], 10); }
    }
    DigitPrefixOfDigits(z, 10);
    var v := DigitsValue(z, 10);
    assert ParseInt(z) == Some(1 * v);
  }

  /** `parseInt` reads a zero-padded decimal back as the number it renders. */
  lemma ParseIntPadDecimal(n: nat, width: nat)
    ensures ParseInt(PadDecimal(n, width)) == Some(n)
  {
    var d := Decimal(n);
    var k := if |d| < width then width - |d| else 0;
    var z := PadDecimal(n, width);
    assert z == Zeros(k) + d;
    LeadingZerosValue(k, d);
    DecimalValue(n);
    ParseIntOfDigits(z);
  }
}
