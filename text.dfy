/** The Rust string operations the core relies on, over `string` (a sequence
    of chars): `starts_with`, `split(c)`, the last piece of a split, `replace`,
    decimal printing with `to_string`, decimal parsing with `parse::<u8/u32/i64>`,
    and the lexicographic order `sort` uses. */
module Text {
  import opened Common

  predicate StartsWith(s: string, prefix: string) {
    |prefix| <= |s| && s[..|prefix|] == prefix
  }

  /** Number of occurrences of `c` in `s`. */
  function Count(s: string, c: char): (n: nat)
    ensures n == 0 <==> c !in s
    ensures n <= |s|
  {
    if |s| == 0 then 0 else (if s[0] == c then 1 else 0) + Count(s[1..], c)
  }

  /** `s.split(c)`: the pieces between the occurrences of `c`, in order; a
      string with k separators has k + 1 pieces, none containing `c`. */
  function Split(s: string, c: char): (parts: seq<string>)
    ensures |parts| == Count(s, c) + 1
    ensures forall i :: 0 <= i < |parts| ==> c !in parts[i]
  {
    if |s| == 0 then [""]
    else
      var rest := Split(s[1..], c);
      if s[0] == c then [""] + rest else [[s[0]] + rest[0]] + rest[1..]
  }

  /** The pieces glued back together with `c` between them. */
  function Join(parts: seq<string>, c: char): string
    requires |parts| >= 1
  {
    if |parts| == 1 then parts[0] else parts[0] + [c] + Join(parts[1..], c)
  }

  /** Splitting loses nothing: joining the pieces with the separator gives the input back. */
  lemma {:induction false} JoinSplit(s: string, c: char)
    ensures Join(Split(s, c), c) == s
  {
    if |s| > 0 {
      var rest := Split(s[1..], c);
      JoinSplit(s[1..], c);
      if s[0] == c {
        assert Split(s, c) == [""] + rest;
        assert s == [s[0]] + s[1..];
      } else {
        var parts := Split(s, c);
        assert parts == [[s[0]] + rest[0]] + rest[1..];
        if |rest| == 1 {
          assert Join(parts, c) == [s[0]] + rest[0];
        } else {
          assert Join(parts, c) == [s[0]] + rest[0] + [c] + Join(rest[1..], c);
          assert Join(rest, c) == rest[0] + [c] + Join(rest[1..], c);
        }
        assert s == [s[0]] + s[1..];
      }
    }
  }

  /** The last piece of a split is the text after the last `c`, or all of `s`
      when it has no `c`. */
  lemma {:induction false} SplitLastIsSuffix(s: string, c: char)
    ensures var p := Split(s, c); var r := p[|p| - 1];
      |r| <= |s| && r == s[|s| - |r|..] && (|r| < |s| ==> s[|s| - |r| - 1] == c)
  {
    if |s| > 0 {
      SplitLastIsSuffix(s[1..], c);
      var rest := Split(s[1..], c);
      if s[0] != c && |rest| == 1 {
        assert c !in s[1..];
        assert Split(s, c)[|Split(s, c)| - 1] == [s[0]] + rest[0];
      }
    }
  }

  /** `s.split(c).last()` (equivalently `next_back()`). */
  function LastSegment(s: string, c: char): (r: string)
    ensures c !in r
    ensures |r| <= |s| && r == s[|s| - |r|..]
    ensures |r| < |s| ==> s[|s| - |r| - 1] == c
  {
    var parts := Split(s, c);
    SplitLastIsSuffix(s, c);
    parts[|parts| - 1]
  }

  /** The index of the last `c` in `s` (`rfind`), or -1 when there is none. */
  function LastIndex(s: string, c: char): (k: int)
    ensures -1 <= k < |s|
    ensures k >= 0 ==> s[k] == c
    ensures forall j :: k < j < |s| ==> s[j] != c
  {
    if |s| == 0 then -1
    else if s[|s| - 1] == c then |s| - 1
    else LastIndex(s[..|s| - 1], c)
  }

  /** `s.replace(from, to)`: every non-overlapping occurrence of `from`, taken
      left to right, becomes `to`; an empty `from` matches before every char
      and at the end. */
  function Replace(s: string, from: string, to: string): string
    decreases |s|
  {
    if |from| == 0 then to + Interleave(s, to)
    else if StartsWith(s, from) then to + Replace(s[|from|..], from, to)
    else if |s| == 0 then ""
    else [s[0]] + Replace(s[1..], from, to)
  }

  /** Each char of `s` followed by `to`. */
  function Interleave(s: string, to: string): string {
    if |s| == 0 then "" else [s[0]] + to + Interleave(s[1..], to)
  }

  /** Replacing a pattern by itself changes nothing. */
  lemma {:induction false} ReplaceBySelf(s: string, pattern: string)
    ensures Replace(s, pattern, pattern) == s
  {
    if |pattern| == 0 {
      InterleaveEmpty(s);
    } else if StartsWith(s, pattern) {
      ReplaceBySelf(s[|pattern|..], pattern);
      assert s == s[..|pattern|] + s[|pattern|..];
    } else if |s| > 0 {
      ReplaceBySelf(s[1..], pattern);
      assert s == [s[0]] + s[1..];
    }
  }

  lemma {:induction false} InterleaveEmpty(s: string)
    ensures Interleave(s, "") == s
  {
    if |s| > 0 {
      InterleaveEmpty(s[1..]);
      assert s == [s[0]] + s[1..];
    }
  }

  // ---------------------------------------------------------------------
  // Decimal numbers

  predicate IsDigit(ch: char) {
    '0' <= ch <= '9'
  }

  predicate AllDigits(s: string) {
    forall i :: 0 <= i < |s| ==> IsDigit(s[i])
  }

  function DigitValue(ch: char): (d: nat)
    requires IsDigit(ch)
    ensures d < 10
  {
    (ch as int) - ('0' as int)
  }

  function DigitChar(d: nat): (ch: char)
    requires d < 10
    ensures IsDigit(ch) && DigitValue(ch) == d
  {
    ((d + '0' as int) as char)
  }

  /** The number a string of decimal digits denotes (most significant first). */
  function DigitsValue(s: string): nat
    requires AllDigits(s)
  {
    if |s| == 0 then 0 else DigitsValue(s[..|s| - 1]) * 10 + DigitValue(s[|s| - 1])
  }

  /** `n.to_string()`: decimal digits without leading zeros. */
  function NatToString(n: nat): (s: string)
    ensures |s| >= 1 && AllDigits(s)
    ensures s[0] == '0' ==> n == 0
  {
    if n < 10 then [DigitChar(n)] else NatToString(n / 10) + [DigitChar(n % 10)]
  }

  /** Printing a number and reading it back gives the number. */
  lemma {:induction false} DigitsValueOfNatToString(n: nat)
    ensures DigitsValue(NatToString(n)) == n
  {
    if n >= 10 {
      DigitsValueOfNatToString(n / 10);
      var s := NatToString(n);
      assert s[..|s| - 1] == NatToString(n / 10);
    }
  }

  /** The digits of an unsigned number's text: after the optional `+`. */
  function UnsignedDigits(s: string): string {
    if |s| > 0 && s[0] == '+' then s[1..] else s
  }

  /** `s.parse::<uN>()` for an unsigned type whose largest value is `max`: an
      optional `+`, then one or more decimal digits, denoting at most `max`.
      `None` is Rust's `ParseIntError` (empty, invalid digit, or overflow). */
  function ParseUnsigned(s: string, max: nat): (r: Option<nat>)
    ensures var digits := UnsignedDigits(s);
      (r.Some? <==> |digits| > 0 && AllDigits(digits) && DigitsValue(digits) <= max) &&
      (r.Some? ==> r.value == DigitsValue(digits))
    ensures r.Some? ==> r.value <= max
    ensures r.Some? ==> |s| > 0 && (IsDigit(s[0]) || s[0] == '+')
  {
    var digits := UnsignedDigits(s);
    if |digits| == 0 || !AllDigits(digits) then None
    else if DigitsValue(digits) <= max then Some(DigitsValue(digits))
    else None
  }

  function ParseU8(s: string): Option<u8> {
    match ParseUnsigned(s, 0xFF)
    case Some(v) => Some(v)
    case None => None
  }

  function ParseU32(s: string): Option<u32> {
    match ParseUnsigned(s, U32_LIMIT - 1)
    case Some(v) => Some(v)
    case None => None
  }

  /** `s.parse::<i64>()`: an optional sign, then one or more decimal digits,
      with the value in the i64 range: down to -2^63 after a `-`, up to
      2^63 - 1 otherwise. */
  function ParseI64(s: string): (r: Option<i64>)
    ensures |s| > 0 && s[0] == '-' ==>
      (r.Some? <==> |s| > 1 && AllDigits(s[1..]) && DigitsValue(s[1..]) <= -I64_MIN) &&
      (r.Some? ==> r.value == 0 - DigitsValue(s[1..]))
    ensures !(|s| > 0 && s[0] == '-') ==>
      (r.Some? <==> ParseUnsigned(s, -I64_MIN - 1).Some?) &&
      (r.Some? ==> r.value == ParseUnsigned(s, -I64_MIN - 1).value)
    ensures r.Some? && r.value < 0 ==> |s| > 0 && s[0] == '-'
  {
    if |s| > 0 && s[0] == '-' then
      var digits := s[1..];
      if |digits| == 0 || !AllDigits(digits) || DigitsValue(digits) > -I64_MIN then None
      else var d: int := DigitsValue(digits); var v: i64 := -d; Some(v)
    else
      match ParseUnsigned(s, -I64_MIN - 1)
      case Some(v) => Some(v)
      case None => None
  }

  /** Parsing the printed form of any value in range gives that value back. */
  lemma ParseUnsignedOfNatToString(n: nat, max: nat)
    requires n <= max
    ensures ParseUnsigned(NatToString(n), max) == Some(n)
  {
    DigitsValueOfNatToString(n);
  }

  lemma ParseU8OfNatToString(n: u8)
    ensures ParseU8(NatToString(n)) == Some(n)
  {
    ParseUnsignedOfNatToString(n, 0xFF);
  }

  /** Every i64 printed (with a `-` before the digits of a negative one)
      parses back to itself, -2^63 included. */
  lemma ParseI64OfNatToString(n: nat)
    ensures n <= -I64_MIN ==> ParseI64("-" + NatToString(n)) == Some(0 - n)
    ensures n < -I64_MIN ==> ParseI64(NatToString(n)) == Some(n)
  {
    DigitsValueOfNatToString(n);
    var s := NatToString(n);
    assert ("-" + s)[1..] == s;
    if n < -I64_MIN {
      ParseUnsignedOfNatToString(n, -I64_MIN - 1);
    }
  }

  // ---------------------------------------------------------------------
  // Lexicographic order (Rust's `Ord` on `str`: byte order of UTF-8, which is
  // code-point order)

  predicate Less(a: string, b: string) {
    if |a| == 0 then |b| > 0
    else |b| > 0 && (a[0] < b[0] || (a[0] == b[0] && Less(a[1..], b[1..])))
  }

  lemma {:induction false} LessIrreflexive(a: string)
    ensures !Less(a, a)
  {
    if |a| > 0 {
      LessIrreflexive(a[1..]);
    }
  }

  lemma {:induction false} LessTransitive(a: string, b: string, c: string)
    requires Less(a, b) && Less(b, c)
    ensures Less(a, c)
  {
    if |a| > 0 && a[0] == b[0] && b[0] == c[0] {
      LessTransitive(a[1..], b[1..], c[1..]);
    }
  }

  lemma {:induction false} LessTotal(a: string, b: string)
    requires a != b
    ensures Less(a, b) || Less(b, a)
  {
    if |a| > 0 && |b| > 0 && a[0] == b[0] {
      assert a == [a[0]] + a[1..] && b == [b[0]] + b[1..];
      LessTotal(a[1..], b[1..]);
    }
  }

  lemma {:induction false} LessAsymmetric(a: string, b: string)
    requires Less(a, b)
    ensures !Less(b, a)
  {
    if |a| > 0 && |b| > 0 && a[0] == b[0] {
      LessAsymmetric(a[1..], b[1..]);
    }
  }
}
