/**
 * The JavaScript string primitives the component relies on, with JavaScript's own semantics:
 * String.prototype.trim, startsWith, split on a one-character separator, repeat, the decimal
 * rendering of an integer in a template literal, and the global parseInt with no radix.
 * Strings are sequences of Unicode scalar values.
 */
module JsString {
  import opened Wrappers

  /** The code points JavaScript counts as WhiteSpace or LineTerminator (skipped by trim and parseInt). */
  predicate IsWhite(c: char) {
    c == '\t' || c == '\n' || c == '\U{B}' || c == '\U{C}' || c == '\r' || c == ' '
    || c == '\U{A0}' || c == '\U{1680}' || ('\U{2000}' <= c <= '\U{200A}')
    || c == '\U{2028}' || c == '\U{2029}' || c == '\U{202F}' || c == '\U{205F}'
    || c == '\U{3000}' || c == '\U{FEFF}'
  }

  predicate AllWhite(s: string) {
    forall k :: 0 <= k < |s| ==> IsWhite(s[k])
  }

  /** Every character of `s` at an index in [lo, hi) is white. */
  predicate WhiteRange(s: string, lo: int, hi: int) {
    0 <= lo <= hi <= |s| && forall k :: lo <= k < hi ==> IsWhite(s[k])
  }

  /** The end of the run of white characters that starts at index `i`. */
  function WhiteEnd(s: string, i: nat): (j: nat)
    requires i <= |s|
    ensures i <= j <= |s| && WhiteRange(s, i, j)
    ensures j < |s| ==> !IsWhite(s[j])
    decreases |s| - i
  {
    if i < |s| && IsWhite(s[i]) then WhiteEnd(s, i + 1) else i
  }

  /** The start of the run of white characters that ends at index `j`, going back no further than `lo`. */
  function WhiteStart(s: string, lo: nat, j: nat): (i: nat)
    requires lo <= j <= |s|
    ensures lo <= i <= j && WhiteRange(s, i, j)
    ensures i > lo ==> !IsWhite(s[i - 1])
    decreases j
  {
    if j > lo && IsWhite(s[j - 1]) then WhiteStart(s, lo, j - 1) else j
  }

  /** Number of white characters at the start of `s`. */
  function LeadingWhite(s: string): (n: nat)
    ensures n <= |s| && WhiteRange(s, 0, n)
    ensures n < |s| ==> !IsWhite(s[n])
  {
    WhiteEnd(s, 0)
  }

  /** `r` is `s` with white characters only removed from its two ends, starting at offset `i`. */
  predicate StrippedAt(s: string, r: string, i: int) {
    && 0 <= i <= |s| - |r|
    && r == s[i..i + |r|]
    && WhiteRange(s, 0, i)
    && WhiteRange(s, i + |r|, |s|)
  }

  /** A string with no white character at either end. */
  predicate IsTrimmed(r: string) {
    r == [] || (!IsWhite(r[0]) && !IsWhite(r[|r| - 1]))
  }

  /** String.prototype.trim. */
  function Trim(s: string): (r: string)
    ensures IsTrimmed(r)
    ensures |r| <= |s|
  {
    var a := LeadingWhite(s);
    var b := WhiteStart(s, a, |s|);
    assert a < b ==> s[a..b][0] == s[a] && s[a..b][b - a - 1] == s[b - 1];
    s[a..b]
  }

  /** Trim removes white characters from the two ends of the string and nothing else. */
  lemma TrimStrips(s: string)
    ensures StrippedAt(s, Trim(s), LeadingWhite(s))
  {
  }

  /** The two properties in Trim's contract determine its result: trimming is the unique way
      to remove white characters from the ends until none is left there. */
  lemma TrimUnique(s: string, r: string, i: int)
    requires StrippedAt(s, r, i) && IsTrimmed(r)
    ensures Trim(s) == r
  {
    if r == [] {
      WhiteEndAll(s, 0);
    } else {
      assert s[i] == r[0];
      WhiteEndAt(s, 0, i);
      assert s[i + |r| - 1] == r[|r| - 1];
      WhiteStartAt(s, i, i + |r|, |s|);
    }
  }

  lemma {:induction false} WhiteEndAll(s: string, i: nat)
    requires WhiteRange(s, i, |s|)
    ensures WhiteEnd(s, i) == |s|
    decreases |s| - i
  {
    if i < |s| {
      WhiteEndAll(s, i + 1);
    }
  }

  lemma {:induction false} WhiteEndAt(s: string, lo: nat, i: nat)
    requires WhiteRange(s, lo, i) && i < |s| && !IsWhite(s[i])
    ensures WhiteEnd(s, lo) == i
    decreases i - lo
  {
    if lo < i {
      WhiteEndAt(s, lo + 1, i);
    }
  }

  lemma {:induction false} WhiteStartAt(s: string, lo: nat, i: nat, j: nat)
    requires lo < i <= j && WhiteRange(s, i, j) && !IsWhite(s[i - 1])
    ensures WhiteStart(s, lo, j) == i
    decreases j
  {
    if i < j {
      WhiteStartAt(s, lo, i, j - 1);
    }
  }

  lemma TrimIdempotent(s: string)
    ensures Trim(Trim(s)) == Trim(s)
  {
    var t := Trim(s);
    assert StrippedAt(t, t, 0) by {
      assert t[0..|t|] == t;
    }
    TrimUnique(t, t, 0);
  }

  /** White characters appended to a string do not change what trim returns. */
  lemma TrimIgnoresWhiteSuffix(s: string, w: string)
    requires AllWhite(w)
    ensures Trim(s + w) == Trim(s)
  {
    var r := Trim(s);
    var i := LeadingWhite(s);
    TrimStrips(s);
    var t := s + w;
    assert t[i..i + |r|] == s[i..i + |r|];
    assert WhiteRange(t, 0, i) by {
      forall k | 0 <= k < i ensures IsWhite(t[k]) { assert t[k] == s[k]; }
    }
    assert WhiteRange(t, i + |r|, |t|) by {
      forall k | i + |r| <= k < |t| ensures IsWhite(t[k]) {
        if k < |s| { assert t[k] == s[k]; } else { assert t[k] == w[k - |s|]; }
      }
    }
    TrimUnique(t, r, i);
  }

  predicate StartsWith(s: string, prefix: string) {
    |prefix| <= |s| && s[..|prefix|] == prefix
  }

  /** Number of occurrences of `c` in `s`. */
  function Count(s: string, c: char): nat {
    if s == [] then 0 else (if s[0] == c then 1 else 0) + Count(s[1..], c)
  }

  /** String.prototype.split with a one-character separator. */
  function Split(s: string, sep: char): (parts: seq<string>)
    ensures |parts| > 0
  {
    if s == [] then [""]
    else
      var rest := Split(s[1..], sep);
      if s[0] == sep then [""] + rest
      else [[s[0]] + rest[0]] + rest[1..]
  }

  /** There is one more part than separators, and no part holds a separator. */
  lemma {:induction false} SplitParts(s: string, sep: char)
    ensures |Split(s, sep)| == Count(s, sep) + 1
    ensures forall k :: 0 <= k < |Split(s, sep)| ==> sep !in Split(s, sep)[k]
  {
    if s != [] {
      SplitParts(s[1..], sep);
      var rest := Split(s[1..], sep);
      if s[0] != sep {
        var parts := Split(s, sep);
        forall k | 0 <= k < |parts| ensures sep !in parts[k] {
          if k > 0 { assert parts[k] == rest[k]; }
        }
      }
    }
  }

  /** Array.prototype.join with a one-character separator: the inverse of Split. */
  function Join(parts: seq<string>, sep: char): string {
    if |parts| == 0 then ""
    else if |parts| == 1 then parts[0]
    else parts[0] + [sep] + Join(parts[1..], sep)
  }

  lemma {:induction false} JoinSplit(s: string, sep: char)
    ensures Join(Split(s, sep), sep) == s
  {
    if s != [] {
      var rest := Split(s[1..], sep);
      JoinSplit(s[1..], sep);
      if s[0] == sep {
        assert Split(s, sep) == [""] + rest;
        assert ([""] + rest)[1..] == rest;
      } else {
        var parts := Split(s, sep);
        assert parts == [[s[0]] + rest[0]] + rest[1..];
        if |rest| == 1 {
          assert parts == [[s[0]] + rest[0]];
        } else {
          assert parts[1..] == rest[1..];
          assert Join(rest, sep) == rest[0] + [sep] + Join(rest[1..], sep);
        }
      }
    }
  }

  lemma {:induction false} SplitJoin(parts: seq<string>, sep: char)
    requires |parts| > 0
    requires forall k :: 0 <= k < |parts| ==> sep !in parts[k]
    ensures Split(Join(parts, sep), sep) == parts
  {
    if |parts| == 1 {
      SplitSepFree(parts[0], [], sep);
      assert parts[0] + [] == parts[0];
    } else {
      var tail := Join(parts[1..], sep);
      SplitJoin(parts[1..], sep);
      SplitSepFree(parts[0], [sep] + tail, sep);
      assert Join(parts, sep) == parts[0] + ([sep] + tail);
      assert Split([sep] + tail, sep) == [""] + parts[1..] by {
        assert ([sep] + tail)[1..] == tail;
      }
      assert parts[0] + "" == parts[0];
      assert [parts[0]] + parts[1..] == parts;
    }
  }

  /** A separator-free prefix glues onto the first part. */
  lemma {:induction false} SplitSepFree(a: string, b: string, sep: char)
    requires sep !in a
    ensures |Split(b, sep)| > 0
    ensures Split(a + b, sep) == [a + Split(b, sep)[0]] + Split(b, sep)[1..]
  {
    if a != [] {
      SplitSepFree(a[1..], b, sep);
      assert (a + b)[1..] == a[1..] + b;
      assert (a + b)[0] == a[0];
      assert [a[0]] + (a[1..] + Split(b, sep)[0]) == a + Split(b, sep)[0];
    } else {
      assert a + b == b;
      assert a + Split(b, sep)[0] == Split(b, sep)[0];
      assert [Split(b, sep)[0]] + Split(b, sep)[1..] == Split(b, sep);
    }
  }

  /** String.prototype.repeat on a one-character string. */
  function Repeat(c: char, n: nat): (r: string)
    ensures |r| == n && forall k :: 0 <= k < n ==> r[k] == c
  {
    seq(n, _ => c)
  }

  predicate IsDecimalDigit(c: char) {
    '0' <= c <= '9'
  }

  predicate AllDecimal(s: string) {
    forall k :: 0 <= k < |s| ==> IsDecimalDigit(s[k])
  }

  predicate IsHexDigit(c: char) {
    IsDecimalDigit(c) || 'a' <= c <= 'f' || 'A' <= c <= 'F'
  }

  /** The value of a digit of radix up to 16. */
  function DigitValue(c: char): (v: nat)
    requires IsHexDigit(c)
    ensures v < 16
    ensures v < 10 <==> IsDecimalDigit(c)
  {
    if IsDecimalDigit(c) then c as int - '0' as int
    else if 'a' <= c <= 'f' then c as int - 'a' as int + 10
    else c as int - 'A' as int + 10
  }

  predicate IsRadixDigit(c: char, radix: nat) {
    IsHexDigit(c) && DigitValue(c) < radix
  }

  function DigitChar(d: nat): (c: char)
    requires d < 10
    ensures IsDecimalDigit(c) && DigitValue(c) == d
  {
    ('0' as int + d) as char
  }

  /** The decimal rendering of a natural number, as a template literal or toString gives it. */
  function NatToString(n: nat): (s: string)
    ensures |s| > 0 && AllDecimal(s)
    ensures s[0] == '0' ==> n == 0
  {
    if n < 10 then [DigitChar(n)] else NatToString(n / 10) + [DigitChar(n % 10)]
  }

  /** The rendering of an integer, with a minus sign for a negative one. */
  function IntToString(i: int): string {
    if i < 0 then "-" + NatToString(-i) else NatToString(i)
  }

  /** Every character of `s` is a digit of the radix. */
  predicate AllRadix(s: string, radix: nat) {
    forall k :: 0 <= k < |s| ==> IsRadixDigit(s[k], radix)
  }

  /** The value of a digit string in the given radix (most significant digit first). */
  function RadixValue(s: string, radix: nat): nat
    requires AllRadix(s, radix)
  {
    if s == [] then 0
    else
      var init, last := s[..|s| - 1], s[|s| - 1];
      assert IsRadixDigit(last, radix);
      var high: nat := RadixValue(init, radix);
      high * radix + DigitValue(last)
  }

  /** The length of the longest prefix of `s` made of digits of the radix. */
  function DigitPrefix(s: string, radix: nat): (n: nat)
    ensures n <= |s|
    ensures AllRadix(s[..n], radix)
    ensures n < |s| ==> !IsRadixDigit(s[n], radix)
  {
    if |s| > 0 && IsRadixDigit(s[0], radix) then
      var m := DigitPrefix(s[1..], radix);
      assert s[..m + 1] == [s[0]] + s[1..][..m];
      m + 1
    else 0
  }

  /**
   * The global parseInt(s) with no radix argument. None stands for NaN. Leading white space is
   * skipped, then the sign and the digits are read. The rounding of values beyond 2^53 into
   * double precision is not modelled.
   */
  function ParseInt(s: string): (r: Option<int>) {
    ParseSigned(s[LeadingWhite(s)..])
  }

  /** One '+' or '-' is accepted before the number; a '-' negates it. */
  function ParseSigned(t: string): Option<int> {
    if |t| > 0 && t[0] == '-' then
      match ParseUnsigned(t[1..])
      case Some(m) => Some(-(m as int))
      case None => None
    else if |t| > 0 && t[0] == '+' then Widen(ParseUnsigned(t[1..]))
    else Widen(ParseUnsigned(t))
  }

  function Widen(o: Option<nat>): Option<int> {
    match o
    case Some(m) => Some(m)
    case None => None
  }

  /** A "0x"/"0X" prefix selects radix 16; otherwise the radix is 10. */
  function ParseUnsigned(u: string): Option<nat> {
    if |u| >= 2 && u[0] == '0' && (u[1] == 'x' || u[1] == 'X') then ReadDigits(u[2..], 16)
    else ReadDigits(u, 10)
  }

  /** The longest digit prefix is read, whatever follows it is ignored; no digit at all is NaN. */
  function ReadDigits(body: string, radix: nat): Option<nat> {
    var n := DigitPrefix(body, radix);
    if n == 0 then None else Some(RadixValue(body[..n], radix))
  }

  lemma {:induction false} DecimalRoundTrip(n: nat)
    ensures RadixValue(NatToString(n), 10) == n
  {
    if n >= 10 {
      var s := NatToString(n);
      DecimalRoundTrip(n / 10);
      assert s[..|s| - 1] == NatToString(n / 10);
    }
  }

  lemma NatToStringInjective(a: nat, b: nat)
    requires NatToString(a) == NatToString(b)
    ensures a == b
  {
    DecimalRoundTrip(a);
    DecimalRoundTrip(b);
  }

  lemma {:induction false} DigitPrefixStops(digits: string, rest: string, radix: nat)
    requires AllRadix(digits, radix)
    requires rest == [] || !IsRadixDigit(rest[0], radix)
    ensures DigitPrefix(digits + rest, radix) == |digits|
  {
    if digits != [] {
      assert (digits + rest)[1..] == digits[1..] + rest;
      assert AllRadix(digits[1..], radix) by {
        forall k | 0 <= k < |digits| - 1 ensures IsRadixDigit(digits[1..][k], radix) {
          assert digits[1..][k] == digits[k + 1];
        }
      }
      DigitPrefixStops(digits[1..], rest, radix);
    } else {
      assert digits + rest == rest;
    }
  }

  /** Digits followed by something that is not a digit are read as exactly those digits. */
  lemma ReadDigitsStops(digits: string, rest: string, radix: nat)
    requires |digits| > 0 && AllRadix(digits, radix)
    requires rest == [] || !IsRadixDigit(rest[0], radix)
    ensures ReadDigits(digits + rest, radix) == Some(RadixValue(digits, radix))
  {
    DigitPrefixStops(digits, rest, radix);
    assert (digits + rest)[..|digits|] == digits;
  }

  lemma DecimalIsRadix(s: string)
    requires AllDecimal(s)
    ensures AllRadix(s, 10)
  {
    forall k | 0 <= k < |s| ensures IsRadixDigit(s[k], 10) {
      assert IsDecimalDigit(s[k]);
    }
  }

  /** Decimal digits, not of the form "0x…", followed by a non-digit are read in radix 10. */
  lemma ParseUnsignedDecimal(digits: string, junk: string)
    requires |digits| > 0 && AllDecimal(digits)
    requires |digits| >= 2 || digits[0] != '0' || junk == [] || (junk[0] != 'x' && junk[0] != 'X')
    requires junk == [] || !IsDecimalDigit(junk[0])
    ensures AllRadix(digits, 10)
    ensures ParseUnsigned(digits + junk) == Some(RadixValue(digits, 10))
  {
    var u := digits + junk;
    DecimalIsRadix(digits);
    assert u[0] == digits[0];
    assert |u| >= 2 ==> u[1] == (if |digits| >= 2 then digits[1] else junk[0]);
    assert !(|u| >= 2 && u[0] == '0' && (u[1] == 'x' || u[1] == 'X')) by {
      if |digits| >= 2 { assert IsDecimalDigit(digits[1]); }
    }
    ReadDigitsStops(digits, junk, 10);
  }

  lemma {:induction false} LeadingZerosIgnored(z: nat, s: string, radix: nat)
    requires 1 <= radix
    requires AllRadix(s, radix)
    ensures AllRadix(Repeat('0', z) + s, radix)
    ensures RadixValue(Repeat('0', z) + s, radix) == RadixValue(s, radix)
  {
    var zs := Repeat('0', z);
    assert AllRadix(zs + s, radix) by {
      forall k | 0 <= k < |zs + s| ensures IsRadixDigit((zs + s)[k], radix) {
        if k < z { assert (zs + s)[k] == '0'; } else { assert (zs + s)[k] == s[k - z]; }
      }
    }
    if s == [] {
      assert zs + s == zs;
      ZerosAreZero(z, radix);
    } else {
      var init := s[..|s| - 1];
      assert AllRadix(init, radix) by {
        forall k | 0 <= k < |init| ensures IsRadixDigit(init[k], radix) {
          assert init[k] == s[k];
        }
      }
      LeadingZerosIgnored(z, init, radix);
      assert (zs + s)[..|zs + s| - 1] == zs + init;
      assert (zs + s)[|zs + s| - 1] == s[|s| - 1];
    }
  }

  lemma {:induction false} ZerosAreZero(z: nat, radix: nat)
    requires 1 <= radix
    ensures AllRadix(Repeat('0', z), radix)
    ensures RadixValue(Repeat('0', z), radix) == 0
  {
    if z > 0 {
      ZerosAreZero(z - 1, radix);
      assert Repeat('0', z)[..z - 1] == Repeat('0', z - 1);
    }
  }

  /** parseInt reads back what IntToString writes. */
  lemma ParseIntRoundTrip(i: int)
    ensures ParseInt(IntToString(i)) == Some(i)
  {
    var n: nat := if i < 0 then -i else i;
    var digits := NatToString(n);
    var s := IntToString(i);
    assert digits + [] == digits;
    ParseUnsignedDecimal(digits, []);
    DecimalRoundTrip(n);
    assert !IsWhite(s[0]) by {
      if i >= 0 { assert IsDecimalDigit(digits[0]); }
    }
    assert LeadingWhite(s) == 0;
    assert s[0..] == s;
    if i < 0 {
      assert s[1..] == digits;
    } else {
      assert s == digits;
    }
  }

  /**
   * parseInt is lenient: white space before the number, leading zeros and anything after the
   * digits that is not itself a digit are ignored. (A lone "0" followed by 'x' or 'X' would
   * instead start a hexadecimal number.)
   */
  lemma ParseIntLenient(ws: string, z: nat, n: nat, junk: string)
    requires AllWhite(ws)
    requires junk == [] || !IsDecimalDigit(junk[0])
    requires z == 0 && n == 0 ==> junk == [] || (junk[0] != 'x' && junk[0] != 'X')
    ensures ParseInt(ws + Repeat('0', z) + NatToString(n) + junk) == Some(n)
  {
    var zeros, num := Repeat('0', z), NatToString(n);
    var digits := zeros + num;
    var s := ws + zeros + num + junk;
    Regroup(ws, zeros, num, junk);
    DecimalIsRadix(num);
    LeadingZerosIgnored(z, num, 10);
    DecimalRoundTrip(n);
    assert AllDecimal(digits) by {
      forall k | 0 <= k < |digits| ensures IsDecimalDigit(digits[k]) {
        if k < z { assert digits[k] == '0'; } else { assert digits[k] == num[k - z]; }
      }
    }
    assert |digits| == 1 && digits[0] == '0' ==> z == 0 && n == 0 by {
      if |digits| == 1 && digits[0] == '0' {
        if z == 0 { assert num[0] == '0'; }
      }
    }
    assert WhiteRange(s, 0, |ws|) by {
      forall k | 0 <= k < |ws| ensures IsWhite(s[k]) { assert s[k] == ws[k]; }
    }
    ParseIntDecimal(s, |ws|, digits, junk);
  }

  /** A step about concatenation only, kept as a lemma of its own so the proofs using it stay cheap. */
  lemma Regroup(a: string, b: string, c: string, d: string)
    ensures a + b + c + d == a + ((b + c) + d)
    ensures (a + b + c + d)[|a|..] == (b + c) + d
  {
  }

  /** parseInt on white space, then decimal digits not forming "0x", then a non-digit. */
  lemma ParseIntDecimal(s: string, w: nat, digits: string, junk: string)
    requires WhiteRange(s, 0, w) && s[w..] == digits + junk
    requires |digits| > 0 && AllDecimal(digits)
    requires |digits| >= 2 || digits[0] != '0' || junk == [] || (junk[0] != 'x' && junk[0] != 'X')
    requires junk == [] || !IsDecimalDigit(junk[0])
    ensures AllRadix(digits, 10)
    ensures ParseInt(s) == Some(RadixValue(digits, 10))
  {
    assert s[w] == digits[0] && IsDecimalDigit(digits[0]);
    WhiteEndAt(s, 0, w);
    ParseUnsignedDecimal(digits, junk);
  }
}
