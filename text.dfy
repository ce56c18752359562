/** The parts of Python's `str` behaviour the checkpointing code relies on:
    whitespace stripping, splitting on one character, substring tests,
    `str.replace(old, '')`, ASCII lower-casing, and the string-to-number
    conversions `int(s)` and `float(s)`. */
module Text {
  import opened Wrappers

  /** `c.isspace()`: the characters `str.strip()` removes. */
  predicate IsSpace(c: char) {
    var n := c as int;
    n == 0x20 || (0x09 <= n <= 0x0d) || (0x1c <= n <= 0x1f) || n == 0x85 || n == 0xa0
    || n == 0x1680 || (0x2000 <= n <= 0x200a) || n == 0x2028 || n == 0x2029
    || n == 0x202f || n == 0x205f || n == 0x3000
  }

  predicate AllSpace(s: string) {
    forall i :: 0 <= i < |s| ==> IsSpace(s[i])
  }

  /** `s.lstrip()`: the longest suffix of `s` that does not start with whitespace. */
  function LStrip(s: string): (r: string)
    ensures |r| <= |s| && r == s[|s| - |r|..]
    ensures r == [] || !IsSpace(r[0])
    ensures AllSpace(s[..|s| - |r|])
  {
    if s != [] && IsSpace(s[0]) then
      var r := LStrip(s[1..]);
      assert s[..|s| - |r|] == [s[0]] + s[1..][..|s| - 1 - |r|];
      r
    else s
  }

  /** `s.rstrip()`: the longest prefix of `s` that does not end with whitespace. */
  function RStrip(s: string): (r: string)
    ensures |r| <= |s| && r == s[..|r|]
    ensures r == [] || !IsSpace(r[|r| - 1])
    ensures AllSpace(s[|r|..])
  {
    if s != [] && IsSpace(s[|s| - 1]) then
      var r := RStrip(s[..|s| - 1]);
      assert s[|r|..] == s[..|s| - 1][|r|..] + [s[|s| - 1]];
      r
    else s
  }

  /** `s.strip()`. */
  function Strip(s: string): string {
    RStrip(LStrip(s))
  }

  /** Text with no whitespace at either end is left alone by `strip()`. */
  lemma StripUnpadded(s: string)
    requires s != [] && !IsSpace(s[0]) && !IsSpace(s[|s| - 1])
    ensures Strip(s) == s
  {
    assert LStrip(s) == s;
  }

  /** Text made only of whitespace strips to nothing on the left. */
  lemma LStripAllSpace(s: string)
    requires AllSpace(s)
    ensures LStrip(s) == []
  {
  }

  /** Appending whitespace to text with a non-blank character appends it to
      the left-stripped text. */
  lemma {:induction false} LStripAppendSpace(s: string, c: char)
    requires IsSpace(c) && !AllSpace(s)
    ensures LStrip(s + [c]) == LStrip(s) + [c]
  {
    assert (s + [c])[1..] == s[1..] + [c];
    if IsSpace(s[0]) {
      assert !AllSpace(s[1..]) by {
        var i :| 0 <= i < |s| && !IsSpace(s[i]);
        assert s[1..][i - 1] == s[i];
      }
      LStripAppendSpace(s[1..], c);
    }
  }

  /** Trailing whitespace makes no difference to `strip()`. */
  lemma StripTrailingSpace(s: string, c: char)
    requires IsSpace(c)
    ensures Strip(s + [c]) == Strip(s)
  {
    if AllSpace(s) {
      BlankStripTrailing(s, c);
    } else {
      LStripAppendSpace(s, c);
      RStripAppendSpace(LStrip(s), c);
    }
  }

  lemma BlankStripTrailing(s: string, c: char)
    requires IsSpace(c) && AllSpace(s)
    ensures LStrip(s + [c]) == [] && LStrip(s) == []
  {
    LStripAllSpace(s);
    assert AllSpace(s + [c]);
    LStripAllSpace(s + [c]);
  }

  lemma RStripAppendSpace(s: string, c: char)
    requires IsSpace(c)
    ensures RStrip(s + [c]) == RStrip(s)
  {
    assert (s + [c])[..|s|] == s;
  }

  /** `s.startswith(p)`. */
  predicate StartsWith(s: string, p: string) {
    |p| <= |s| && s[..|p|] == p
  }

  /** `p in s` for strings: `p` occurs in `s` as a contiguous piece. */
  predicate Contains(s: string, p: string)
    decreases |s|
  {
    StartsWith(s, p) || (s != [] && Contains(s[1..], p))
  }

  /** `p` occurs in `s` at position `i`. */
  predicate OccursAt(s: string, p: string, i: int) {
    0 <= i <= |s| - |p| && s[i..i + |p|] == p
  }

  /** `Contains` is the usual "some window of `s` equals `p`". */
  lemma {:induction false} ContainsAt(s: string, p: string)
    ensures Contains(s, p) <==> exists i :: OccursAt(s, p, i)
  {
    if Contains(s, p) {
      if !StartsWith(s, p) {
        ContainsAt(s[1..], p);
        var i :| OccursAt(s[1..], p, i);
        assert s[i + 1..i + 1 + |p|] == s[1..][i..i + |p|];
        assert OccursAt(s, p, i + 1);
      } else {
        assert OccursAt(s, p, 0);
      }
    }
    if exists i :: OccursAt(s, p, i) {
      var i :| OccursAt(s, p, i);
      if i > 0 {
        assert s[1..][i - 1..i - 1 + |p|] == s[i..i + |p|];
        assert OccursAt(s[1..], p, i - 1);
        ContainsAt(s[1..], p);
      }
    }
  }

  /** `s.replace(p, '')`: one left-to-right pass that drops every
      non-overlapping occurrence of `p`. */
  function RemoveAll(s: string, p: string): (r: string)
    requires p != []
    ensures |r| <= |s|
    ensures !Contains(s, p) ==> r == s
    decreases |s|
  {
    if |s| < |p| then s
    else if s[..|p|] == p then RemoveAll(s[|p|..], p)
    else [s[0]] + RemoveAll(s[1..], p)
  }

  /** `s.split(sep)` for a one-character separator. */
  function Split(s: string, sep: char): (r: seq<string>)
    ensures |r| >= 1
    ensures forall i :: 0 <= i < |r| ==> sep !in r[i]
    ensures Join(r, sep) == s
  {
    if s == [] then [[]]
    else
      var rest := Split(s[1..], sep);
      if s[0] == sep then [[]] + rest
      else
        assert Join([[s[0]] + rest[0]] + rest[1..], sep) == [s[0]] + Join(rest, sep) by {
          JoinConsHead(s[0], rest, sep);
        }
        [[s[0]] + rest[0]] + rest[1..]
  }

  /** Text without the separator splits into itself. */
  lemma {:induction false} SplitNoSep(s: string, sep: char)
    requires sep !in s
    ensures Split(s, sep) == [s]
  {
    if s != [] {
      SplitNoSep(s[1..], sep);
    }
  }

  /** The first piece of a split ends at the first separator. */
  lemma {:induction false} SplitAtFirst(a: string, b: string, sep: char)
    requires sep !in a
    ensures Split(a + [sep] + b, sep) == [a] + Split(b, sep)
  {
    if a == [] {
      assert a + [sep] + b == [sep] + b;
      assert ([sep] + b)[1..] == b;
    } else {
      assert (a + [sep] + b)[1..] == a[1..] + [sep] + b;
      SplitAtFirst(a[1..], b, sep);
      assert [a[0]] + a[1..] == a;
    }
  }

  /** Text holding the separator splits into at least two pieces. */
  lemma {:induction false} SplitHasSep(s: string, sep: char)
    requires sep in s
    ensures |Split(s, sep)| >= 2
  {
    if s[0] != sep {
      SplitHasSep(s[1..], sep);
    }
  }

  /** `sep.join(parts)`. */
  function Join(parts: seq<string>, sep: char): string
    requires |parts| >= 1
  {
    if |parts| == 1 then parts[0] else parts[0] + [sep] + Join(parts[1..], sep)
  }

  lemma JoinConsHead(c: char, parts: seq<string>, sep: char)
    requires |parts| >= 1
    ensures Join([[c] + parts[0]] + parts[1..], sep) == [c] + Join(parts, sep)
  {
    var q := [[c] + parts[0]] + parts[1..];
    assert q[1..] == parts[1..];
  }

  /** `s.rstrip(c)`: drop every trailing `c`. */
  function RStripChar(s: string, c: char): (r: string)
    ensures |r| <= |s| && r == s[..|r|]
    ensures r == [] || r[|r| - 1] != c
    ensures forall i :: |r| <= i < |s| ==> s[i] == c
  {
    if s != [] && s[|s| - 1] == c then RStripChar(s[..|s| - 1], c) else s
  }

  function LowerChar(c: char): char {
    if 'A' <= c <= 'Z' then (c as int + 32) as char else c
  }

  /** `s.lower()` restricted to ASCII letters. */
  function Lower(s: string): (r: string)
    ensures |r| == |s|
    ensures forall i :: 0 <= i < |s| ==> r[i] == LowerChar(s[i])
  {
    seq(|s|, i requires 0 <= i < |s| => LowerChar(s[i]))
  }

  predicate IsDigit(c: char) {
    '0' <= c <= '9'
  }

  function DigitValue(c: char): nat
    requires IsDigit(c)
  {
    c as int - '0' as int
  }

  function DigitChar(d: nat): (c: char)
    requires d < 10
    ensures IsDigit(c) && DigitValue(c) == d
  {
    ('0' as int + d) as char
  }

  /** `str(n)` for a natural number. */
  function NatToString(n: nat): (r: string)
    ensures r != []
    ensures forall i :: 0 <= i < |r| ==> IsDigit(r[i])
    ensures r[0] == '0' ==> n == 0
  {
    if n < 10 then [DigitChar(n)] else NatToString(n / 10) + [DigitChar(n % 10)]
  }

  /** `str(k)` for an integer. */
  function IntToString(k: int): string {
    if k < 0 then "-" + NatToString(-k) else NatToString(k)
  }

  predicate DigitsOrUnderscores(s: string) {
    forall i :: 0 <= i < |s| ==> IsDigit(s[i]) || s[i] == '_'
  }

  /** Python's `digitpart`: decimal digits, optionally grouped by single
      underscores between digits (`1_000`). */
  predicate IsDigitPart(s: string) {
    |s| > 0 && IsDigit(s[0]) && IsDigit(s[|s| - 1]) && DigitsOrUnderscores(s)
    && forall i, j :: 0 <= i < |s| && j == i + 1 < |s| ==> !(s[i] == '_' && s[j] == '_')
  }

  /** The number a digit part denotes; underscores carry no value. */
  function DigitsValue(s: string): nat
    requires DigitsOrUnderscores(s)
  {
    if s == [] then 0
    else if s[|s| - 1] == '_' then DigitsValue(s[..|s| - 1])
    else DigitsValue(s[..|s| - 1]) * 10 + DigitValue(s[|s| - 1])
  }

  /** How many digits (not underscores) a digit part holds. */
  function DigitCount(s: string): nat
    requires DigitsOrUnderscores(s)
  {
    if s == [] then 0
    else if s[|s| - 1] == '_' then DigitCount(s[..|s| - 1])
    else DigitCount(s[..|s| - 1]) + 1
  }

  /** An optional sign followed by the rest of the text. */
  function SignOf(t: string): (r: (int, string))
    ensures r.0 == 1 || r.0 == -1
    ensures |r.1| <= |t|
  {
    if t != [] && t[0] == '-' then (-1, t[1..])
    else if t != [] && t[0] == '+' then (1, t[1..])
    else (1, t)
  }

  /** `int(s)` for a string: surrounding whitespace, an optional sign and a
      digit part; `None` is the `ValueError` Python raises otherwise. */
  function ParseInt(s: string): Option<int> {
    var t := SignOf(Strip(s));
    if IsDigitPart(t.1) then Some(Signed(t.0, DigitsValue(t.1))) else None
  }

  /** `v` with the sign `sign` (which is 1 or -1). */
  function Signed(sign: int, v: int): int {
    if sign < 0 then -v else v
  }

  /** `NatToString` writes exactly the digits `DigitsValue` reads. */
  lemma {:induction false} DigitsOfNat(n: nat)
    ensures DigitsOrUnderscores(NatToString(n))
    ensures DigitsValue(NatToString(n)) == n
  {
    var r := NatToString(n);
    if n >= 10 {
      DigitsOfNat(n / 10);
      assert r[..|r| - 1] == NatToString(n / 10);
    }
  }

  /** A string starting with a digit carries no sign. */
  lemma UnsignedOf(d: string)
    requires d != [] && IsDigit(d[0])
    ensures SignOf(d) == (1, d)
  {
  }

  /** `int(s)` once the stripping and the sign are known. */
  lemma ParseIntParts(s: string, sign: int, body: string)
    requires Strip(s) == s && SignOf(s) == (sign, body) && IsDigitPart(body)
    ensures ParseInt(s) == Some(Signed(sign, DigitsValue(body)))
  {
  }

  lemma NegativeStripped(d: string)
    requires d != [] && !IsSpace(d[|d| - 1])
    ensures Strip("-" + d) == "-" + d && SignOf("-" + d) == (-1, d)
  {
    var s := "-" + d;
    assert s[|s| - 1] == d[|d| - 1];
    StripUnpadded(s);
    assert s[1..] == d;
  }

  lemma {:induction false} NatDigitPart(n: nat)
    ensures IsDigitPart(NatToString(n))
  {
    var d := NatToString(n);
    assert forall i :: 0 <= i < |d| ==> IsDigit(d[i]);
    assert forall i :: 0 <= i < |d| - 1 ==> d[i] != '_';
  }

  /** A Python `float`: finite values are modelled as exact reals. */
  datatype PyFloat = Finite(r: real) | PosInf | NegInf | NaN

  function Pow10(e: nat): (r: real)
    ensures r >= 1.0
  {
    if e == 0 then 1.0 else 10.0 * Pow10(e - 1)
  }

  /** `10 ** e` for any integer exponent. */
  function Scale(e: int): (r: real)
    ensures r > 0.0
  {
    if e >= 0 then Pow10(e) else 1.0 / Pow10(-e)
  }

  /** Python's `number ::= [digitpart] "." digitpart | digitpart ["."]`. */
  function ParseMantissa(m: string): Option<real> {
    var parts := Split(m, '.');
    if |parts| == 1 then
      (if IsDigitPart(m) then Some(DigitsValue(m) as real) else None)
    else if |parts| == 2 then
      var whole, frac := parts[0], parts[1];
      if (whole == [] && IsDigitPart(frac))
         || (IsDigitPart(whole) && (frac == [] || IsDigitPart(frac))) then
        var w := if whole == [] then 0 else DigitsValue(whole);
        var f := if frac == [] then 0.0 else DigitsValue(frac) as real / Pow10(DigitCount(frac));
        Some(w as real + f)
      else None
    else None
  }

  /** The exponent part `("e" | "E") [sign] digitpart`, split off at the first `e`. */
  function SplitExponent(t: string): (string, Option<string>) {
    if t == [] then ([], None)
    else if t[0] == 'e' || t[0] == 'E' then ([], Some(t[1..]))
    else
      var (m, e) := SplitExponent(t[1..]);
      ([t[0]] + m, e)
  }

  /** `float(s)` for a string; `None` is the `ValueError` Python raises. */
  function ParseFloat(s: string): Option<PyFloat> {
    var (sign, body) := SignOf(Strip(s));
    var low := Lower(body);
    if low == "inf" || low == "infinity" then Some(if sign < 0 then NegInf else PosInf)
    else if low == "nan" then Some(NaN)
    else
      var (m, e) := SplitExponent(body);
      match ParseMantissa(m)
      case None => None
      case Some(v) =>
        match e
        case None => Some(Finite(sign as real * v))
        case Some(es) =>
          var (esign, edigits) := SignOf(es);
          if IsDigitPart(edigits) then Some(Finite(sign as real * v * Scale(esign * DigitsValue(edigits))))
          else None
  }
}

/** `int(str(k)) == k`: the integer conversions of module `Text` are inverse
    to each other. */
module Numerals {
  import opened Wrappers
  import opened Text

  /** `int(str(k)) == k`: the number `str` writes reads back unchanged. */
  lemma ParseIntOfString(k: int)
    ensures ParseInt(IntToString(k)) == Some(k)
  {
    if k < 0 {
      ParseIntOfNegative(-k);
    } else {
      ParseIntOfNat(k);
    }
  }

  lemma ParseIntOfNat(n: nat)
    ensures ParseInt(NatToString(n)) == Some(n)
  {
    ParsedNat(n);
    DigitsOfNat(n);
  }

  lemma ParsedNat(n: nat)
    ensures ParseInt(NatToString(n)) == Some(Signed(1, DigitsValue(NatToString(n))))
  {
    var d := NatToString(n);
    UnsignedDigits(n);
    ParseIntParts(d, 1, d);
  }

  lemma UnsignedDigits(n: nat)
    ensures Strip(NatToString(n)) == NatToString(n)
    ensures SignOf(NatToString(n)) == (1, NatToString(n))
    ensures IsDigitPart(NatToString(n))
  {
    var d := NatToString(n);
    NatDigitPart(n);
    StripUnpadded(d);
    UnsignedOf(d);
  }

  lemma ParseIntOfNegative(n: nat)
    requires n > 0
    ensures ParseInt(IntToString(-(n as int))) == Some(-(n as int))
  {
    ParsedNegative(n);
    DigitsOfNat(n);
  }

  lemma ParsedNegative(n: nat)
    requires n > 0
    ensures ParseInt(IntToString(-(n as int))) == Some(Signed(-1, DigitsValue(NatToString(n))))
  {
    var d := NatToString(n);
    assert IntToString(-(n as int)) == "-" + d;
    NegativeStripped(d);
    NatDigitPart(n);
    ParseIntParts("-" + d, -1, d);
  }
}
