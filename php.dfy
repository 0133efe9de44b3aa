/** PHP value semantics that the plugin's bookkeeping depends on: string truthiness,
    the integer casts `intval` and `absint`, loose `==` between strings, and
    `explode(':', …)` on "course:version" strings. */
module Php {

  datatype Option<T> = None | Some(value: T)

  /** A PHP string is falsy exactly when it is "" or "0". */
  predicate Truthy(s: string) {
    s != "" && s != "0"
  }

  predicate IsDigit(c: char) {
    '0' <= c <= '9'
  }

  predicate AllDigits(s: string) {
    forall i :: 0 <= i < |s| ==> IsDigit(s[i])
  }

  function DigitValue(c: char): nat
    requires IsDigit(c)
  {
    (c as int - '0' as int) as nat
  }

  function DigitChar(d: nat): (c: char)
    requires d < 10
    ensures IsDigit(c) && DigitValue(c) == d
  {
    ('0' as int + d) as char
  }

  /** The value of a run of decimal digits, most significant first. */
  function DigitsValue(s: string): nat
    requires AllDigits(s)
  {
    if s == [] then 0 else DigitsValue(s[..|s| - 1]) * 10 + DigitValue(s[|s| - 1])
  }

  /** The decimal text PHP produces for a non-negative integer. */
  function NatToString(n: nat): (s: string)
    ensures s != [] && AllDigits(s)
  {
    if n < 10 then [DigitChar(n)] else NatToString(n / 10) + [DigitChar(n % 10)]
  }

  lemma {:induction false} DigitsValueOfNatToString(n: nat)
    ensures DigitsValue(NatToString(n)) == n
  {
    if n >= 10 {
      var s := NatToString(n);
      assert s[..|s| - 1] == NatToString(n / 10);
      DigitsValueOfNatToString(n / 10);
    }
  }

  /** The longest prefix of `s` made of decimal digits. */
  function LeadingDigits(s: string): (d: string)
    ensures AllDigits(d) && d <= s
  {
    if s != [] && IsDigit(s[0]) then [s[0]] + LeadingDigits(s[1..]) else []
  }

  lemma {:induction false} LeadingDigitsOfDigits(s: string)
    requires AllDigits(s)
    ensures LeadingDigits(s) == s
  {
    if s != [] {
      LeadingDigitsOfDigits(s[1..]);
    }
  }

  /** `intval($s)` (the same as `(int)$s` and `%d`): an optional sign followed by the
      leading digits; 0 when there are none. */
  function IntVal(s: string): int {
    if s != [] && s[0] == '-' then -(DigitsValue(LeadingDigits(s[1..])) as int)
    else if s != [] && s[0] == '+' then DigitsValue(LeadingDigits(s[1..]))
    else DigitsValue(LeadingDigits(s))
  }

  /** Printing an id and reading it back gives the id: meta values written from
      integers are read back unchanged. */
  lemma IntValOfNatToString(n: nat)
    ensures IntVal(NatToString(n)) == n
  {
    var s := NatToString(n);
    LeadingDigitsOfDigits(s);
    DigitsValueOfNatToString(n);
  }

  /** WordPress `absint`: the absolute value of the integer cast. */
  function Abs(x: int): (r: nat)
    ensures r == x || r == -x
  {
    if x < 0 then -x else x
  }

  /** PHP 8 loose `==` between two strings: numerically when both are numeric
      strings (here: non-empty runs of decimal digits), character by character
      otherwise. */
  predicate LooseEquals(a: string, b: string) {
    if a != [] && b != [] && AllDigits(a) && AllDigits(b) then DigitsValue(a) == DigitsValue(b)
    else a == b
  }

  /** `explode(':', $s)[0]`: the text before the first colon, all of `s` when it has none. */
  function BeforeColon(s: string): (h: string)
    ensures h <= s && ':' !in h
  {
    if s == [] || s[0] == ':' then [] else [s[0]] + BeforeColon(s[1..])
  }

  /** The text after the first colon, if `s` has one. */
  function AfterColon(s: string): Option<string> {
    if s == [] then None
    else if s[0] == ':' then Some(s[1..])
    else AfterColon(s[1..])
  }

  /** `explode(':', $s)` is lossless: the first field, the colon and the rest give back `s`. */
  lemma {:induction false} ColonSplit(s: string)
    ensures AfterColon(s).None? ==> s == BeforeColon(s)
    ensures AfterColon(s).Some? ==> s == BeforeColon(s) + [':'] + AfterColon(s).value
  {
    if s != [] && s[0] != ':' {
      ColonSplit(s[1..]);
    }
  }

  /** `explode(':', $s)[1]` when it is set: the text between the first and the second colon. */
  function SecondField(s: string): Option<string> {
    match AfterColon(s)
    case None => None
    case Some(rest) => Some(BeforeColon(rest))
  }

  lemma SecondFieldOfPair(course: string, version: string)
    requires ':' !in course && ':' !in version
    ensures BeforeColon(course + [':'] + version) == course
    ensures SecondField(course + [':'] + version) == Some(version)
  {
    var s := course + [':'] + version;
    assert s == course + ([':'] + version);
    BeforeColonOfPrefix(course, [':'] + version);
    AfterColonOfPrefix(course, version);
    BeforeColonNoColon(version);
    assert AfterColon(s) == Some(version);
  }

  lemma {:induction false} BeforeColonOfPrefix(a: string, b: string)
    requires ':' !in a && b != [] && b[0] == ':'
    ensures BeforeColon(a + b) == a
  {
    if a != [] {
      assert (a + b)[1..] == a[1..] + b;
      BeforeColonOfPrefix(a[1..], b);
    } else {
      assert a + b == b;
    }
  }

  lemma {:induction false} AfterColonOfPrefix(a: string, v: string)
    requires ':' !in a
    ensures AfterColon(a + [':'] + v) == Some(v)
  {
    if a != [] {
      assert (a + [':'] + v)[1..] == a[1..] + [':'] + v;
      AfterColonOfPrefix(a[1..], v);
    } else {
      assert a + [':'] + v == [':'] + v;
    }
  }

  lemma {:induction false} BeforeColonNoColon(s: string)
    requires ':' !in s
    ensures BeforeColon(s) == s
  {
    if s != [] {
      BeforeColonNoColon(s[1..]);
    }
  }
}
