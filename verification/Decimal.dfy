/** Port numbers in text: Rust's `u16::from_str` and `Display`. */
module Decimal {
  import opened Text

  const MAX_U16 := 65535

  predicate Digit(c: char) { '0' <= c <= '9' }

  predicate Digits(s: string) { forall i :: 0 <= i < |s| ==> Digit(s[i]) }

  function Value(s: string): nat
    requires Digits(s)
  {
    if s == "" then 0
    else
      var d := s[|s| - 1];
      assert Digit(d);
      Value(s[..|s| - 1]) * 10 + (d as int - '0' as int)
  }

  /** One leading `+` and any number of leading zeros are accepted; no digit, any other byte or a value
      above 65535 is an error. */
  function ParseU16(s: string): Option<nat> {
    var digits := if |s| > 0 && s[0] == '+' then s[1..] else s;
    if digits == "" || !Digits(digits) then None
    else if Value(digits) > MAX_U16 then None
    else Some(Value(digits))
  }

  function PrintNat(n: nat): (s: string)
    ensures s != "" && Digits(s)
  {
    (if n < 10 then "" else PrintNat(n / 10)) + [(n % 10 + 48) as char]
  }

  lemma ValueSnoc(s: string, d: nat)
    requires Digits(s) && d < 10
    ensures Digits(s + [(d + 48) as char]) && Value(s + [(d + 48) as char]) == Value(s) * 10 + d
  {
    var t := s + [(d + 48) as char];
    assert t[..|t| - 1] == s && t[|t| - 1] == (d + 48) as char;
  }

  lemma {:induction false} ValueOfPrint(n: nat)
    ensures Value(PrintNat(n)) == n
  {
    if n < 10 {
      ValueSnoc("", n);
    } else {
      ValueOfPrint(n / 10);
      ValueSnoc(PrintNat(n / 10), n % 10);
    }
  }

  /** A printed number parses back exactly when it fits a port. */
  lemma PortRoundTrip(n: nat)
    ensures ParseU16(PrintNat(n)) == if n <= 65_535 then Some(n) else None
  {
    ValueOfPrint(n);
    assert Digit(PrintNat(n)[0]);
  }

  lemma PortChars(s: string, c: char)
    requires ParseU16(s).Some? && c != '+' && !Digit(c)
    ensures c !in s
  {
    var digits := if |s| > 0 && s[0] == '+' then s[1..] else s;
    assert Digits(digits);
    assert c !in digits;
    assert s == digits || s == ['+'] + digits;
  }

  // ------------------------------------------------------------------ rsplit_once(':')

  /** Index of the last `c`. */
  function LastIndex(s: string, c: char): (r: Option<nat>)
    ensures r.Some? ==> r.value < |s| && s[r.value] == c && c !in s[r.value + 1..]
    ensures r.None? ==> c !in s
  {
    if s == "" then None
    else if s[|s| - 1] == c then Some(|s| - 1)
    else
      var t := s[..|s| - 1];
      assert s == t + [s[|s| - 1]];
      var r := LastIndex(t, c);
      assert r.Some? ==> s[r.value + 1..] == t[r.value + 1..] + [s[|s| - 1]];
      r
  }

  lemma {:induction false} LastIndexIs(a: string, c: char, b: string)
    requires c !in b
    ensures LastIndex(a + [c] + b, c) == Some(|a|)
    decreases |b|
  {
    var s := a + [c] + b;
    if b != "" {
      assert s[|s| - 1] == b[|b| - 1];
      assert s[..|s| - 1] == a + [c] + b[..|b| - 1];
      LastIndexIs(a, c, b[..|b| - 1]);
    }
  }
}
