/** UTF-8 and whitespace as the standards state them: section 3 of RFC 3629, and the White_Space property of
    Unicode. */
module Unicode {
  import opened Text

  /** Unicode scalar values. */
  predicate Scalar(cp: int) { 0 <= cp < 0xD800 || 0xE000 <= cp <= 0x10FFFF }

  function Byte(n: int): char
    requires 0 <= n < 256
  {
    n as char
  }

  /** The bits of a scalar value spread over one to four bytes. */
  function Encode(cp: int): string
    requires Scalar(cp)
  {
    if cp < 0x80 then [Byte(cp)]
    else if cp < 0x800 then [Byte(0xC0 + cp / 64), Byte(0x80 + cp % 64)]
    else if cp < 0x1_0000 then [Byte(0xE0 + cp / 4096), Byte(0x80 + cp / 64 % 64), Byte(0x80 + cp % 64)]
    else
      [Byte(0xF0 + cp / 262144), Byte(0x80 + cp / 4096 % 64), Byte(0x80 + cp / 64 % 64), Byte(0x80 + cp % 64)]
  }

  function EncodeAll(cps: seq<int>): string
    requires forall i :: 0 <= i < |cps| ==> Scalar(cps[i])
  {
    if cps == [] then "" else Encode(cps[0]) + EncodeAll(cps[1..])
  }

  function Decode(s: string): int
    requires CharLen(s) > 0
  {
    var n := CharLen(s);
    if n == 1 then s[0] as int
    else if n == 2 then (s[0] as int - 0xC0) * 64 + (s[1] as int - 0x80)
    else if n == 3 then (s[0] as int - 0xE0) * 4096 + (s[1] as int - 0x80) * 64 + (s[2] as int - 0x80)
    else
      (s[0] as int - 0xF0) * 262144 + (s[1] as int - 0x80) * 4096 + (s[2] as int - 0x80) * 64 + (s[3] as int - 0x80)
  }

  lemma Digits2(a: int, b: int)
    requires 0 <= b < 64
    ensures (a * 64 + b) / 64 == a && (a * 64 + b) % 64 == b
  {
  }

  lemma Decode2(s: string)
    requires CharLen(s) == 2
    ensures Scalar(Decode(s)) && Encode(Decode(s)) == s[..2]
  {
    Digits2(s[0] as int - 0xC0, s[1] as int - 0x80);
  }

  lemma Decode3(s: string)
    requires CharLen(s) == 3
    ensures Scalar(Decode(s)) && Encode(Decode(s)) == s[..3]
  {
    var high := (s[0] as int - 0xE0) * 64 + (s[1] as int - 0x80);
    Digits2(high, s[2] as int - 0x80);
    Digits2(s[0] as int - 0xE0, s[1] as int - 0x80);
    assert Decode(s) / 4096 == Decode(s) / 64 / 64;
  }

  lemma Decode4(s: string)
    requires CharLen(s) == 4
    ensures Scalar(Decode(s)) && Encode(Decode(s)) == s[..4]
  {
    var top := (s[0] as int - 0xF0) * 64 + (s[1] as int - 0x80);
    var high := top * 64 + (s[2] as int - 0x80);
    Digits2(high, s[3] as int - 0x80);
    Digits2(top, s[2] as int - 0x80);
    Digits2(s[0] as int - 0xF0, s[1] as int - 0x80);
    assert Decode(s) / 4096 == high / 64 && Decode(s) / 262144 == top / 64;
  }

  lemma DecodeEncodes(s: string)
    requires CharLen(s) > 0
    ensures Scalar(Decode(s)) && Encode(Decode(s)) == s[..CharLen(s)]
  {
    match CharLen(s)
    case 2 => Decode2(s);
    case 3 => Decode3(s);
    case 4 => Decode4(s);
    case _ =>
  }

  lemma EncodeIsChar(cp: int, rest: string)
    requires Scalar(cp)
    ensures CharLen(Encode(cp) + rest) == |Encode(cp)|
  {
    var s := Encode(cp) + rest;
    assert forall k :: 0 <= k < |Encode(cp)| ==> s[k] == Encode(cp)[k];
  }

  lemma {:induction false} DecodeAll(s: string) returns (cps: seq<int>)
    requires Utf8(s)
    ensures (forall i :: 0 <= i < |cps| ==> Scalar(cps[i])) && EncodeAll(cps) == s
  {
    if s == "" {
      cps := [];
    } else {
      var n := CharLen(s);
      DecodeEncodes(s);
      var rest := DecodeAll(s[n..]);
      cps := [Decode(s)] + rest;
      assert s == s[..n] + s[n..];
    }
  }

  lemma {:induction false} EncodedIsUtf8(cps: seq<int>)
    requires forall i :: 0 <= i < |cps| ==> Scalar(cps[i])
    ensures Utf8(EncodeAll(cps))
  {
    if cps != [] {
      EncodedIsUtf8(cps[1..]);
      EncodeIsChar(cps[0], EncodeAll(cps[1..]));
      assert EncodeAll(cps)[|Encode(cps[0])|..] == EncodeAll(cps[1..]);
    }
  }

  /** The texts taken for valid are exactly the encodings of sequences of scalar values. */
  lemma Utf8Exactly(s: string)
    ensures Utf8(s) <==> exists cps :: (forall i :: 0 <= i < |cps| ==> Scalar(cps[i])) && EncodeAll(cps) == s
  {
    if Utf8(s) { var cps := DecodeAll(s); }
    if cps :| (forall i :: 0 <= i < |cps| ==> Scalar(cps[i])) && EncodeAll(cps) == s { EncodedIsUtf8(cps); }
  }

  predicate WhiteSpace(cp: int) {
    || 0x09 <= cp <= 0x0D || cp == 0x20 || cp == 0x85 || cp == 0xA0 || cp == 0x1680 || 0x2000 <= cp <= 0x200A
    || cp == 0x2028 || cp == 0x2029 || cp == 0x202F || cp == 0x205F || cp == 0x3000
  }

  /** What is trimmed at the front of a text are exactly the white space characters of Unicode. */
  lemma WhiteExactly(cp: int)
    requires Scalar(cp)
    ensures WhiteChar(Encode(cp)) <==> WhiteSpace(cp)
    ensures WhiteHead(Encode(cp)) > 0 ==> WhiteSpace(cp)
  {
  }
}
