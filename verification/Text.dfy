/** Text as Rust's `str` sees it: a string of bytes.  Every `char` below stands for one byte.
    UTF-8 validity, Unicode-whitespace trimming and ASCII lowering are defined on those bytes. */
module Text {
  datatype Option<+T> = None | Some(value: T)

  // ------------------------------------------------------------------ searching

  predicate At(s: string, pat: string, i: int) {
    0 <= i && i + |pat| <= |s| && s[i..i + |pat|] == pat
  }

  predicate FirstAt(s: string, pat: string, i: int) {
    At(s, pat, i) && forall j :: 0 <= j < i ==> !At(s, pat, j)
  }

  ghost predicate Lacks(s: string, pat: string) { forall j :: !At(s, pat, j) }

  /** First occurrence of `pat` in `s`. */
  function Find(s: string, pat: string): (r: Option<nat>)
    ensures r.Some? ==> r.value + |pat| <= |s|
  {
    if |s| < |pat| then None
    else if s[..|pat|] == pat then Some(0)
    else
      match Find(s[1..], pat)
      case None => None
      case Some(i) => Some(i + 1)
  }

  lemma {:induction false} FindSpec(s: string, pat: string)
    ensures match Find(s, pat)
            case None => Lacks(s, pat)
            case Some(i) => FirstAt(s, pat, i)
  {
    if |pat| <= |s| && s[..|pat|] != pat {
      FindSpec(s[1..], pat);
      forall j | 0 < j ensures At(s, pat, j) <==> At(s[1..], pat, j - 1) {
        if j + |pat| <= |s| { assert s[1..][j - 1..j - 1 + |pat|] == s[j..j + |pat|]; }
      }
    } else if |pat| <= |s| {
      assert At(s, pat, 0);
    }
  }

  lemma FindIs(s: string, pat: string, i: nat)
    requires FirstAt(s, pat, i)
    ensures Find(s, pat) == Some(i)
  {
    FindSpec(s, pat);
  }

  lemma FindNone(s: string, pat: string)
    requires Lacks(s, pat)
    ensures Find(s, pat) == None
  {
    FindSpec(s, pat);
  }

  lemma TakeOfDrop(s: string, lo: nat, k: nat)
    requires lo + k <= |s|
    ensures s[lo..][..k] == s[lo..lo + k]
  {
  }

  lemma SliceOfSlice(s: string, lo: nat, hi: nat, a: nat, b: nat)
    requires lo <= hi <= |s| && a <= b <= hi - lo
    ensures s[lo..hi][a..b] == s[lo + a..lo + b]
  {
    var t := s[lo..hi];
    assert forall i :: 0 <= i < b - a ==> t[a..b][i] == t[a + i] == s[lo + a + i];
  }

  lemma SliceLacks(s: string, pat: string, lo: nat, hi: nat)
    requires lo <= hi <= |s| && Lacks(s, pat)
    ensures Lacks(s[lo..hi], pat)
  {
    forall j ensures !At(s[lo..hi], pat, j) {
      if 0 <= j && j + |pat| <= hi - lo {
        SliceOfSlice(s, lo, hi, j, j + |pat|);
        assert !At(s, pat, lo + j);
      }
    }
  }

  /** Bytes appended after an occurrence do not move it. */
  lemma FindStable(s: string, pat: string, more: string)
    requires Find(s, pat).Some?
    ensures Find(s + more, pat) == Find(s, pat)
  {
    var i := Find(s, pat).value;
    FindSpec(s, pat);
    forall j | 0 <= j <= i ensures At(s + more, pat, j) <==> At(s, pat, j) {
      AtLeft(s, more, pat, j);
    }
    FindIs(s + more, pat, i);
  }

  lemma AtLeft(a: string, b: string, pat: string, j: nat)
    requires j + |pat| <= |a|
    ensures At(a + b, pat, j) <==> At(a, pat, j)
  {
    assert (a + b)[j..j + |pat|] == a[j..j + |pat|];
  }

  lemma AtRight(a: string, b: string, pat: string, j: nat)
    requires |a| <= j
    ensures At(a + b, pat, j) <==> At(b, pat, j - |a|)
  {
    if j + |pat| <= |a + b| { assert (a + b)[j..j + |pat|] == b[j - |a|..j - |a| + |pat|]; }
  }

  lemma NoneBefore(a: string, b: string, pat: string, k: nat)
    requires forall j :: 0 <= j < k ==> !At(b, pat, j)
    requires forall j :: 0 <= j < |a| ==> !At(a + b, pat, j)
    ensures forall j :: 0 <= j < |a| + k ==> !At(a + b, pat, j)
  {
    forall j | 0 <= j < |a| + k ensures !At(a + b, pat, j) {
      if |a| <= j { AtRight(a, b, pat, j); }
    }
  }

  /** The first occurrence in `b` is at its shifted place in `a + b` when none starts in `a`. */
  lemma FirstAtRight(a: string, b: string, pat: string, k: nat)
    requires FirstAt(b, pat, k)
    requires forall j :: 0 <= j < |a| ==> !At(a + b, pat, j)
    ensures FirstAt(a + b, pat, |a| + k)
  {
    NoneBefore(a, b, pat, k);
    AtRight(a, b, pat, |a| + k);
  }

  /** The first occurrence of a character cuts the text around it. */
  lemma CutAt(s: string, c: char, i: nat)
    requires Find(s, [c]) == Some(i)
    ensures i < |s| && s == s[..i] + [c] + s[i + 1..] && s[i] == c && c !in s[..i]
  {
    FirstChar(s, c);
    CutAround(s, i);
  }

  lemma CutAround(s: string, i: nat)
    requires i < |s|
    ensures s == s[..i] + [s[i]] + s[i + 1..]
  {
  }

  lemma {:induction false} FirstChar(s: string, c: char)
    ensures Find(s, [c]).Some? ==> s[Find(s, [c]).value] == c && c !in s[..Find(s, [c]).value]
  {
    if s != "" && s[..1] != [c] {
      FirstChar(s[1..], c);
      if Find(s, [c]).Some? {
        var i := Find(s, [c]).value;
        assert s[..i] == [s[0]] + s[1..][..i - 1];
      }
    }
  }

  lemma FindChar(s: string, c: char, i: nat)
    requires i < |s| && s[i] == c && forall j :: 0 <= j < i ==> s[j] != c
    ensures Find(s, [c]) == Some(i)
  {
    assert s[i..i + 1] == [c];
    forall j | 0 <= j < i ensures !At(s, [c], j) { assert s[j] == s[j..j + 1][0]; }
    FindIs(s, [c], i);
  }

  // ------------------------------------------------------------------ UTF-8

  predicate Cont(c: char) { '\U{0080}' <= c <= '\U{00BF}' }

  predicate Lead3(a: char, b: char) {
    || (a == '\U{00E0}' && '\U{00A0}' <= b <= '\U{00BF}')
    || (('\U{00E1}' <= a <= '\U{00EC}' || '\U{00EE}' <= a <= '\U{00EF}') && Cont(b))
    || (a == '\U{00ED}' && '\U{0080}' <= b <= '\U{009F}')
  }

  predicate Lead4(a: char, b: char) {
    || (a == '\U{00F0}' && '\U{0090}' <= b <= '\U{00BF}')
    || ('\U{00F1}' <= a <= '\U{00F3}' && Cont(b))
    || (a == '\U{00F4}' && '\U{0080}' <= b <= '\U{008F}')
  }

  /** Bytes taken by the well-formed character at the head of `s`; 0 when there is none. */
  function CharLen(s: string): (n: nat)
    ensures n <= |s|
  {
    if |s| >= 1 && s[0] <= '\U{007F}' then 1
    else if |s| >= 2 && '\U{00C2}' <= s[0] <= '\U{00DF}' && Cont(s[1]) then 2
    else if |s| >= 3 && Lead3(s[0], s[1]) && Cont(s[2]) then 3
    else if |s| >= 4 && Lead4(s[0], s[1]) && Cont(s[2]) && Cont(s[3]) then 4
    else 0
  }

  predicate Utf8(s: string) {
    s == "" || (CharLen(s) > 0 && Utf8(s[CharLen(s)..]))
  }

  lemma {:induction false} AsciiIsUtf8(s: string)
    requires forall i :: 0 <= i < |s| ==> s[i] <= '\U{007F}'
    ensures Utf8(s)
  {
    if s != "" { AsciiIsUtf8(s[1..]); }
  }

  lemma CharShape(s: string)
    ensures CharLen(s) > 0 ==> !Cont(s[0]) && forall k :: 0 < k < CharLen(s) ==> Cont(s[k])
  {
  }

  lemma CharLenAppend(a: string, b: string)
    requires CharLen(a) > 0
    ensures CharLen(a + b) == CharLen(a)
  {
    assert forall k :: 0 <= k < |a| ==> (a + b)[k] == a[k];
  }

  lemma {:induction false} Utf8Concat(a: string, b: string)
    requires Utf8(a) && Utf8(b)
    ensures Utf8(a + b)
  {
    if a == "" {
      assert a + b == b;
    } else {
      var n := CharLen(a);
      Utf8Concat(a[n..], b);
      CharLenAppend(a, b);
      assert (a + b)[n..] == a[n..] + b;
    }
  }

  lemma CharLenPrefix(s: string, i: nat)
    requires 0 < CharLen(s) <= i <= |s|
    ensures CharLen(s[..i]) == CharLen(s)
  {
    assert forall k :: 0 <= k < i ==> s[..i][k] == s[k];
  }

  lemma Utf8Prefix(s: string, i: nat)
    requires 0 < CharLen(s) <= i <= |s| && Utf8(s[CharLen(s)..i])
    ensures Utf8(s[..i])
  {
    CharLenPrefix(s, i);
    assert s[..i][CharLen(s)..] == s[CharLen(s)..i];
  }

  /** Valid text cut before a byte that is no continuation byte is two valid texts. */
  lemma {:induction false} Utf8Split(s: string, i: nat)
    requires Utf8(s) && i <= |s|
    requires i < |s| ==> !Cont(s[i])
    ensures Utf8(s[..i]) && Utf8(s[i..])
  {
    if i == 0 {
      assert s[..0] == "" && s[0..] == s;
    } else if i == |s| {
      assert s[..i] == s && s[i..] == "";
    } else {
      var n := CharLen(s);
      assert n <= i by { CharShape(s); }
      Utf8Split(s[n..], i - n);
      assert s[n..][..i - n] == s[n..i] && s[n..][i - n..] == s[i..];
      Utf8Prefix(s, i);
    }
  }

  // ------------------------------------------------------------------ whitespace

  predicate White1(c: char) { '\t' <= c <= '\r' || c == ' ' }

  predicate White2(a: char, b: char) { a == '\U{00C2}' && (b == '\U{0085}' || b == '\U{00A0}') }

  predicate White3(a: char, b: char, c: char) {
    || (a == '\U{00E1}' && b == '\U{009A}' && c == '\U{0080}')
    || (a == '\U{00E2}' && b == '\U{0080}'
        && ('\U{0080}' <= c <= '\U{008A}' || c == '\U{00A8}' || c == '\U{00A9}' || c == '\U{00AF}'))
    || (a == '\U{00E2}' && b == '\U{0081}' && c == '\U{009F}')
    || (a == '\U{00E3}' && b == '\U{0080}' && c == '\U{0080}')
  }

  /** Bytes of the whitespace character that starts `s`, 0 if none does. */
  function WhiteHead(s: string): (n: nat)
    ensures n <= |s|
  {
    if |s| >= 1 && White1(s[0]) then 1
    else if |s| >= 2 && White2(s[0], s[1]) then 2
    else if |s| >= 3 && White3(s[0], s[1], s[2]) then 3
    else 0
  }

  /** Bytes of the whitespace character that ends `s`, 0 if none does. */
  function WhiteTail(s: string): (n: nat)
    ensures n <= |s|
    ensures n > 0 ==> !Cont(s[|s| - n])
  {
    var k := |s|;
    if k >= 1 && White1(s[k - 1]) then 1
    else if k >= 2 && White2(s[k - 2], s[k - 1]) then 2
    else if k >= 3 && White3(s[k - 3], s[k - 2], s[k - 1]) then 3
    else 0
  }

  function TrimStart(s: string): string {
    if WhiteHead(s) == 0 then s else TrimStart(s[WhiteHead(s)..])
  }

  function TrimEnd(s: string): string {
    if WhiteTail(s) == 0 then s else TrimEnd(s[..|s| - WhiteTail(s)])
  }

  function Trim(s: string): string { TrimEnd(TrimStart(s)) }

  predicate Trimmed(s: string) { WhiteHead(s) == 0 && WhiteTail(s) == 0 }

  lemma WhiteIsChar(s: string)
    requires Utf8(s) && WhiteHead(s) > 0
    ensures Utf8(s[WhiteHead(s)..])
  {
    assert CharLen(s) == WhiteHead(s);
  }

  /** Where `TrimStart` cuts. */
  lemma {:induction false} TrimStartCut(s: string) returns (i: nat)
    ensures i <= |s| && TrimStart(s) == s[i..] && WhiteHead(s[i..]) == 0
    ensures Utf8(s) ==> Utf8(s[i..])
  {
    var n := WhiteHead(s);
    if n == 0 {
      i := 0;
      assert s[0..] == s;
    } else {
      var k := TrimStartCut(s[n..]);
      i := n + k;
      assert s[n..][k..] == s[i..];
      if Utf8(s) { WhiteIsChar(s); }
    }
  }

  lemma {:induction false} TrimEndCut(s: string) returns (i: nat)
    ensures i <= |s| && TrimEnd(s) == s[..i] && WhiteTail(s[..i]) == 0
    ensures Utf8(s) ==> Utf8(s[..i])
  {
    var n := WhiteTail(s);
    if n == 0 {
      i := |s|;
      assert s[..i] == s;
    } else {
      var t := s[..|s| - n];
      if Utf8(s) { Utf8Split(s, |s| - n); }
      i := TrimEndCut(t);
      assert t[..i] == s[..i];
    }
  }

  /** `Trim` keeps a slice of its input, the slice has no outer whitespace, and valid text stays valid. */
  lemma TrimCut(s: string) returns (lo: nat, hi: nat)
    ensures lo <= hi <= |s| && Trim(s) == s[lo..hi] && Trimmed(Trim(s))
    ensures Utf8(s) ==> Utf8(Trim(s))
  {
    lo := TrimStartCut(s);
    var t := s[lo..];
    var k := TrimEndCut(t);
    hi := lo + k;
    TakeOfDrop(s, lo, k);
    assert WhiteHead(t[..k]) == 0;
  }

  lemma TrimFixes(s: string)
    requires Trimmed(s)
    ensures Trim(s) == s && Trim(" " + s) == s
  {
    assert (" " + s)[1..] == s;
    assert WhiteHead(" " + s) == 1;
    assert TrimStart(s) == s;
    assert TrimStart(" " + s) == TrimStart((" " + s)[1..]);
  }

  // ------------------------------------------------------------------ what trimming removes

  predicate WhiteChar(c: string) { c != "" && WhiteHead(c) == |c| }

  /** Whitespace characters and nothing else. */
  predicate White(s: string) { s == "" || (WhiteHead(s) > 0 && White(s[WhiteHead(s)..])) }

  lemma WhiteHeadAppend(a: string, b: string)
    requires WhiteHead(a) > 0
    ensures WhiteHead(a + b) == WhiteHead(a)
  {
    assert forall k :: 0 <= k < |a| ==> (a + b)[k] == a[k];
  }

  lemma WhiteFirst(s: string) returns (c: string, rest: string)
    requires WhiteHead(s) > 0
    ensures WhiteChar(c) && s == c + rest && |c| == WhiteHead(s) && rest == s[|c|..]
  {
    c, rest := s[..WhiteHead(s)], s[WhiteHead(s)..];
    assert forall k :: 0 <= k < |c| ==> c[k] == s[k];
  }

  lemma WhiteCons(c: string, b: string)
    requires WhiteChar(c)
    ensures White(c + b) <==> White(b)
    ensures TrimStart(c + b) == TrimStart(b)
  {
    WhiteHeadAppend(c, b);
    assert (c + b)[|c|..] == b;
  }

  /** The end looks for the same characters as the front. */
  lemma WhiteTailIs(a: string, c: string)
    requires WhiteChar(c)
    ensures WhiteTail(a + c) == |c|
  {
    var s := a + c;
    assert s[|s| - 1] == c[|c| - 1];
    if |c| > 1 { assert s[|s| - 2] == c[|c| - 2]; }
    if |c| > 2 { assert s[|s| - 3] == c[|c| - 3]; }
  }

  lemma WhiteTailChar(s: string) returns (a: string, c: string)
    requires WhiteTail(s) > 0
    ensures WhiteChar(c) && s == a + c && |c| == WhiteTail(s) && a == s[..|s| - |c|]
  {
    var n := WhiteTail(s);
    a, c := s[..|s| - n], s[|s| - n..];
    assert forall k :: 0 <= k < n ==> c[k] == s[|s| - n + k];
  }

  lemma TrimEndSnoc(a: string, c: string)
    requires WhiteChar(c)
    ensures TrimEnd(a + c) == TrimEnd(a)
  {
    WhiteTailIs(a, c);
    assert (a + c)[..|a + c| - |c|] == a;
  }

  lemma Assoc(a: string, b: string, c: string)
    ensures a + (b + c) == a + b + c
  {
  }

  lemma {:induction false} WhiteConcat(a: string, b: string)
    requires White(a) && White(b)
    ensures White(a + b)
  {
    if a == "" {
      assert a + b == b;
    } else {
      var c, rest := WhiteFirst(a);
      WhiteConcat(rest, b);
      Assoc(c, rest, b);
      WhiteCons(c, rest + b);
    }
  }

  /** Leading whitespace comes off, whatever follows it. */
  lemma {:induction false} TrimStartDrops(w: string, s: string)
    requires White(w)
    ensures TrimStart(w + s) == TrimStart(s)
  {
    if w == "" {
      assert w + s == s;
    } else {
      var c, rest := WhiteFirst(w);
      TrimStartDrops(rest, s);
      Assoc(c, rest, s);
      WhiteCons(c, rest + s);
    }
  }

  /** So does trailing whitespace. */
  lemma {:induction false} TrimEndDrops(s: string, w: string)
    requires White(w)
    ensures TrimEnd(s + w) == TrimEnd(s)
    decreases |w|
  {
    if w == "" {
      assert s + w == s;
    } else {
      var c, rest := WhiteFirst(w);
      TrimEndDrops(s + c, rest);
      Assoc(s, c, rest);
      TrimEndSnoc(s, c);
    }
  }

  lemma {:induction false} TrimStartWhite(s: string) returns (w: string)
    ensures White(w) && s == w + TrimStart(s) && WhiteHead(TrimStart(s)) == 0
    decreases |s|
  {
    if WhiteHead(s) == 0 {
      w := "";
      assert s == "" + s;
    } else {
      var c, rest := WhiteFirst(s);
      var more := TrimStartWhite(rest);
      WhiteCons(c, more);
      WhiteCons(c, rest);
      Assoc(c, more, TrimStart(rest));
      w := c + more;
    }
  }

  lemma {:induction false} TrimEndWhite(s: string) returns (w: string)
    ensures White(w) && s == TrimEnd(s) + w && WhiteTail(TrimEnd(s)) == 0
    decreases |s|
  {
    if WhiteTail(s) == 0 {
      w := "";
      assert s == s + "";
    } else {
      var a, c := WhiteTailChar(s);
      var more := TrimEndWhite(a);
      TrimEndSnoc(a, c);
      WhiteCons(c, "");
      assert c + "" == c;
      WhiteConcat(more, c);
      Assoc(TrimEnd(a), more, c);
      w := more + c;
    }
  }

  /** No character of the text in front joins with whitespace behind it. */
  lemma WhiteJoinsNothing(s: string, w: string)
    requires s != "" && WhiteHead(s) == 0 && White(w)
    ensures WhiteHead(s + w) == 0
  {
    var t := s + w;
    assert forall k :: 0 <= k < |s| ==> t[k] == s[k];
    if w != "" {
      assert !Cont(w[0]);
      assert t[|s|] == w[0];
    }
  }

  lemma TrimOf(before: string, s: string, after: string)
    requires White(before) && Trimmed(s) && White(after)
    ensures Trim(before + s + after) == s
  {
    Assoc(before, s, after);
    TrimStartDrops(before, s + after);
    if s == "" {
      assert s + after == after + "";
      TrimStartDrops(after, "");
    } else {
      WhiteJoinsNothing(s, after);
      assert TrimStart(s + after) == s + after;
      TrimEndDrops(s, after);
    }
  }

  lemma TrimLeaves(s: string) returns (before: string, after: string)
    ensures White(before) && White(after) && s == before + Trim(s) + after && Trimmed(Trim(s))
  {
    before := TrimStartWhite(s);
    after := TrimEndWhite(TrimStart(s));
    Assoc(before, Trim(s), after);
    var lo, hi := TrimCut(s);
  }

  /** `t` with whitespace in front of it and behind. */
  ghost predicate Padded(s: string, t: string) {
    exists before, after :: White(before) && White(after) && s == before + t + after
  }

  /** Trimming takes away whitespace only, all of it, and at both ends. */
  lemma TrimExactly(s: string, t: string)
    ensures Trim(s) == t <==> Trimmed(t) && Padded(s, t)
  {
    var w, v := TrimLeaves(s);
    if before, after :| Trimmed(t) && White(before) && White(after) && s == before + t + after {
      TrimOf(before, t, after);
    }
  }

  // ------------------------------------------------------------------ ASCII case

  function LowerChar(c: char): char {
    if 'A' <= c <= 'Z' then (c as int + 32) as char else c
  }

  function Lower(s: string): (r: string)
    ensures |r| == |s| && forall i :: 0 <= i < |s| ==> r[i] == LowerChar(s[i])
  {
    seq(|s|, i requires 0 <= i < |s| => LowerChar(s[i]))
  }

  predicate IsLower(s: string) { forall i :: 0 <= i < |s| ==> !('A' <= s[i] <= 'Z') }

  lemma LowerFixes(s: string)
    ensures IsLower(Lower(s))
    ensures IsLower(s) <==> Lower(s) == s
  {
    if Lower(s) == s {
      forall i | 0 <= i < |s| ensures !('A' <= s[i] <= 'Z') { assert s[i] == LowerChar(s[i]); }
    }
  }

  lemma LowerLacks(s: string, c: char)
    requires c !in s && !('a' <= c <= 'z')
    ensures c !in Lower(s)
  {
    forall i | 0 <= i < |s| ensures Lower(s)[i] != c { assert s[i] in s; }
  }

  lemma LowerKeepsTrim(s: string)
    requires Trimmed(s)
    ensures Trimmed(Lower(s))
  {
  }

  lemma {:induction false} LowerKeepsUtf8(s: string)
    requires Utf8(s)
    ensures Utf8(Lower(s))
  {
    if s != "" {
      var n := CharLen(s);
      LowerKeepsUtf8(s[n..]);
      assert Lower(s)[n..] == Lower(s[n..]);
      assert CharLen(Lower(s)) == n;
    }
  }
}
