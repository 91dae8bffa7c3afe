/** HTTP/1.x request heads: the parser, the printer, and the exact sense in which they undo each other
    (sections 2.1, 3 and 5 of RFC 9112). */
module EgressHead {
  import opened Text

  const CRLF := "\r\n"
  const BLANK := "\r\n\r\n"
  const MAX_REQ_HEAD_BYTES := 32 * 1024

  datatype Header = Header(name: string, value: string)

  datatype Head = Head(verb: string, target: string, version: string, headers: seq<Header>, headLen: nat)

  datatype ParseError = HeadTooLarge | InvalidUtf8 | MalformedRequestLine | MalformedHeader

  datatype Result<+T> = Ok(value: T) | Err(error: ParseError)

  /** `Incomplete` asks the caller for more bytes. */
  datatype Parsed = Incomplete | Complete(head: Head) | Failed(error: ParseError)

  // ------------------------------------------------------------------ parsing

  function SplitLines(text: string): (lines: seq<string>)
    ensures |lines| > 0
    decreases |text|
  {
    match Find(text, CRLF)
    case None => [text]
    case Some(i) => [text[..i]] + SplitLines(text[i + 2..])
  }

  function ParseRequestLine(line: string): Result<(string, string, string)> {
    match Find(line, " ")
    case None => Err(MalformedRequestLine)
    case Some(i) =>
      var rest := line[i + 1..];
      match Find(rest, " ")
      case None => Err(MalformedRequestLine)
      case Some(j) => Ok((line[..i], rest[..j], rest[j + 1..]))
  }

  function ParseHeader(line: string): Result<Header> {
    match Find(line, ":")
    case None => Err(MalformedHeader)
    case Some(i) => Ok(Header(Lower(Trim(line[..i])), Trim(line[i + 1..])))
  }

  function ParseHeaders(lines: seq<string>): Result<seq<Header>> {
    if lines == [] then Ok([])
    else if lines[0] == "" then ParseHeaders(lines[1..])
    else
      match ParseHeader(lines[0])
      case Err(e) => Err(e)
      case Ok(h) =>
        match ParseHeaders(lines[1..])
        case Err(e) => Err(e)
        case Ok(hs) => Ok([h] + hs)
  }

  function ParseLines(lines: seq<string>, headLen: nat): Parsed
    requires |lines| > 0
  {
    match ParseRequestLine(lines[0])
    case Err(e) => Failed(e)
    case Ok((m, t, v)) =>
      match ParseHeaders(lines[1..])
      case Err(e) => Failed(e)
      case Ok(hs) => Complete(Head(m, t, v, hs, headLen))
  }

  /** `text` is what precedes the blank line. */
  function ParseText(text: string): Parsed {
    if !Utf8(text) then Failed(InvalidUtf8) else ParseLines(SplitLines(text), |text| + 4)
  }

  function ParseHead(buf: string): Parsed {
    match Find(buf, BLANK)
    case None => if |buf| > MAX_REQ_HEAD_BYTES then Failed(HeadTooLarge) else Incomplete
    case Some(end) => ParseText(buf[..end])
  }

  method ParseHeaderLines(lines: seq<string>) returns (r: Result<seq<Header>>)
    ensures r == ParseHeaders(lines)
  {
    var headers: seq<Header> := [];
    var i := 0;
    assert lines[0..] == lines;
    assert forall hs: seq<Header> :: [] + hs == hs;
    while i < |lines|
      invariant 0 <= i <= |lines|
      invariant ParseHeaders(lines) ==
                match ParseHeaders(lines[i..])
                case Err(e) => Err(e)
                case Ok(hs) => Ok(headers + hs)
    {
      assert lines[i..][1..] == lines[i + 1..];
      if lines[i] != "" {
        var h := ParseHeader(lines[i]);
        if h.Err? {
          return Err(h.error);
        }
        assert forall hs :: headers + ([h.value] + hs) == headers + [h.value] + hs;
        headers := headers + [h.value];
      }
      i := i + 1;
    }
    assert lines[i..] == [];
    assert headers + [] == headers;
    return Ok(headers);
  }

  /** The parser as the source runs it, one early return after another. */
  method ParseRequestHead(buf: string) returns (r: Parsed)
    ensures r == ParseHead(buf)
  {
    var end := Find(buf, BLANK);
    if end.None? {
      return if |buf| > MAX_REQ_HEAD_BYTES then Failed(HeadTooLarge) else Incomplete;
    }
    var text := buf[..end.value];
    if !Utf8(text) {
      return Failed(InvalidUtf8);
    }
    var lines := SplitLines(text);
    var request := ParseRequestLine(lines[0]);
    if request.Err? {
      return Failed(request.error);
    }
    var headers := ParseHeaderLines(lines[1..]);
    if headers.Err? {
      return Failed(headers.error);
    }
    var (m, t, v) := request.value;
    return Complete(Head(m, t, v, headers.value, end.value + 4));
  }

  // ------------------------------------------------------------------ printing

  function RequestLine(h: Head): string { h.verb + " " + h.target + " " + h.version }

  function HeaderLine(h: Header): string { h.name + ": " + h.value }

  function PrintHeaders(hs: seq<Header>): string {
    if hs == [] then "" else HeaderLine(hs[0]) + CRLF + PrintHeaders(hs[1..])
  }

  /** The wire form of a head. */
  function Print(h: Head): string { RequestLine(h) + CRLF + PrintHeaders(h.headers) + CRLF }

  method SerializeRequest(h: Head, targetOverride: Option<string>) returns (out: string)
    ensures out == Print(if targetOverride.Some? then h.(target := targetOverride.value) else h)
  {
    var target := if targetOverride.Some? then targetOverride.value else h.target;
    ghost var g := h.(target := target);
    out := h.verb + " ";
    out := out + target + " ";
    out := out + h.version + CRLF;
    assert out == RequestLine(g) + CRLF;
    var i := 0;
    while i < |h.headers|
      invariant 0 <= i <= |h.headers|
      invariant out + PrintHeaders(h.headers[i..]) == RequestLine(g) + CRLF + PrintHeaders(h.headers)
    {
      ghost var rest := PrintHeaders(h.headers[i + 1..]);
      assert h.headers[i..][1..] == h.headers[i + 1..];
      assert out + (HeaderLine(h.headers[i]) + CRLF + rest) == out + HeaderLine(h.headers[i]) + CRLF + rest;
      out := out + HeaderLine(h.headers[i]) + CRLF;
      i := i + 1;
    }
    assert out + PrintHeaders(h.headers[i..]) == out;
    out := out + CRLF;
  }

  // ------------------------------------------------------------------ well-formed heads

  ghost predicate NoCrlf(s: string) { Lacks(s, CRLF) }

  ghost predicate LineOk(s: string) { s != "" && NoCrlf(s) }

  ghost predicate HeaderOk(h: Header) {
    && IsLower(h.name) && Trimmed(h.name) && ':' !in h.name
    && Trimmed(h.value)
    && LineOk(HeaderLine(h))
  }

  /** No part of the head can be mistaken for a delimiter. */
  ghost predicate Delimited(h: Head) {
    && ' ' !in h.verb && ' ' !in h.target
    && LineOk(RequestLine(h))
    && forall i :: 0 <= i < |h.headers| ==> HeaderOk(h.headers[i])
  }

  ghost predicate ValidText(h: Head) {
    Utf8(RequestLine(h)) && forall i :: 0 <= i < |h.headers| ==> Utf8(HeaderLine(h.headers[i]))
  }

  ghost predicate WellFormed(h: Head) { Delimited(h) && ValidText(h) }

  lemma NoCrlfConcat(a: string, b: string)
    requires NoCrlf(a) && NoCrlf(b)
    requires a == "" || b == "" || a[|a| - 1] != '\r' || b[0] != '\n'
    ensures NoCrlf(a + b)
  {
    forall j ensures !At(a + b, CRLF, j) {
      if 0 <= j && j + 2 <= |a| {
        assert (a + b)[j..j + 2] == a[j..j + 2];
        assert !At(a, CRLF, j);
      } else if |a| <= j && j + 2 <= |a + b| {
        assert (a + b)[j..j + 2] == b[j - |a|..j - |a| + 2];
        assert !At(b, CRLF, j - |a|);
      } else if 0 <= j && j + 2 <= |a + b| {
        assert (a + b)[j..j + 2] == [a[|a| - 1], b[0]];
      }
    }
  }

  lemma NoCrlfLower(s: string)
    requires NoCrlf(s)
    ensures NoCrlf(Lower(s))
  {
    forall j ensures !At(Lower(s), CRLF, j) {
      if 0 <= j && j + 2 <= |s| {
        assert !At(s, CRLF, j);
        assert s[j..j + 2] == [s[j], s[j + 1]];
        assert Lower(s)[j..j + 2] == [LowerChar(s[j]), LowerChar(s[j + 1])];
      }
    }
  }

  lemma NoCrlfSingle(s: string)
    requires |s| <= 1 || s == ": "
    ensures NoCrlf(s)
  {
    forall j ensures !At(s, CRLF, j) {
      if s == ": " && j == 0 { assert s[0..2] == s; }
    }
  }

  /** A line is followed by its own terminator, nowhere earlier. */
  lemma FirstCrlf(line: string, rest: string)
    requires NoCrlf(line)
    ensures forall j :: 0 <= j < |line| ==> !At(line + CRLF + rest, CRLF, j)
    ensures At(line + CRLF + rest, CRLF, |line|)
  {
    var t := line + CRLF + rest;
    forall j | 0 <= j < |line| ensures !At(t, CRLF, j) {
      if j + 2 <= |line| {
        assert t[j..j + 2] == line[j..j + 2];
        assert !At(line, CRLF, j);
      } else {
        assert t[j..j + 2][1] == '\r';
      }
    }
    assert t[|line|..|line| + 2] == CRLF;
  }

  // ------------------------------------------------------------------ what the parser can return

  lemma {:induction false} SplitLinesLack(text: string)
    ensures forall k :: 0 <= k < |SplitLines(text)| ==> NoCrlf(SplitLines(text)[k])
    decreases |text|
  {
    var r := Find(text, CRLF);
    FindSpec(text, CRLF);
    if r.Some? {
      var i := r.value;
      SplitLinesLack(text[i + 2..]);
      forall j ensures !At(text[..i], CRLF, j) {
        if 0 <= j && j + 2 <= i {
          assert text[..i][j..j + 2] == text[j..j + 2];
          assert !At(text, CRLF, j);
        }
      }
      }
  }

  lemma {:induction false} SplitLinesUtf8(text: string)
    requires Utf8(text)
    ensures forall k :: 0 <= k < |SplitLines(text)| ==> Utf8(SplitLines(text)[k])
    decreases |text|
  {
    var r := Find(text, CRLF);
    FindSpec(text, CRLF);
    if r.Some? {
      var i := r.value;
      assert text[i] == text[i..i + 2][0] && text[i + 1] == text[i..i + 2][1];
      Utf8SplitAround(text, i);
      Utf8SplitAround(text, i + 1);
      SplitLinesUtf8(text[i + 2..]);
    }
  }

  lemma RequestLineParts(line: string)
    requires ParseRequestLine(line).Ok?
    ensures var (m, t, v) := ParseRequestLine(line).value;
            ' ' !in m && ' ' !in t && line == m + " " + t + " " + v
  {
    var i := Find(line, " ").value;
    var rest := line[i + 1..];
    var j := Find(rest, " ").value;
    CutAt(line, ' ', i);
    CutAt(rest, ' ', j);
    Assoc(line[..i] + " ", rest[..j] + " ", rest[j + 1..]);
    Assoc(line[..i] + " ", rest[..j], " ");
  }

  lemma HeaderNameOk(raw: string)
    requires NoCrlf(raw) && ':' !in raw
    ensures var n := Lower(Trim(raw)); IsLower(n) && Trimmed(n) && ':' !in n && NoCrlf(n)
  {
    var lo, hi := TrimCut(raw);
    var t := Trim(raw);
    SliceLacks(raw, CRLF, lo, hi);
    LowerLacks(t, ':');
    LowerFixes(t);
    LowerKeepsTrim(t);
    NoCrlfLower(t);
  }

  lemma HeaderLineOk(line: string)
    requires NoCrlf(line) && ParseHeader(line).Ok?
    ensures HeaderOk(ParseHeader(line).value)
  {
    var i := Find(line, ":").value;
    CutAt(line, ':', i);
    SliceLacks(line, CRLF, 0, i);
    SliceLacks(line, CRLF, i + 1, |line|);
    assert line[0..i] == line[..i] && line[i + 1..|line|] == line[i + 1..];
    var (n, v) := (Lower(Trim(line[..i])), Trim(line[i + 1..]));
    HeaderNameOk(line[..i]);
    var lo, hi := TrimCut(line[i + 1..]);
    SliceLacks(line[i + 1..], CRLF, lo, hi);
    NoCrlfSingle(": ");
    NoCrlfConcat(n, ": ");
    NoCrlfConcat(n + ": ", v);
  }

  lemma Utf8SplitAround(s: string, i: nat)
    requires Utf8(s) && i < |s| && s[i] <= '\U{007F}'
    ensures Utf8(s[..i]) && Utf8(s[i + 1..])
  {
    Utf8Split(s, i);
    assert CharLen(s[i..]) == 1 && s[i..][1..] == s[i + 1..];
  }

  lemma HeaderLineUtf8(line: string)
    requires Utf8(line) && ParseHeader(line).Ok?
    ensures Utf8(HeaderLine(ParseHeader(line).value))
  {
    var i := Find(line, ":").value;
    CutAt(line, ':', i);
    Utf8SplitAround(line, i);
    var lo, hi := TrimCut(line[..i]);
    LowerKeepsUtf8(Trim(line[..i]));
    var lo2, hi2 := TrimCut(line[i + 1..]);
    Utf8HeaderLine(Lower(Trim(line[..i])), Trim(line[i + 1..]));
  }

  lemma Utf8HeaderLine(name: string, value: string)
    requires Utf8(name) && Utf8(value)
    ensures Utf8(name + ": " + value)
  {
    assert Utf8(": ") by { assert ": "[1..] == " "; assert " "[1..] == ""; }
    Utf8Concat(name, ": ");
    Utf8Concat(name + ": ", value);
  }

  lemma {:induction false} HeadersOk(lines: seq<string>)
    requires forall k :: 0 <= k < |lines| ==> NoCrlf(lines[k])
    requires ParseHeaders(lines).Ok?
    ensures forall i :: 0 <= i < |ParseHeaders(lines).value| ==> HeaderOk(ParseHeaders(lines).value[i])
  {
    if lines != [] {
      HeadersOk(lines[1..]);
      if lines[0] != "" { HeaderLineOk(lines[0]); }
    }
  }

  lemma {:induction false} HeadersUtf8(lines: seq<string>)
    requires forall k :: 0 <= k < |lines| ==> Utf8(lines[k])
    requires ParseHeaders(lines).Ok?
    ensures forall i :: 0 <= i < |ParseHeaders(lines).value| ==> Utf8(HeaderLine(ParseHeaders(lines).value[i]))
  {
    if lines != [] {
      HeadersUtf8(lines[1..]);
      if lines[0] != "" { HeaderLineUtf8(lines[0]); }
    }
  }

  lemma LinesGiveHead(lines: seq<string>, n: nat)
    requires |lines| > 0 && ParseLines(lines, n).Complete?
    ensures var h := ParseLines(lines, n).head;
            ' ' !in h.verb && ' ' !in h.target && RequestLine(h) == lines[0] && h.headLen == n
    ensures ParseHeaders(lines[1..]) == Ok(ParseLines(lines, n).head.headers)
  {
    RequestLineParts(lines[0]);
  }

  lemma LinesGiveDelimited(lines: seq<string>, n: nat)
    requires |lines| > 0 && ParseLines(lines, n).Complete?
    requires forall k :: 0 <= k < |lines| ==> NoCrlf(lines[k])
    ensures Delimited(ParseLines(lines, n).head)
  {
    LinesGiveHead(lines, n);
    HeadersOk(lines[1..]);
  }

  lemma LinesGiveValidText(lines: seq<string>, n: nat)
    requires |lines| > 0 && ParseLines(lines, n).Complete?
    requires forall k :: 0 <= k < |lines| ==> Utf8(lines[k])
    ensures ValidText(ParseLines(lines, n).head)
  {
    LinesGiveHead(lines, n);
    HeadersUtf8(lines[1..]);
  }

  lemma TextGivesWellFormed(text: string)
    requires ParseText(text).Complete?
    ensures WellFormed(ParseText(text).head) && ParseText(text).head.headLen == |text| + 4
  {
    SplitLinesLack(text);
    SplitLinesUtf8(text);
    LinesGiveDelimited(SplitLines(text), |text| + 4);
    LinesGiveValidText(SplitLines(text), |text| + 4);
  }

  /** Every head the parser returns is well formed, whatever bytes it was given; its length is the
      position just after the first blank line. */
  lemma ParsedIsWellFormed(buf: string)
    requires ParseHead(buf).Complete?
    ensures WellFormed(ParseHead(buf).head)
    ensures Find(buf, BLANK).Some? && ParseHead(buf).head.headLen == Find(buf, BLANK).value + 4 <= |buf|
  {
    TextGivesWellFormed(buf[..Find(buf, BLANK).value]);
  }

  // ------------------------------------------------------------------ print, then parse

  /** Lines separated, not terminated, by CRLF. */
  function Glue(lines: seq<string>): string
    requires |lines| > 0
  {
    if |lines| == 1 then lines[0] else lines[0] + CRLF + Glue(lines[1..])
  }

  lemma SplitFirstLine(line: string, rest: string)
    requires NoCrlf(line)
    ensures SplitLines(line + CRLF + rest) == [line] + SplitLines(rest)
  {
    var t := line + CRLF + rest;
    FirstCrlf(line, rest);
    FindIs(t, CRLF, |line|);
    assert t[..|line|] == line && t[|line| + 2..] == rest;
  }

  lemma {:induction false} SplitUndoesGlue(lines: seq<string>)
    requires |lines| > 0 && forall k :: 0 <= k < |lines| ==> NoCrlf(lines[k])
    ensures SplitLines(Glue(lines)) == lines
  {
    if |lines| == 1 {
      FindNone(lines[0], CRLF);
      assert lines == [lines[0]];
    } else {
      SplitUndoesGlue(lines[1..]);
      SplitFirstLine(lines[0], Glue(lines[1..]));
      assert lines == [lines[0]] + lines[1..];
    }
  }

  lemma {:induction false} GlueUtf8(lines: seq<string>)
    requires |lines| > 0 && forall k :: 0 <= k < |lines| ==> Utf8(lines[k])
    ensures Utf8(Glue(lines))
  {
    if |lines| > 1 {
      GlueUtf8(lines[1..]);
      assert Utf8(CRLF) by { assert CRLF[1..] == "\n"; assert "\n"[1..] == ""; }
      Utf8Concat(lines[0], CRLF);
      Utf8Concat(lines[0] + CRLF, Glue(lines[1..]));
    }
  }

  /** No blank line starts inside or right after a line that a non-empty line follows. */
  lemma NoBlankAtLine(line: string, rest: string)
    requires NoCrlf(line) && !At(rest, CRLF, 0)
    ensures forall j :: 0 <= j < |line| + 2 ==> !At(line + CRLF + rest, BLANK, j)
  {
    var t := line + CRLF + rest;
    FirstCrlf(line, rest);
    forall j | 0 <= j < |line| + 2 ensures !At(t, BLANK, j) {
      if j + 4 <= |t| {
        var w := t[j..j + 4];
        if j < |line| {
          assert !At(t, CRLF, j);
          assert w[..2] == t[j..j + 2];
        } else if j == |line| {
          assert w[2..] == rest[0..2];
        } else {
          assert w[0] == '\n';
        }
      }
    }
  }

  lemma LastBlank(line: string, body: string)
    requires NoCrlf(line)
    ensures FirstAt(line + BLANK + body, BLANK, |line|)
  {
    var t := line + BLANK + body;
    assert t == line + CRLF + (CRLF + body);
    FirstCrlf(line, CRLF + body);
    forall j | 0 <= j < |line| ensures !At(t, BLANK, j) {
      assert !At(t, CRLF, j);
      if j + 4 <= |t| { assert t[j..j + 4][..2] == t[j..j + 2]; }
    }
    assert t[|line|..|line| + 4] == BLANK;
  }

  lemma GlueStartsWithLine(lines: seq<string>, body: string)
    requires |lines| > 0 && lines[0] != "" && NoCrlf(lines[0])
    ensures !At(Glue(lines) + BLANK + body, CRLF, 0)
  {
    var t := Glue(lines) + BLANK + body;
    var tail := if |lines| == 1 then CRLF + body else Glue(lines[1..]) + BLANK + body;
    assert t == lines[0] + CRLF + tail;
    FirstCrlf(lines[0], tail);
  }

  /** The first blank line of a printed head is its last one. */
  lemma {:induction false} FirstBlank(lines: seq<string>, body: string)
    requires |lines| > 0 && forall k :: 0 <= k < |lines| ==> lines[k] != "" && NoCrlf(lines[k])
    ensures FirstAt(Glue(lines) + BLANK + body, BLANK, |Glue(lines)|)
  {
    if |lines| == 1 {
      LastBlank(lines[0], body);
    } else {
      var rest := Glue(lines[1..]) + BLANK + body;
      FirstBlank(lines[1..], body);
      GlueStartsWithLine(lines[1..], body);
      NoBlankAtLine(lines[0], rest);
      FirstAtRight(lines[0] + CRLF, rest, BLANK, |Glue(lines[1..])|);
      assert Glue(lines) + BLANK + body == lines[0] + CRLF + rest;
    }
  }

  function HeaderLines(hs: seq<Header>): (lines: seq<string>)
    ensures |lines| == |hs| && forall i :: 0 <= i < |hs| ==> lines[i] == HeaderLine(hs[i])
  {
    if hs == [] then [] else [HeaderLine(hs[0])] + HeaderLines(hs[1..])
  }

  lemma {:induction false} PrintHeadersGlued(first: string, hs: seq<Header>)
    ensures first + CRLF + PrintHeaders(hs) + CRLF == Glue([first] + HeaderLines(hs)) + BLANK
    decreases |hs|
  {
    var lines := [first] + HeaderLines(hs);
    if hs == [] {
      assert lines == [first];
    } else {
      PrintHeadersGlued(HeaderLine(hs[0]), hs[1..]);
      assert lines[1..] == [HeaderLine(hs[0])] + HeaderLines(hs[1..]);
      assert Glue(lines) == first + CRLF + Glue(lines[1..]);
      calc {
        first + CRLF + PrintHeaders(hs) + CRLF;
        first + CRLF + (HeaderLine(hs[0]) + CRLF + PrintHeaders(hs[1..]) + CRLF);
        first + CRLF + (Glue(lines[1..]) + BLANK);
        Glue(lines) + BLANK;
      }
    }
  }

  lemma ParseHeaderAt(name: string, rest: string)
    requires ':' !in name
    ensures ParseHeader(name + ":" + rest) == Ok(Header(Lower(Trim(name)), Trim(rest)))
  {
    var line := name + ":" + rest;
    var i := |name|;
    forall j | 0 <= j < i ensures line[j] != ':' { assert line[j] == name[j]; }
    FindChar(line, ':', i);
    assert line[..i] == name && line[i + 1..] == rest;
  }

  lemma ParsePrintedHeader(h: Header)
    requires HeaderOk(h)
    ensures ParseHeader(HeaderLine(h)) == Ok(h)
  {
    ParseHeaderAt(h.name, " " + h.value);
    assert HeaderLine(h) == h.name + ":" + (" " + h.value);
    TrimFixes(h.name);
    TrimFixes(h.value);
    LowerFixes(h.name);
  }

  lemma ParseHeadersCons(line: string, h: Header, lines: seq<string>)
    requires line != "" && ParseHeader(line) == Ok(h) && ParseHeaders(lines).Ok?
    ensures ParseHeaders([line] + lines) == Ok([h] + ParseHeaders(lines).value)
  {
    assert ([line] + lines)[1..] == lines;
  }

  lemma {:induction false} ParsePrintedHeaders(hs: seq<Header>)
    requires forall i :: 0 <= i < |hs| ==> HeaderOk(hs[i])
    ensures ParseHeaders(HeaderLines(hs)) == Ok(hs)
  {
    if hs != [] {
      assert HeaderOk(hs[0]);
      ParsePrintedHeader(hs[0]);
      ParsePrintedHeaders(hs[1..]);
      ParseHeadersCons(HeaderLine(hs[0]), hs[0], HeaderLines(hs[1..]));
      assert [hs[0]] + hs[1..] == hs;
    }
  }

  lemma ParsePrintedRequestLine(h: Head)
    requires ' ' !in h.verb && ' ' !in h.target
    ensures ParseRequestLine(RequestLine(h)) == Ok((h.verb, h.target, h.version))
  {
    var line := RequestLine(h);
    var i := |h.verb|;
    forall j | 0 <= j < i ensures line[j] != ' ' { assert line[j] == h.verb[j]; }
    FindChar(line, ' ', i);
    var rest := line[i + 1..];
    assert rest == h.target + " " + h.version;
    var k := |h.target|;
    forall j | 0 <= j < k ensures rest[j] != ' ' { assert rest[j] == h.target[j]; }
    FindChar(rest, ' ', k);
    assert line[..i] == h.verb && rest[..k] == h.target && rest[k + 1..] == h.version;
  }

  lemma PrintedLinesOk(h: Head)
    requires WellFormed(h)
    ensures var lines := [RequestLine(h)] + HeaderLines(h.headers);
            && (forall k :: 0 <= k < |lines| ==> LineOk(lines[k]))
            && (forall k :: 0 <= k < |lines| ==> Utf8(lines[k]))
  {
    var lines := [RequestLine(h)] + HeaderLines(h.headers);
    assert forall k :: 0 < k < |lines| ==> lines[k] == HeaderLine(h.headers[k - 1]);
    forall k | 0 <= k < |lines| ensures LineOk(lines[k]) {
      if k > 0 { assert HeaderOk(h.headers[k - 1]); }
    }
  }

  lemma ParsePrintedLines(h: Head, n: nat)
    requires Delimited(h)
    ensures ParseLines([RequestLine(h)] + HeaderLines(h.headers), n) == Complete(h.(headLen := n))
  {
    ParsePrintedRequestLine(h);
    ParsePrintedHeaders(h.headers);
    assert ([RequestLine(h)] + HeaderLines(h.headers))[1..] == HeaderLines(h.headers);
  }

  ghost function TextOf(h: Head): string { Glue([RequestLine(h)] + HeaderLines(h.headers)) }

  lemma PrintedBuffer(h: Head, body: string)
    requires WellFormed(h)
    ensures Print(h) == TextOf(h) + BLANK
    ensures Find(Print(h) + body, BLANK) == Some(|TextOf(h)|)
  {
    PrintedLinesOk(h);
    PrintHeadersGlued(RequestLine(h), h.headers);
    FirstBlank([RequestLine(h)] + HeaderLines(h.headers), body);
    assert Print(h) + body == TextOf(h) + BLANK + body;
    FindIs(Print(h) + body, BLANK, |TextOf(h)|);
  }

  lemma TextSplits(h: Head)
    requires WellFormed(h)
    ensures SplitLines(TextOf(h)) == [RequestLine(h)] + HeaderLines(h.headers) && Utf8(TextOf(h))
  {
    var lines := [RequestLine(h)] + HeaderLines(h.headers);
    PrintedLinesOk(h);
    SplitUndoesGlue(lines);
    GlueUtf8(lines);
  }

  lemma ParsePrintedText(h: Head)
    requires WellFormed(h)
    ensures ParseText(TextOf(h)) == Complete(h.(headLen := |TextOf(h)| + 4))
  {
    TextSplits(h);
    ParsePrintedLines(h, |TextOf(h)| + 4);
  }

  /** Printing a well-formed head and parsing it back, with any bytes behind it, returns the head and
      puts the body exactly where the printed head ends. */
  lemma PrintThenParse(h: Head, body: string)
    requires WellFormed(h)
    ensures ParseHead(Print(h) + body) == Complete(h.(headLen := |Print(h)|))
  {
    PrintedBuffer(h, body);
    ParsePrintedText(h);
    assert (Print(h) + body)[..|TextOf(h)|] == TextOf(h);
  }

  /** The printed form is a normal form: whatever buffer parses, printing and parsing again changes
      nothing but the recorded length. */
  lemma ParsePrintParse(buf: string, body: string)
    requires ParseHead(buf).Complete?
    ensures var h := ParseHead(buf).head;
            ParseHead(Print(h) + body) == Complete(h.(headLen := |Print(h)|))
  {
    ParsedIsWellFormed(buf);
    PrintThenParse(ParseHead(buf).head, body);
  }

  /** Printing loses nothing exactly on the well-formed heads. */
  lemma RoundTripsExactlyWhenWellFormed(h: Head)
    ensures ParseHead(Print(h)) == Complete(h.(headLen := |Print(h)|)) <==> WellFormed(h)
  {
    if WellFormed(h) {
      PrintThenParse(h, "");
      assert Print(h) + "" == Print(h);
    } else if ParseHead(Print(h)).Complete? {
      ParsedIsWellFormed(Print(h));
      assert WellFormed(ParseHead(Print(h)).head) ==> ParseHead(Print(h)).head != h.(headLen := |Print(h)|);
    }
  }
}
