/** Which request heads the parser accepts, what it reads in them, and why it refuses the others: said of the text
    alone, without the parser (section 5 of RFC 9112 allows whitespace around a header's value). */
module EgressGrammar {
  import opened Text
  import opened EgressHead

  // ------------------------------------------------------------------ one header line

  ghost predicate CutAs(line: string, h: Header, left: string, name: string, right: string) {
    && line == left + ":" + right && ':' !in left
    && Padded(left, name) && Trimmed(name) && h.name == Lower(name)
    && Padded(right, h.value) && Trimmed(h.value)
  }

  /** `line` is a name, a colon and a value, each in whitespace, and the header is the name in lower case with
      that value. */
  ghost predicate Denotes(line: string, h: Header) { exists left, name, right :: CutAs(line, h, left, name, right) }

  lemma DenotedIsParsed(line: string, h: Header, left: string, name: string, right: string)
    requires CutAs(line, h, left, name, right)
    ensures ParseHeader(line) == Result.Ok(h)
  {
    ParseHeaderAt(left, right);
    TrimExactly(left, name);
    TrimExactly(right, h.value);
  }

  lemma ParsedIsDenoted(line: string)
    requires ParseHeader(line).Ok?
    ensures Denotes(line, ParseHeader(line).value)
  {
    var i := Find(line, ":").value;
    CutAt(line, ':', i);
    var (left, right) := (line[..i], line[i + 1..]);
    TrimExactly(left, Trim(left));
    TrimExactly(right, Trim(right));
    assert CutAs(line, ParseHeader(line).value, left, Trim(left), right);
  }

  lemma HeaderExactly(line: string, h: Header)
    ensures ParseHeader(line) == Result.Ok(h) <==> Denotes(line, h)
  {
    if ParseHeader(line) == Result.Ok(h) { ParsedIsDenoted(line); }
    if left, name, right :| CutAs(line, h, left, name, right) { DenotedIsParsed(line, h, left, name, right); }
  }

  lemma NoHeaderExactly(line: string)
    ensures ParseHeader(line) == Err(MalformedHeader) <==> ':' !in line
    ensures ParseHeader(line).Err? ==> ':' !in line
  {
    if Find(line, ":").Some? {
      CutAt(line, ':', Find(line, ":").value);
    } else {
      FindSpec(line, ":");
      forall k | 0 <= k < |line| ensures line[k] != ':' {
        assert !At(line, ":", k);
        assert line[k..k + 1] == [line[k]];
      }
    }
  }

  // ------------------------------------------------------------------ all header lines

  function NonEmpty(lines: seq<string>): seq<string> {
    if lines == [] then []
    else (if lines[0] == "" then [] else [lines[0]]) + NonEmpty(lines[1..])
  }

  /** The headers are, one by one and in order, those of the lines that are not empty. */
  ghost predicate AllDenote(lines: seq<string>, hs: seq<Header>) {
    && |NonEmpty(lines)| == |hs|
    && forall i :: 0 <= i < |hs| ==> Denotes(NonEmpty(lines)[i], hs[i])
  }

  lemma AllDenoteCons(line: string, lines: seq<string>, hs: seq<Header>)
    requires line != ""
    ensures AllDenote([line] + lines, hs) <==> hs != [] && Denotes(line, hs[0]) && AllDenote(lines, hs[1..])
  {
    var (all, rest) := (NonEmpty([line] + lines), NonEmpty(lines));
    assert ([line] + lines)[1..] == lines;
    assert all == [line] + rest;
    if hs != [] {
      assert forall i :: 0 < i < |all| ==> all[i] == rest[i - 1];
      assert forall i :: 0 < i < |hs| ==> hs[i] == hs[1..][i - 1];
      if AllDenote(lines, hs[1..]) && Denotes(line, hs[0]) {
        forall i | 0 <= i < |hs| ensures Denotes(all[i], hs[i]) {
          if i > 0 { assert Denotes(rest[i - 1], hs[1..][i - 1]); }
        }
      }
      if AllDenote([line] + lines, hs) {
        forall i | 0 <= i < |hs[1..]| ensures Denotes(rest[i], hs[1..][i]) {
          assert Denotes(all[i + 1], hs[i + 1]);
        }
      }
    }
  }

  lemma HeadersCons(line: string, lines: seq<string>, hs: seq<Header>)
    requires line != ""
    ensures ParseHeaders([line] + lines) == Result.Ok(hs) <==>
            hs != [] && ParseHeader(line) == Result.Ok(hs[0]) && ParseHeaders(lines) == Result.Ok(hs[1..])
  {
    assert ([line] + lines)[1..] == lines;
    if hs != [] { assert hs == [hs[0]] + hs[1..]; }
  }

  lemma {:induction false} HeadersExactly(lines: seq<string>, hs: seq<Header>)
    ensures ParseHeaders(lines) == Result.Ok(hs) <==> AllDenote(lines, hs)
    decreases |lines|
  {
    if lines != [] {
      var (line, rest) := (lines[0], lines[1..]);
      assert lines == [line] + rest;
      if line == "" {
        HeadersExactly(rest, hs);
        assert NonEmpty(lines) == NonEmpty(rest);
      } else {
        HeadersCons(line, rest, hs);
        AllDenoteCons(line, rest, hs);
        if hs != [] {
          HeaderExactly(line, hs[0]);
          HeadersExactly(rest, hs[1..]);
        }
      }
    }
  }

  /** Some line that is not empty has no colon. */
  predicate LacksColon(lines: seq<string>) { exists i :: 0 <= i < |lines| && lines[i] != "" && ':' !in lines[i] }

  lemma {:induction false} NoHeadersExactly(lines: seq<string>)
    ensures ParseHeaders(lines) == Err(MalformedHeader) <==> LacksColon(lines)
    ensures ParseHeaders(lines).Err? ==> LacksColon(lines)
  {
    if lines != [] {
      NoHeadersExactly(lines[1..]);
      NoHeaderExactly(lines[0]);
      assert forall i :: 0 < i < |lines| ==> lines[i] == lines[1..][i - 1];
      if LacksColon(lines[1..]) {
        var i :| 0 <= i < |lines[1..]| && lines[1..][i] != "" && ':' !in lines[1..][i];
        assert lines[i + 1] == lines[1..][i];
      }
    }
  }

  // ------------------------------------------------------------------ the request line

  /** Three words around two spaces, of which the last may hold more. */
  predicate Worded(line: string, m: string, t: string, v: string) {
    line == m + " " + t + " " + v && ' ' !in m && ' ' !in t
  }

  lemma RequestLineExactly(line: string, m: string, t: string, v: string)
    ensures ParseRequestLine(line) == Result.Ok((m, t, v)) <==> Worded(line, m, t, v)
  {
    if ParseRequestLine(line).Ok? { RequestLineParts(line); }
    if Worded(line, m, t, v) { ParsePrintedRequestLine(Head(m, t, v, [], 0)); }
  }

  ghost predicate HasWords(line: string) { exists m, t, v :: Worded(line, m, t, v) }

  lemma NoRequestLineExactly(line: string)
    ensures ParseRequestLine(line) == Err(MalformedRequestLine) <==> !HasWords(line)
    ensures ParseRequestLine(line).Err? ==> !HasWords(line)
  {
    if ParseRequestLine(line).Ok? {
      var (m, t, v) := ParseRequestLine(line).value;
      RequestLineExactly(line, m, t, v);
    }
    if m, t, v :| Worded(line, m, t, v) {
      RequestLineExactly(line, m, t, v);
    }
  }

  // ------------------------------------------------------------------ lines and text

  lemma {:induction false} GlueUndoesSplit(text: string)
    ensures Glue(SplitLines(text)) == text
    decreases |text|
  {
    var r := Find(text, CRLF);
    if r.Some? {
      var i := r.value;
      FindSpec(text, CRLF);
      var rest := text[i + 2..];
      GlueUndoesSplit(rest);
      assert SplitLines(text)[1..] == SplitLines(rest);
      assert text[i..i + 2] == CRLF;
      assert text == text[..i] + text[i..i + 2] + rest;
    }
  }

  /** The text is these lines with CRLF between them. */
  ghost predicate Lined(text: string, lines: seq<string>) {
    lines != [] && text == Glue(lines) && forall k :: 0 <= k < |lines| ==> NoCrlf(lines[k])
  }

  lemma LinedExactly(text: string, lines: seq<string>)
    ensures SplitLines(text) == lines <==> Lined(text, lines)
  {
    GlueUndoesSplit(text);
    SplitLinesLack(text);
    if Lined(text, lines) { SplitUndoesGlue(lines); }
  }

  /** The text in front of the first blank line of a buffer. */
  ghost predicate HeadText(buf: string, text: string) {
    text <= buf && FirstAt(buf, BLANK, |text|)
  }

  lemma HeadTextExactly(buf: string, text: string)
    ensures HeadText(buf, text) <==> Find(buf, BLANK) == Some(|text|) && buf[..|text|] == text
  {
    FindSpec(buf, BLANK);
    if HeadText(buf, text) { FindIs(buf, BLANK, |text|); }
  }

  // ------------------------------------------------------------------ the laws

  /** The buffer holds this head: valid UTF-8 up to the first blank line, a request line of three words, and header
      lines that give the headers. */
  ghost predicate Holds(buf: string, h: Head, text: string, lines: seq<string>) {
    && HeadText(buf, text) && Utf8(text) && Lined(text, lines)
    && Worded(lines[0], h.verb, h.target, h.version)
    && AllDenote(lines[1..], h.headers)
    && h.headLen == |text| + 4
  }

  lemma HoldsIsParsed(buf: string, h: Head, text: string, lines: seq<string>)
    requires Holds(buf, h, text, lines)
    ensures ParseHead(buf) == Complete(h)
  {
    HeadTextExactly(buf, text);
    LinedExactly(text, lines);
    RequestLineExactly(lines[0], h.verb, h.target, h.version);
    HeadersExactly(lines[1..], h.headers);
  }

  lemma ParsedIsHeld(buf: string, h: Head)
    requires ParseHead(buf) == Complete(h)
    ensures var text := buf[..Find(buf, BLANK).value]; Holds(buf, h, text, SplitLines(text))
  {
    var text := buf[..Find(buf, BLANK).value];
    var lines := SplitLines(text);
    HeadTextExactly(buf, text);
    LinedExactly(text, lines);
    LinesGiveHead(lines, |text| + 4);
    RequestLineExactly(lines[0], h.verb, h.target, h.version);
    HeadersExactly(lines[1..], h.headers);
  }

  /** A buffer is accepted, and with which head, exactly as its text says. */
  lemma AcceptedExactly(buf: string, h: Head)
    ensures ParseHead(buf) == Complete(h) <==> exists text, lines :: Holds(buf, h, text, lines)
  {
    if ParseHead(buf) == Complete(h) { ParsedIsHeld(buf, h); }
    if text, lines :| Holds(buf, h, text, lines) { HoldsIsParsed(buf, h, text, lines); }
  }

  /** And it is refused exactly so: more bytes are awaited up to 32768 without a blank line; a head that is there
      is refused for its encoding, else for a request line of fewer than three words, else for a header line
      without a colon. */
  lemma RefusedExactly(buf: string, text: string, lines: seq<string>)
    ensures Lacks(buf, BLANK) ==> ParseHead(buf) == if |buf| > 32768 then Failed(HeadTooLarge) else Incomplete
    ensures HeadText(buf, text) && !Utf8(text) ==> ParseHead(buf) == Failed(InvalidUtf8)
    ensures HeadText(buf, text) && Utf8(text) && Lined(text, lines) ==>
              && (ParseHead(buf) == Failed(MalformedRequestLine) <==> !HasWords(lines[0]))
              && (ParseHead(buf) == Failed(MalformedHeader) <==> HasWords(lines[0]) && LacksColon(lines[1..]))
              && (ParseHead(buf).Complete? <==> HasWords(lines[0]) && !LacksColon(lines[1..]))
  {
    if Lacks(buf, BLANK) { FindNone(buf, BLANK); }
    HeadTextExactly(buf, text);
    if HeadText(buf, text) && Utf8(text) && Lined(text, lines) {
      LinedExactly(text, lines);
      NoRequestLineExactly(lines[0]);
      NoHeadersExactly(lines[1..]);
    }
  }
}
