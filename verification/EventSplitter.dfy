/** The client's event splitting over a stream that arrives in arbitrary chunks (section 9.2 of the
    WHATWG HTML standard). */
module EventSplitter {
  import opened Text

  const BREAK := "\n\n"

  /** Complete events, and the text after the last blank line. */
  datatype Parts = Parts(events: seq<string>, rest: string)

  function Cut(text: string): Parts
    decreases |text|
  {
    match Find(text, BREAK)
    case None => Parts([], text)
    case Some(i) =>
      var tail := Cut(text[i + 2..]);
      Parts([text[..i]] + tail.events, tail.rest)
  }

  function Render(events: seq<string>): string {
    if events == [] then "" else events[0] + BREAK + Render(events[1..])
  }

  /** Rust's `str::lines`: no empty last line, and a `\r` is dropped only before its `\n`. */
  function Lines(s: string): seq<string>
    decreases |s|
  {
    if s == "" then []
    else
      match Find(s, "\n")
      case None => [s]
      case Some(i) =>
        var line := if i > 0 && s[i - 1] == '\r' then s[..i - 1] else s[..i];
        [line] + Lines(s[i + 1..])
  }

  /** Lines, each with its terminator: `\n`, or `\r\n` where `crlf` says so. */
  function Terminated(lines: seq<string>, crlf: seq<bool>): string
    requires |lines| == |crlf|
  {
    if lines == [] then "" else lines[0] + (if crlf[0] then "\r\n" else "\n") + Terminated(lines[1..], crlf[1..])
  }

  lemma FirstLine(line: string, cr: bool, rest: string)
    requires '\n' !in line && (line != "" ==> line[|line| - 1] != '\r')
    ensures Lines(line + (if cr then "\r\n" else "\n") + rest) == [line] + Lines(rest)
  {
    var body := line + if cr then "\r" else "";
    var s := body + "\n" + rest;
    assert s == line + (if cr then "\r\n" else "\n") + rest;
    assert !cr ==> body == line;
    forall j | 0 <= j < |body| ensures s[j] != '\n' { assert s[j] == body[j]; }
    FindChar(s, '\n', |body|);
    assert s[..|body|] == body && s[|body| + 1..] == rest;
    if cr {
      assert s[|body| - 1] == '\r' && s[..|body| - 1] == line;
    } else if line != "" {
      assert s[|body| - 1] == line[|line| - 1];
    }
  }

  /** Lines come back out whichever terminator each of them has. */
  lemma {:induction false} LinesUndoTerminators(lines: seq<string>, crlf: seq<bool>)
    requires |lines| == |crlf|
    requires forall k :: 0 <= k < |lines| ==> '\n' !in lines[k] && (lines[k] != "" ==> lines[k][|lines[k]| - 1] != '\r')
    ensures Lines(Terminated(lines, crlf)) == lines
  {
    if lines != [] {
      FirstLine(lines[0], crlf[0], Terminated(lines[1..], crlf[1..]));
      LinesUndoTerminators(lines[1..], crlf[1..]);
      assert [lines[0]] + lines[1..] == lines;
    }
  }

  /** What a data payload turns out to be once parsed as JSON: nothing to show, a line to print, or the
      end of the loop. */
  datatype Payload = Nothing | Show(line: string) | End(state: string)

  type Reader = string -> Payload

  datatype Output = Output(printed: seq<string>, ended: bool)

  function OnLine(read: Reader, line: string): Payload {
    if "data: " <= line then read(line[6..]) else Nothing
  }

  /** Lines in order, stopping at the first end payload. */
  function OnLines(read: Reader, lines: seq<string>): Output {
    if lines == [] then Output([], false)
    else
      match OnLine(read, lines[0])
      case End(state) => Output([state], true)
      case Show(line) => var o := OnLines(read, lines[1..]); Output([line] + o.printed, o.ended)
      case Nothing => OnLines(read, lines[1..])
  }

  /** What is shown for lines is what is shown for each of them, up to the first end: a line counts only behind
      `data: `. */
  lemma {:induction false} OnLinesConcat(read: Reader, a: seq<string>, b: seq<string>)
    ensures OnLines(read, a + b) == Then(OnLines(read, a), OnLines(read, b))
    ensures |a| == 1 ==>
              OnLines(read, a) ==
              if !("data: " <= a[0]) then Output([], false)
              else
                match read(a[0][6..])
                case Nothing => Output([], false)
                case Show(line) => Output([line], false)
                case End(state) => Output([state], true)
  {
    if a == [] {
      assert a + b == b;
      assert [] + OnLines(read, b).printed == OnLines(read, b).printed;
    } else {
      assert (a + b)[0] == a[0] && (a + b)[1..] == a[1..] + b;
      OnLinesConcat(read, a[1..], b);
      OnLinesCons(read, a);
      OnLinesCons(read, a + b);
      ThenAssoc(OfPayload(OnLine(read, a[0])), OnLines(read, a[1..]), OnLines(read, b));
    }
  }

  function OfPayload(p: Payload): Output {
    match p
    case Nothing => Output([], false)
    case Show(line) => Output([line], false)
    case End(state) => Output([state], true)
  }

  lemma OnLinesCons(read: Reader, lines: seq<string>)
    requires lines != []
    ensures OnLines(read, lines) == Then(OfPayload(OnLine(read, lines[0])), OnLines(read, lines[1..]))
  {
    assert [] + OnLines(read, lines[1..]).printed == OnLines(read, lines[1..]).printed;
  }

  function OnEvents(read: Reader, events: seq<string>): Output {
    if events == [] then Output([], false)
    else
      var first := OnLines(read, Lines(events[0]));
      if first.ended then first
      else
        var more := OnEvents(read, events[1..]);
        Output(first.printed + more.printed, more.ended)
  }

  /** The client while a log is streamed to it. */
  class LogClient {
    const read: Reader
    var buffer: string
    var printed: seq<string>
    var ended: bool

    constructor (read: Reader)
      ensures this.read == read && buffer == "" && printed == [] && !ended
    {
      this.read := read;
      buffer, printed, ended := "", [], false;
    }

    /** The lines of one event; a return from the source's loop shows as `ended`. */
    method PrintEvent(event: string)
      requires !ended
      modifies `printed, `ended
      ensures var out := OnLines(read, Lines(event));
              printed == old(printed) + out.printed && ended == out.ended
    {
      var lines := Lines(event);
      var i := 0;
      assert lines[0..] == lines;
      while i < |lines|
        invariant 0 <= i <= |lines| && !ended
        invariant old(printed) + OnLines(read, lines).printed == printed + OnLines(read, lines[i..]).printed
        invariant OnLines(read, lines).ended == OnLines(read, lines[i..]).ended
      {
        ghost var more := OnLines(read, lines[i + 1..]).printed;
        assert lines[i..][1..] == lines[i + 1..];
        match OnLine(read, lines[i]) {
          case End(state) =>
            printed := printed + [state];
            ended := true;
            return;
          case Show(line) =>
            assert printed + ([line] + more) == printed + [line] + more;
            printed := printed + [line];
          case Nothing =>
        }
        i := i + 1;
      }
      assert printed + [] == printed;
    }

    /** One chunk: append it, then take out complete events until none is left or the loop has ended. */
    method Receive(chunk: string)
      requires !ended
      modifies this
      ensures var parts := Cut(old(buffer) + chunk);
              var out := OnEvents(read, parts.events);
              printed == old(printed) + out.printed && ended == out.ended && (!ended ==> buffer == parts.rest)
    {
      buffer := buffer + chunk;
      ghost var whole := buffer;
      while true
        invariant !ended && Owed(read, old(printed), whole, printed, buffer)
        decreases |buffer|
      {
        var pos := Find(buffer, BREAK);
        if pos.None? {
          NothingOwed(read, old(printed), whole, printed, buffer);
          return;
        }
        OwedStep(read, old(printed), whole, printed, buffer, pos.value);
        PrintEvent(buffer[..pos.value]);
        if ended {
          return;
        }
        buffer := buffer[pos.value + 2..];
      }
    }
  }

  /** Of the output due for `whole`, what is not yet printed is due for `buffer`. */
  ghost predicate Owed(read: Reader, was: seq<string>, whole: string, printed: seq<string>, buffer: string) {
    var (all, left) := (OnEvents(read, Cut(whole).events), OnEvents(read, Cut(buffer).events));
    && was + all.printed == printed + left.printed
    && all.ended == left.ended
    && Cut(whole).rest == Cut(buffer).rest
  }

  lemma NothingOwed(read: Reader, was: seq<string>, whole: string, printed: seq<string>, buffer: string)
    requires Owed(read, was, whole, printed, buffer) && Find(buffer, BREAK).None?
    ensures printed == was + OnEvents(read, Cut(whole).events).printed
    ensures !OnEvents(read, Cut(whole).events).ended && Cut(whole).rest == buffer
  {
    assert printed + [] == printed;
  }

  lemma EventsAfterFirst(read: Reader, buffer: string, i: nat)
    requires Find(buffer, BREAK) == Some(i)
    ensures OnEvents(read, Cut(buffer).events)
            == Then(OnLines(read, Lines(buffer[..i])), OnEvents(read, Cut(buffer[i + 2..]).events))
    ensures Cut(buffer).rest == Cut(buffer[i + 2..]).rest
  {
    CutFirst(buffer, i);
    OnEventsCons(read, buffer[..i], Cut(buffer[i + 2..]).events);
  }

  lemma OwedStep(read: Reader, was: seq<string>, whole: string, printed: seq<string>, buffer: string, i: nat)
    requires Owed(read, was, whole, printed, buffer) && Find(buffer, BREAK) == Some(i)
    ensures var first := OnLines(read, Lines(buffer[..i]));
            var all := OnEvents(read, Cut(whole).events);
            if first.ended then all.ended && printed + first.printed == was + all.printed
            else Owed(read, was, whole, printed + first.printed, buffer[i + 2..])
  {
    EventsAfterFirst(read, buffer, i);
    Shift(printed, OnLines(read, Lines(buffer[..i])).printed, OnEvents(read, Cut(buffer[i + 2..]).events).printed);
  }

  lemma Shift(a: seq<string>, b: seq<string>, c: seq<string>)
    ensures a + (b + c) == a + b + c
  {
  }

  lemma CutFirst(text: string, i: nat)
    requires Find(text, BREAK) == Some(i)
    ensures Cut(text) == Parts([text[..i]] + Cut(text[i + 2..]).events, Cut(text[i + 2..]).rest)
  {
  }

  lemma OnEventsCons(read: Reader, event: string, events: seq<string>)
    ensures var (first, more) := (OnLines(read, Lines(event)), OnEvents(read, events));
            OnEvents(read, [event] + events) == Then(first, more)
  {
    assert ([event] + events)[1..] == events;
  }

  // ------------------------------------------------------------------ chunking

  function Join(p: Parts, q: Parts): Parts { Parts(p.events + q.events, q.rest) }

  lemma JoinCons(event: string, p: Parts, q: Parts)
    ensures Parts([event] + Join(p, q).events, Join(p, q).rest) == Join(Parts([event] + p.events, p.rest), q)
  {
    assert [event] + (p.events + q.events) == [event] + p.events + q.events;
  }

  lemma CutFirstAppend(a: string, b: string, i: nat)
    requires Find(a, BREAK) == Some(i)
    ensures Cut(a + b) == Parts([a[..i]] + Cut(a[i + 2..] + b).events, Cut(a[i + 2..] + b).rest)
  {
    FindStable(a, BREAK, b);
    assert (a + b)[..i] == a[..i] && (a + b)[i + 2..] == a[i + 2..] + b;
    CutFirst(a + b, i);
  }

  lemma {:induction false} CutAppend(a: string, b: string)
    ensures Cut(a + b) == Join(Cut(a), Cut(Cut(a).rest + b))
    decreases |a|
  {
    var r := Find(a, BREAK);
    if r.Some? {
      var i := r.value;
      CutFirst(a, i);
      CutFirstAppend(a, b, i);
      CutAppend(a[i + 2..], b);
      var p := Cut(a[i + 2..]);
      JoinCons(a[..i], p, Cut(p.rest + b));
    } else {
      assert [] + Cut(a + b).events == Cut(a + b).events;
    }
  }

  function Concat(chunks: seq<string>): string {
    if chunks == [] then "" else chunks[0] + Concat(chunks[1..])
  }

  /** Buffer and events after feeding chunks one by one. */
  function Feed(p: Parts, chunks: seq<string>): Parts
    decreases |chunks|
  {
    if chunks == [] then p else Feed(Join(p, Cut(p.rest + chunks[0])), chunks[1..])
  }

  lemma ConcatCons(text: string, chunks: seq<string>)
    requires chunks != []
    ensures text + chunks[0] + Concat(chunks[1..]) == text + Concat(chunks)
  {
  }

  lemma {:induction false} FeedIsCut(text: string, p: Parts, chunks: seq<string>)
    requires p == Cut(text)
    ensures Feed(p, chunks) == Cut(text + Concat(chunks))
    decreases |chunks|
  {
    if chunks == [] {
      assert text + "" == text;
    } else {
      CutAppend(text, chunks[0]);
      FeedIsCut(text + chunks[0], Join(p, Cut(p.rest + chunks[0])), chunks[1..]);
      ConcatCons(text, chunks);
    }
  }

  /** However the text is chunked, the events and the buffer are those of the text in one piece. */
  lemma ChunkingIrrelevant(chunks: seq<string>)
    ensures Feed(Parts([], ""), chunks) == Cut(Concat(chunks))
  {
    assert Cut("") == Parts([], "");
    FeedIsCut("", Parts([], ""), chunks);
    assert "" + Concat(chunks) == Concat(chunks);
  }

  lemma BeforeBreak(text: string, i: nat)
    requires Find(text, BREAK) == Some(i)
    ensures text == text[..i] + BREAK + text[i + 2..] && Find(text[..i], BREAK).None?
  {
    FindSpec(text, BREAK);
    assert text[i..i + 2] == BREAK;
    forall j ensures !At(text[..i], BREAK, j) {
      if 0 <= j && j + 2 <= i {
        assert text[..i][j..j + 2] == text[j..j + 2];
        assert !At(text, BREAK, j);
      }
    }
    FindNone(text[..i], BREAK);
  }

  lemma RenderCons(event: string, events: seq<string>, rest: string)
    ensures Render([event] + events) + rest == event + BREAK + (Render(events) + rest)
  {
    assert ([event] + events)[1..] == events;
  }

  /** No byte is lost: the events, each followed by its blank line, and then the buffer are the text;
      neither an event nor the buffer holds a blank line. */
  lemma {:induction false} CutLosesNothing(text: string)
    ensures var p := Cut(text);
            && Render(p.events) + p.rest == text
            && Find(p.rest, BREAK).None?
            && forall k :: 0 <= k < |p.events| ==> Find(p.events[k], BREAK).None?
    decreases |text|
  {
    var r := Find(text, BREAK);
    if r.Some? {
      var i := r.value;
      CutFirst(text, i);
      CutLosesNothing(text[i + 2..]);
      BeforeBreak(text, i);
      var p := Cut(text[i + 2..]);
      RenderCons(text[..i], p.events, p.rest);
    }
  }

  lemma {:induction false} OnEventsConcat(read: Reader, a: seq<string>, b: seq<string>)
    ensures OnEvents(read, a + b) == Then(OnEvents(read, a), OnEvents(read, b))
  {
    if a == [] {
      assert a + b == b;
      assert [] + OnEvents(read, b).printed == OnEvents(read, b).printed;
    } else {
      assert (a + b)[1..] == a[1..] + b;
      OnEventsConcat(read, a[1..], b);
      var first := OnLines(read, Lines(a[0])).printed;
      var (x, y) := (OnEvents(read, a[1..]), OnEvents(read, b));
      assert first + (x.printed + y.printed) == first + x.printed + y.printed;
    }
  }

  /** What the client has printed after some chunks, stopping at the end event. */
  function Display(read: Reader, buffer: string, chunks: seq<string>): Output
    decreases |chunks|
  {
    if chunks == [] then Output([], false)
    else
      var parts := Cut(buffer + chunks[0]);
      var out := OnEvents(read, parts.events);
      if out.ended then out
      else
        var more := Display(read, parts.rest, chunks[1..]);
        Output(out.printed + more.printed, more.ended)
  }

  function Then(x: Output, y: Output): Output {
    if x.ended then x else Output(x.printed + y.printed, y.ended)
  }

  lemma ThenAssoc(x: Output, y: Output, z: Output)
    ensures Then(x, Then(y, z)) == Then(Then(x, y), z)
  {
    assert x.printed + (y.printed + z.printed) == x.printed + y.printed + z.printed;
  }

  lemma DisplayCons(read: Reader, buffer: string, chunks: seq<string>)
    requires chunks != []
    ensures var parts := Cut(buffer + chunks[0]);
            Display(read, buffer, chunks) == Then(OnEvents(read, parts.events), Display(read, parts.rest, chunks[1..]))
  {
  }

  lemma EventsOfAppend(read: Reader, a: string, b: string)
    ensures OnEvents(read, Cut(a + b).events)
            == Then(OnEvents(read, Cut(a).events), OnEvents(read, Cut(Cut(a).rest + b).events))
    ensures Cut(a + b).rest == Cut(Cut(a).rest + b).rest
  {
    CutAppend(a, b);
    OnEventsConcat(read, Cut(a).events, Cut(Cut(a).rest + b).events);
  }

  lemma {:induction false} DisplayFrom(read: Reader, text: string, chunks: seq<string>)
    ensures Then(OnEvents(read, Cut(text).events), Display(read, Cut(text).rest, chunks))
            == OnEvents(read, Cut(text + Concat(chunks)).events)
    decreases |chunks|
  {
    var before := OnEvents(read, Cut(text).events);
    if chunks == [] {
      assert text + "" == text;
      assert before.printed + [] == before.printed;
    } else {
      var c := chunks[0];
      EventsOfAppend(read, text, c);
      DisplayCons(read, Cut(text).rest, chunks);
      DisplayFrom(read, text + c, chunks[1..]);
      ConcatCons(text, chunks);
      ThenAssoc(before, OnEvents(read, Cut(Cut(text).rest + c).events), Display(read, Cut(text + c).rest, chunks[1..]));
    }
  }

  /** What is printed, and whether the end was seen, depends on the text alone, end event or not. */
  lemma DisplayIgnoresChunking(read: Reader, chunks: seq<string>)
    ensures Display(read, "", chunks) == OnEvents(read, Cut(Concat(chunks)).events)
  {
    assert Cut("") == Parts([], "");
    DisplayFrom(read, "", chunks);
    assert "" + Concat(chunks) == Concat(chunks);
    assert [] + Display(read, "", chunks).printed == Display(read, "", chunks).printed;
  }
}
