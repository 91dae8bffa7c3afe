/** Server and client together: rows of the log table to lines on the terminal. */
module LogDelivery {
  import opened Text
  import opened LogStream
  import opened EventSplitter

  /** What the server puts on the wire: a payload, or a keep-alive comment at any moment. */
  datatype Frame = Payload(json: string) | KeepAlive(comment: string)

  function FrameLine(f: Frame): string {
    match f case Payload(j) => "data: " + j case KeepAlive(c) => ": " + c
  }

  /** Serialized JSON holds no raw newline, and neither does the keep-alive text. */
  predicate OneLine(f: Frame) { '\n' !in FrameLine(f) }

  function FrameLines(frames: seq<Frame>): seq<string> {
    if frames == [] then [] else [FrameLine(frames[0])] + FrameLines(frames[1..])
  }

  function Wire(frames: seq<Frame>): string { Render(FrameLines(frames)) }

  function Payloads(frames: seq<Frame>): seq<string> {
    if frames == [] then []
    else (if frames[0].Payload? then [frames[0].json] else []) + Payloads(frames[1..])
  }

  lemma NoNewlineNoBreak(line: string, rest: string)
    requires '\n' !in line
    ensures Find(line + BREAK + rest, BREAK) == Some(|line|)
  {
    var t := line + BREAK + rest;
    forall j | 0 <= j < |line| ensures !At(t, BREAK, j) {
      assert t[j] == line[j];
      if j + 2 <= |t| { assert t[j..j + 2][0] == line[j]; }
    }
    assert t[|line|..|line| + 2] == BREAK;
    FindIs(t, BREAK, |line|);
  }

  lemma CutOneFrame(line: string, rest: string)
    requires '\n' !in line
    ensures Cut(line + BREAK + rest) == Parts([line] + Cut(rest).events, Cut(rest).rest)
  {
    var t := line + BREAK + rest;
    NoNewlineNoBreak(line, rest);
    CutFirst(t, |line|);
    assert t[..|line|] == line && t[|line| + 2..] == rest;
  }

  /** The client cuts the wire back into the frames. */
  lemma {:induction false} CutUndoesRender(lines: seq<string>)
    requires forall k :: 0 <= k < |lines| ==> '\n' !in lines[k]
    ensures Cut(Render(lines)) == Parts(lines, "")
  {
    if lines != [] {
      CutUndoesRender(lines[1..]);
      CutOneFrame(lines[0], Render(lines[1..]));
      assert [lines[0]] + lines[1..] == lines;
    }
  }

  lemma SingleLine(line: string)
    requires '\n' !in line && line != ""
    ensures Lines(line) == [line]
  {
    forall j ensures !At(line, "\n", j) {
      if 0 <= j < |line| { assert line[j..j + 1] == [line[j]]; }
    }
    FindNone(line, "\n");
  }

  lemma {:induction false} FrameLinesOk(frames: seq<Frame>)
    requires forall k :: 0 <= k < |frames| ==> OneLine(frames[k])
    ensures forall k :: 0 <= k < |FrameLines(frames)| ==> '\n' !in FrameLines(frames)[k]
  {
    if frames != [] { FrameLinesOk(frames[1..]); }
  }

  /** The payloads read one after the other, up to the first end. */
  function ReadAll(read: Reader, payloads: seq<string>): Output {
    if payloads == [] then Output([], false)
    else
      match read(payloads[0])
      case End(state) => Output([state], true)
      case Show(line) => Then(Output([line], false), ReadAll(read, payloads[1..]))
      case Nothing => ReadAll(read, payloads[1..])
  }

  lemma FrameShown(read: Reader, f: Frame)
    requires OneLine(f)
    ensures OnLines(read, Lines(FrameLine(f))) ==
            match f
            case KeepAlive(_) => Output([], false)
            case Payload(j) => ReadAll(read, [j])
  {
    var line := FrameLine(f);
    SingleLine(line);
    assert line[0] == if f.Payload? then 'd' else ':';
    if f.Payload? { assert line[6..] == f.json && [f.json][1..] == []; }
  }

  lemma ReadAllCons(read: Reader, json: string, more: seq<string>)
    ensures ReadAll(read, [json] + more) == Then(ReadAll(read, [json]), ReadAll(read, more))
  {
    assert ([json] + more)[1..] == more && [json][1..] == [];
    var rest := ReadAll(read, more).printed;
    assert [] + rest == rest;
  }

  lemma {:induction false} FramesShown(read: Reader, frames: seq<Frame>)
    requires forall k :: 0 <= k < |frames| ==> OneLine(frames[k])
    ensures OnEvents(read, FrameLines(frames)) == ReadAll(read, Payloads(frames))
  {
    if frames != [] {
      var more := ReadAll(read, Payloads(frames[1..]));
      FramesShown(read, frames[1..]);
      FrameShown(read, frames[0]);
      OnEventsCons(read, FrameLine(frames[0]), FrameLines(frames[1..]));
      if frames[0].Payload? {
        ReadAllCons(read, frames[0].json, Payloads(frames[1..]));
      } else {
        assert Payloads(frames) == [] + Payloads(frames[1..]) == Payloads(frames[1..]);
        assert [] + more.printed == more.printed;
      }
    }
  }

  /** For every sequence of frames and every chunking of their wire form, keep-alives in between and an
      end event or none, the client shows exactly the server's payloads in order. */
  lemma ClientShowsPayloads(read: Reader, frames: seq<Frame>, chunks: seq<string>)
    requires forall k :: 0 <= k < |frames| ==> OneLine(frames[k])
    requires Concat(chunks) == Wire(frames)
    ensures Display(read, "", chunks) == ReadAll(read, Payloads(frames))
  {
    DisplayIgnoresChunking(read, chunks);
    FrameLinesOk(frames);
    CutUndoesRender(FrameLines(frames));
    FramesShown(read, frames);
  }

  function Each<T>(f: T -> string, rows: seq<T>): (r: seq<string>)
    ensures |r| == |rows| && forall i :: 0 <= i < |rows| ==> r[i] == f(rows[i])
  {
    seq(|rows|, i requires 0 <= i < |rows| => f(rows[i]))
  }

  lemma {:induction false} ReadBackThen(read: Reader, encode: Row -> string, show: Row -> string, rows: seq<Row>,
                                        tail: seq<string>)
    requires forall r :: read(encode(r)) == Show(show(r))
    ensures ReadAll(read, Each(encode, rows) + tail) == Then(Output(Each(show, rows), false), ReadAll(read, tail))
  {
    if rows == [] {
      assert Each(encode, rows) + tail == tail;
      assert [] + ReadAll(read, tail).printed == ReadAll(read, tail).printed;
    } else {
      var (first, more) := (encode(rows[0]), Each(encode, rows[1..]) + tail);
      assert Each(encode, rows) + tail == [first] + more;
      ReadBackThen(read, encode, show, rows[1..], tail);
      ReadAllCons(read, first, more);
      ShownFirst(read, encode, show, rows[0]);
      assert Each(show, rows) == [show(rows[0])] + Each(show, rows[1..]);
      ThenAssoc(Output([show(rows[0])], false), Output(Each(show, rows[1..]), false), ReadAll(read, tail));
    }
  }

  lemma ShownFirst(read: Reader, encode: Row -> string, show: Row -> string, row: Row)
    requires read(encode(row)) == Show(show(row))
    ensures ReadAll(read, [encode(row)]) == Output([show(row)], false)
  {
    assert [encode(row)][1..] == [];
    assert ReadAll(read, []) == Output([], false);
  }

  lemma {:induction false} ReadBack(read: Reader, encode: Row -> string, show: Row -> string, rows: seq<Row>)
    requires forall r :: read(encode(r)) == Show(show(r))
    ensures ReadAll(read, Each(encode, rows)) == Output(Each(show, rows), false)
  {
    if rows != [] {
      ReadBack(read, encode, show, rows[1..]);
      assert Each(encode, rows)[1..] == Each(encode, rows[1..]);
      assert Each(show, rows) == [show(rows[0])] + Each(show, rows[1..]);
    }
  }

  /** End to end: while no row arrives behind the cursor, after any polls, any keep-alives and any
      chunking the terminal shows each matching row of the last table exactly once, in timestamp order. */
  lemma LogShownOnce(filter: Filter, ticks: seq<Tick>, read: Reader, encode: Row -> string, show: Row -> string,
                     frames: seq<Frame>, chunks: seq<string>)
    returns (rows: seq<Row>)
    requires Ticking(OPENED, {}, ticks) && LateRows({}, Tables(ticks)) == {}
    requires forall r :: read(encode(r)) == Show(show(r))
    requires forall k :: 0 <= k < |frames| ==> OneLine(frames[k])
    requires Payloads(frames) == Each(encode, Matching(filter, After(OPENED, ticks).taken))
    requires Concat(chunks) == Wire(frames)
    ensures Display(read, "", chunks) == Output(Each(show, rows), false)
    ensures Ordered(rows) && forall r :: r in rows <==> r in LastTable({}, ticks) && Matches(filter, r)
  {
    rows := Matching(filter, After(OPENED, ticks).taken);
    ClientShowsPayloads(read, frames, chunks);
    ReadBack(read, encode, show, rows);
    EmittedExactly(filter, ticks);
  }

  /** A stream closed by the end event: the client shows the rows sent, then the end, and stops, whatever
      may still follow on the wire. */
  lemma LogEndsOnce(read: Reader, encode: Row -> string, show: Row -> string, rows: seq<Row>, end: string,
                    state: string, more: seq<string>, frames: seq<Frame>, chunks: seq<string>)
    requires forall r :: read(encode(r)) == Show(show(r))
    requires read(end) == End(state)
    requires forall k :: 0 <= k < |frames| ==> OneLine(frames[k])
    requires Payloads(frames) == Each(encode, rows) + ([end] + more)
    requires Concat(chunks) == Wire(frames)
    ensures Display(read, "", chunks) == Output(Each(show, rows) + [state], true)
  {
    ClientShowsPayloads(read, frames, chunks);
    ReadBackThen(read, encode, show, rows, [end] + more);
    assert ([end] + more)[0] == end;
    assert ReadAll(read, [end] + more) == Output([state], true);
  }
}
