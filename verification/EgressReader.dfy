/** The loop that reads a request head from a client: which outcomes depend on how the network cuts
    the stream, and which do not. */
module EgressReader {
  import opened Text
  import opened EgressHead

  const READ_SIZE := 4096

  /** A connection after the read loop.  An accepted head comes with the whole buffer and the reads
      still to come. */
  datatype Outcome =
    | Accepted(head: Head, buf: string, rest: seq<string>)
    | Rejected(error: ParseError)
    | Disconnected

  /** What the client can notice of an outcome. */
  datatype Verdict = Admitted(head: Head) | Refused(error: ParseError) | Gone

  function Judge(o: Outcome): Verdict {
    match o
    case Accepted(h, _, _) => Admitted(h)
    case Rejected(e) => Refused(e)
    case Disconnected => Gone
  }

  function Concat(chunks: seq<string>): string {
    if chunks == [] then "" else chunks[0] + Concat(chunks[1..])
  }

  /** What successive reads can return before the client closes: never nothing, never more than the
      read buffer holds. */
  predicate Reads(chunks: seq<string>) {
    forall i :: 0 <= i < |chunks| ==> 0 < |chunks[i]| <= READ_SIZE
  }

  predicate Cuts(chunks: seq<string>, stream: string) { Reads(chunks) && Concat(chunks) == stream }

  function ReadFrom(buf: string, chunks: seq<string>): Outcome
    decreases |chunks|
  {
    match ParseHead(buf)
    case Complete(h) => Accepted(h, buf, chunks)
    case Failed(e) => Rejected(e)
    case Incomplete =>
      if chunks == [] then Disconnected else ReadFrom(buf + chunks[0], chunks[1..])
  }

  /** The read loop.  `longest` is the largest buffer it ever held. */
  method ReadHead(chunks: seq<string>) returns (r: Outcome, longest: nat)
    requires Reads(chunks)
    ensures r == ReadFrom("", chunks)
    ensures longest <= 36_864
    ensures r.Accepted? ==> |r.buf| <= longest
  {
    var buf := "";
    var i := 0;
    longest := 0;
    assert chunks[0..] == chunks;
    while true
      invariant 0 <= i <= |chunks|
      invariant ReadFrom("", chunks) == ReadFrom(buf, chunks[i..])
      invariant |buf| <= longest <= MAX_REQ_HEAD_BYTES + READ_SIZE
      decreases |chunks| - i
    {
      var parsed := ParseRequestHead(buf);
      match parsed {
        case Complete(h) => return Accepted(h, buf, chunks[i..]), longest;
        case Failed(e) => return Rejected(e), longest;
        case Incomplete =>
      }
      if i == |chunks| {
        return Disconnected, longest;
      }
      assert |buf| <= MAX_REQ_HEAD_BYTES by { ParseGrowth(buf, ""); }
      assert chunks[i..][1..] == chunks[i + 1..];
      buf := buf + chunks[i];
      i := i + 1;
      if |buf| > longest { longest := |buf|; }
    }
  }

  // ------------------------------------------------------------------ parsing a growing buffer

  /** Once the blank line is in, later bytes change nothing; until then only the size matters. */
  lemma ParseGrowth(buf: string, more: string)
    ensures Find(buf, BLANK).Some? ==>
              Find(buf + more, BLANK) == Find(buf, BLANK) && ParseHead(buf + more) == ParseHead(buf)
    ensures Find(buf, BLANK).None? ==>
              ParseHead(buf) == if |buf| > MAX_REQ_HEAD_BYTES then Failed(HeadTooLarge) else Incomplete
    ensures ParseHead(buf).Incomplete? ==> |buf| <= MAX_REQ_HEAD_BYTES && Find(buf, BLANK).None?
  {
    if Find(buf, BLANK).Some? {
      FindStable(buf, BLANK, more);
      var e := Find(buf, BLANK).value;
      assert (buf + more)[..e] == buf[..e];
    }
  }

  /** A blank line that ends within the buffer has been found. */
  lemma BlankInside(buf: string, more: string)
    requires Find(buf + more, BLANK).Some? && Find(buf + more, BLANK).value + 4 <= |buf|
    ensures Find(buf, BLANK) == Find(buf + more, BLANK)
  {
    var e := Find(buf + more, BLANK).value;
    FindSpec(buf + more, BLANK);
    forall j | 0 <= j <= e ensures At(buf, BLANK, j) <==> At(buf + more, BLANK, j) {
      AtLeft(buf, more, BLANK, j);
    }
    FindIs(buf, BLANK, e);
  }

  /** Position just after the first blank line, if any. */
  function HeadEnd(stream: string): Option<nat> {
    match Find(stream, BLANK) case None => None case Some(e) => Some(e + 4)
  }

  /** The verdict on a stream, said without reference to reads. */
  function VerdictOf(stream: string): Verdict {
    match HeadEnd(stream)
    case None => if |stream| > MAX_REQ_HEAD_BYTES then Refused(HeadTooLarge) else Gone
    case Some(n) =>
      if n > MAX_REQ_HEAD_BYTES + 1 then Refused(HeadTooLarge)
      else
        match ParseHead(stream)
        case Complete(h) => Admitted(h)
        case Failed(e) => Refused(e)
        case Incomplete => Gone
  }

  /** The streams whose verdict the network cannot influence: the blank line completes by byte 32769,
      or after byte 36864, or never. */
  predicate Settled(stream: string) {
    match HeadEnd(stream)
    case None => true
    case Some(n) => n <= MAX_REQ_HEAD_BYTES + 1 || n > MAX_REQ_HEAD_BYTES + READ_SIZE
  }

  lemma {:induction false} SettledVerdict(buf: string, chunks: seq<string>)
    requires Reads(chunks) && |buf| <= MAX_REQ_HEAD_BYTES + READ_SIZE
    requires Settled(buf + Concat(chunks))
    ensures Judge(ReadFrom(buf, chunks)) == VerdictOf(buf + Concat(chunks))
    decreases |chunks|
  {
    var stream := buf + Concat(chunks);
    ParseGrowth(buf, Concat(chunks));
    if HeadEnd(stream).Some? && HeadEnd(stream).value <= |buf| {
      BlankInside(buf, Concat(chunks));
    } else if chunks == [] {
      assert stream == buf;
    } else if |buf| <= MAX_REQ_HEAD_BYTES {
      assert buf + chunks[0] + Concat(chunks[1..]) == stream;
      SettledVerdict(buf + chunks[0], chunks[1..]);
    }
  }

  /** Every cutting of a settled stream gives the same verdict, the one read off the stream itself. */
  lemma ChunkingIrrelevant(stream: string, chunks: seq<string>)
    requires Settled(stream) && Cuts(chunks, stream)
    ensures Judge(ReadFrom("", chunks)) == VerdictOf(stream)
  {
    assert "" + Concat(chunks) == stream;
    SettledVerdict("", chunks);
  }

  // ------------------------------------------------------------------ the unsettled streams

  function Bytewise(s: string): (chunks: seq<string>)
    ensures Reads(chunks)
  {
    if s == "" then [] else [[s[0]]] + Bytewise(s[1..])
  }

  lemma {:induction false} BytewiseCuts(s: string)
    ensures Concat(Bytewise(s)) == s
  {
    if s != "" {
      BytewiseCuts(s[1..]);
      assert [s[0]] + s[1..] == s;
    }
  }

  lemma {:induction false} ConcatAppend(a: seq<string>, b: seq<string>)
    ensures Concat(a + b) == Concat(a) + Concat(b)
  {
    if a == [] {
      assert a + b == b;
    } else {
      ConcatAppend(a[1..], b);
      assert (a + b)[0] == a[0] && (a + b)[1..] == a[1..] + b;
      Assoc(a[0], Concat(a[1..]), Concat(b));
    }
  }

  /** Byte by byte the size test fires before a blank line that ends past byte 32769. */
  lemma {:induction false} BytewiseRefused(buf: string, rest: string)
    requires HeadEnd(buf + rest).Some? && HeadEnd(buf + rest).value > MAX_REQ_HEAD_BYTES + 1
    requires |buf| <= MAX_REQ_HEAD_BYTES + 1
    ensures ReadFrom(buf, Bytewise(rest)) == Rejected(HeadTooLarge)
    decreases |rest|
  {
    ParseGrowth(buf, rest);
    assert |buf| + |rest| == |buf + rest| > |buf|;
    if |buf| <= MAX_REQ_HEAD_BYTES {
      assert buf + [rest[0]] + rest[1..] == buf + rest;
      BytewiseRefused(buf + [rest[0]], rest[1..]);
      assert Bytewise(rest)[1..] == Bytewise(rest[1..]);
    }
  }

  lemma ReadOne(buf: string, c: string, tail: seq<string>)
    requires ParseHead(buf).Incomplete?
    ensures ReadFrom(buf, [c] + tail) == ReadFrom(buf + c, tail)
  {
    assert ([c] + tail)[1..] == tail;
  }

  lemma PrefixIncomplete(buf: string, more: string)
    requires |buf + more| <= MAX_REQ_HEAD_BYTES && Find(buf + more, BLANK).None?
    ensures ParseHead(buf).Incomplete?
  {
    ParseGrowth(buf, more);
  }

  /** Reading a prefix without blank line and within the size changes nothing but the buffer. */
  lemma {:induction false} ReadPrefix(buf: string, mid: string, tail: seq<string>)
    requires |buf + mid| <= MAX_REQ_HEAD_BYTES && Find(buf + mid, BLANK).None?
    ensures ReadFrom(buf, Bytewise(mid) + tail) == ReadFrom(buf + mid, tail)
    decreases |mid|
  {
    if mid == "" {
      assert Bytewise(mid) + tail == tail && buf + mid == buf;
    } else {
      PrefixIncomplete(buf, mid);
      assert buf + [mid[0]] + mid[1..] == buf + mid;
      ReadOne(buf, [mid[0]], Bytewise(mid[1..]) + tail);
      ReadPrefix(buf + [mid[0]], mid[1..], tail);
      assert Bytewise(mid) + tail == [[mid[0]]] + (Bytewise(mid[1..]) + tail);
    }
  }

  lemma TooLargeIsASizeTest(stream: string)
    requires Find(stream, BLANK).Some?
    ensures ParseHead(stream) != Failed(HeadTooLarge) && !ParseHead(stream).Incomplete?
  {
    HeaderErrors(SplitLines(stream[..Find(stream, BLANK).value])[1..]);
  }

  lemma {:induction false} HeaderErrors(lines: seq<string>)
    ensures ParseHeaders(lines).Err? ==> ParseHeaders(lines).error == MalformedHeader
  {
    if lines != [] { HeaderErrors(lines[1..]); }
  }

  lemma AcceptOnFind(buf: string, tail: seq<string>, stream: string)
    requires buf + Concat(tail) == stream && Find(stream, BLANK).Some? && HeadEnd(stream).value <= |buf|
    ensures match ParseHead(stream)
            case Complete(h) => Judge(ReadFrom(buf, tail)) == Admitted(h)
            case Failed(e) => Judge(ReadFrom(buf, tail)) == Refused(e)
            case Incomplete => false
  {
    BlankInside(buf, Concat(tail));
    ParseGrowth(buf, Concat(tail));
  }

  /** A full read that arrives when the buffer holds exactly 32768 bytes gets the same blank line in. */
  function OneBigRead(stream: string): seq<string>
    requires |stream| > MAX_REQ_HEAD_BYTES
  {
    var n := MAX_REQ_HEAD_BYTES;
    var m := if |stream| < n + READ_SIZE then |stream| else n + READ_SIZE;
    Bytewise(stream[..n]) + ([stream[n..m]] + Bytewise(stream[m..]))
  }

  lemma OneBigReadCuts(stream: string)
    requires |stream| > MAX_REQ_HEAD_BYTES
    ensures Cuts(OneBigRead(stream), stream)
  {
    var n := MAX_REQ_HEAD_BYTES;
    var m := if |stream| < n + READ_SIZE then |stream| else n + READ_SIZE;
    var (pre, big, tail) := (stream[..n], stream[n..m], Bytewise(stream[m..]));
    BytewiseCuts(pre);
    BytewiseCuts(stream[m..]);
    ConcatAppend(Bytewise(pre), [big] + tail);
    assert ([big] + tail)[1..] == tail;
    assert pre + (big + stream[m..]) == stream;
  }

  lemma FullThenOne(pre: string, big: string, tail: seq<string>)
    requires |pre| <= MAX_REQ_HEAD_BYTES && Find(pre, BLANK).None?
    ensures ReadFrom("", Bytewise(pre) + ([big] + tail)) == ReadFrom(pre + big, tail)
  {
    assert "" + pre == pre;
    ReadPrefix("", pre, [big] + tail);
    assert pre + "" == pre;
    PrefixIncomplete(pre, "");
    ReadOne(pre, big, tail);
  }

  /** What is judged once the blank line is in the buffer. */
  lemma FoundIsNotTooLarge(buf: string, tail: seq<string>, stream: string)
    requires buf + Concat(tail) == stream && Find(stream, BLANK).Some? && HeadEnd(stream).value <= |buf|
    ensures Judge(ReadFrom(buf, tail)) != Refused(HeadTooLarge)
  {
    AcceptOnFind(buf, tail, stream);
    TooLargeIsASizeTest(stream);
  }

  /** Said of the three parts of the stream. */
  lemma BigReadInTime(pre: string, big: string, post: string)
    requires |pre| == MAX_REQ_HEAD_BYTES && Find(pre, BLANK).None?
    requires HeadEnd(pre + big + post).Some? && HeadEnd(pre + big + post).value <= |pre| + |big|
    ensures Judge(ReadFrom("", Bytewise(pre) + ([big] + Bytewise(post)))) != Refused(HeadTooLarge)
  {
    BytewiseCuts(post);
    FullThenOne(pre, big, Bytewise(post));
    FoundIsNotTooLarge(pre + big, Bytewise(post), pre + big + post);
  }

  lemma NoBlankSoEarly(pre: string, more: string)
    requires |pre| == MAX_REQ_HEAD_BYTES && HeadEnd(pre + more).Some? && HeadEnd(pre + more).value > |pre| + 1
    ensures Find(pre, BLANK).None?
  {
    ParseGrowth(pre, more);
  }

  lemma OneBigReadParses(stream: string)
    requires !Settled(stream)
    ensures |stream| > MAX_REQ_HEAD_BYTES && Cuts(OneBigRead(stream), stream)
    ensures Judge(ReadFrom("", OneBigRead(stream))) != Refused(HeadTooLarge)
  {
    OneBigReadCuts(stream);
    var n := MAX_REQ_HEAD_BYTES;
    var m := if |stream| < n + READ_SIZE then |stream| else n + READ_SIZE;
    assert stream == stream[..n] + stream[n..] == stream[..n] + stream[n..m] + stream[m..];
    NoBlankSoEarly(stream[..n], stream[n..]);
    BigReadInTime(stream[..n], stream[n..m], stream[m..]);
  }

  /** The verdict is the same for all cuttings exactly when the first blank line completes outside bytes 32770 to
      36864. */
  lemma ChunkingIrrelevantExactly(stream: string)
    ensures (HeadEnd(stream).Some? ==> !(32_770 <= HeadEnd(stream).value <= 36_864)) <==>
            forall a, b :: Cuts(a, stream) && Cuts(b, stream) ==> Judge(ReadFrom("", a)) == Judge(ReadFrom("", b))
  {
    if Settled(stream) {
      forall a, b | Cuts(a, stream) && Cuts(b, stream)
        ensures Judge(ReadFrom("", a)) == Judge(ReadFrom("", b))
      {
        ChunkingIrrelevant(stream, a);
        ChunkingIrrelevant(stream, b);
      }
    } else {
      OneBigReadParses(stream);
      var a := OneBigRead(stream);
      var b := Bytewise(stream);
      BytewiseCuts(stream);
      assert "" + stream == stream;
      BytewiseRefused("", stream);
      assert Cuts(b, stream);
    }
  }

  // ------------------------------------------------------------------ nothing is lost while reading

  lemma {:induction false} AcceptedKeepsBytes(buf: string, chunks: seq<string>)
    requires ReadFrom(buf, chunks).Accepted?
    ensures var o := ReadFrom(buf, chunks);
            && o.buf + Concat(o.rest) == buf + Concat(chunks)
            && ParseHead(buf + Concat(chunks)) == Complete(o.head)
            && o.head.headLen <= |o.buf|
    decreases |chunks|
  {
    ParseGrowth(buf, Concat(chunks));
    if ParseHead(buf).Complete? {
      ParsedIsWellFormed(buf);
    } else {
      assert buf + chunks[0] + Concat(chunks[1..]) == buf + Concat(chunks);
      AcceptedKeepsBytes(buf + chunks[0], chunks[1..]);
    }
  }

  /** Some whole number of reads brings exactly `n` bytes. */
  predicate BreaksAt(chunks: seq<string>, n: int) { exists k :: 0 <= k <= |chunks| && |Concat(chunks[..k])| == n }

  lemma BreaksAtZero(chunks: seq<string>)
    ensures BreaksAt(chunks, 0)
  {
    assert |Concat(chunks[..0])| == 0;
  }

  lemma BreaksAtNext(chunks: seq<string>, n: int)
    requires chunks != [] && n > 0
    ensures BreaksAt(chunks, n) <==> BreaksAt(chunks[1..], n - |chunks[0]|)
  {
    forall k | 1 <= k <= |chunks| ensures |Concat(chunks[..k])| == |chunks[0]| + |Concat(chunks[1..][..k - 1])| {
      assert chunks[..k][1..] == chunks[1..][..k - 1];
    }
    if k :| 0 <= k <= |chunks| && |Concat(chunks[..k])| == n {
      assert |Concat(chunks[1..][..k - 1])| == n - |chunks[0]|;
    }
    if k :| 0 <= k <= |chunks[1..]| && |Concat(chunks[1..][..k])| == n - |chunks[0]| {
      assert |Concat(chunks[..k + 1])| == |chunks[0]| + |Concat(chunks[1..][..k + 1 - 1])|;
    }
  }

  /** An accepted head is complete at the end of the first blank line, which an incomplete buffer has not reached. */
  lemma AcceptedAtHeadEnd(buf: string, chunks: seq<string>)
    requires ReadFrom(buf, chunks).Accepted?
    ensures HeadEnd(buf + Concat(chunks)) == Some(ReadFrom(buf, chunks).head.headLen)
    ensures ParseHead(buf).Incomplete? ==> |buf| < ReadFrom(buf, chunks).head.headLen
  {
    AcceptedKeepsBytes(buf, chunks);
    ParseGrowth(buf, Concat(chunks));
    var n := HeadEnd(buf + Concat(chunks)).value;
    if ParseHead(buf).Incomplete? && n <= |buf| { BlankInside(buf, Concat(chunks)); }
  }

  /** The buffer of an accepted head holds nothing behind it exactly when a read ended where the head does. */
  lemma {:induction false} BufferIsHeadExactly(buf: string, chunks: seq<string>)
    requires ReadFrom(buf, chunks).Accepted?
    ensures var o := ReadFrom(buf, chunks);
            |o.buf| == o.head.headLen <==> BreaksAt(chunks, o.head.headLen - |buf|)
    decreases |chunks|
  {
    var n := ReadFrom(buf, chunks).head.headLen;
    AcceptedAtHeadEnd(buf, chunks);
    if ParseHead(buf).Complete? {
      AcceptedKeepsBytes(buf, chunks);
      BreaksAtZero(chunks);
    } else {
      var more := buf + chunks[0];
      assert ReadFrom(buf, chunks) == ReadFrom(more, chunks[1..]);
      BufferIsHeadExactly(more, chunks[1..]);
      BreaksAtNext(chunks, n - |buf|);
      assert n - |more| == n - |buf| - |chunks[0]|;
    }
  }
}
