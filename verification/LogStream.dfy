/** The server's log stream: polls with a moving cursor and a pruned set of seen ids, against
    "deliver every row once". */
module LogStream {
  import opened Text

  datatype Row = Row(id: nat, timestamp: int, round: int, stage: string, line: string)

  const UNIX_EPOCH := 0

  /** The loop's variables.  `taken` is history: every row not skipped as a duplicate, before filters. */
  datatype Stream = Stream(cursor: int, seen: set<nat>, taken: seq<Row>)

  const OPENED := Stream(UNIX_EPOCH, {}, [])

  datatype Filter = Filter(round: Option<int>, stage: Option<string>)

  predicate Matches(f: Filter, r: Row) {
    (f.round.Some? ==> r.round == f.round.value) && (f.stage.Some? ==> r.stage == f.stage.value)
  }

  function Matching(f: Filter, rows: seq<Row>): seq<Row> {
    if rows == [] then []
    else Matching(f, rows[..|rows| - 1]) + (if Matches(f, rows[|rows| - 1]) then [rows[|rows| - 1]] else [])
  }

  function OnRow(s: Stream, r: Row): Stream {
    if r.id in s.seen then s
    else if r.timestamp > s.cursor then Stream(r.timestamp, {r.id}, s.taken + [r])
    else Stream(s.cursor, s.seen + {r.id}, s.taken + [r])
  }

  function OnRows(s: Stream, rows: seq<Row>): Stream {
    if rows == [] then s else OnRow(OnRows(s, rows[..|rows| - 1]), rows[|rows| - 1])
  }

  lemma MatchingSnoc(f: Filter, rows: seq<Row>, r: Row)
    ensures Matching(f, rows + [r]) == Matching(f, rows) + (if Matches(f, r) then [r] else [])
  {
    assert (rows + [r])[..|rows|] == rows;
  }

  lemma OnRowsSnoc(s: Stream, logs: seq<Row>, i: nat)
    requires i < |logs|
    ensures OnRows(s, logs[..i + 1]) == OnRow(OnRows(s, logs[..i]), logs[i])
  {
    assert logs[..i + 1][..i] == logs[..i];
  }

  /** The loop body in the source's own form. */
  class LogStreamer {
    const filter: Filter
    var cursor: int
    var seen: set<nat>
    var emitted: seq<Row>
    ghost var taken: seq<Row>

    constructor (filter: Filter)
      ensures this.filter == filter && View() == OPENED && emitted == []
    {
      this.filter := filter;
      cursor, seen, emitted, taken := UNIX_EPOCH, {}, [], [];
    }

    ghost function View(): Stream
      reads this
    {
      Stream(cursor, seen, taken)
    }

    /** One row of a query result: skip a duplicate, advance the cursor, then filter. */
    method Take(log: Row)
      requires emitted == Matching(filter, taken)
      modifies this
      ensures View() == OnRow(old(View()), log)
      ensures emitted == Matching(filter, taken)
    {
      if log.id !in seen {
        seen := seen + {log.id};
        MatchingSnoc(filter, taken, log);
        taken := taken + [log];
        if log.timestamp > cursor {
          cursor := log.timestamp;
          seen := {};
          seen := seen + {log.id};
        }
        if (filter.round.Some? ==> log.round == filter.round.value)
           && (filter.stage.Some? ==> log.stage == filter.stage.value) {
          emitted := emitted + [log];
        }
      }
    }

    /** One query result. */
    method Poll(logs: seq<Row>)
      requires emitted == Matching(filter, taken)
      modifies this
      ensures View() == OnRows(old(View()), logs)
      ensures emitted == Matching(filter, taken)
    {
      ghost var start := View();
      for i := 0 to |logs|
        invariant View() == OnRows(start, logs[..i])
        invariant emitted == Matching(filter, taken)
      {
        OnRowsSnoc(start, logs, i);
        Take(logs[i]);
      }
      assert logs[..|logs|] == logs;
    }

    /** The whole loop, as far as the answers go. */
    method Run(answers: seq<Answer>) returns (ended: bool)
      requires emitted == Matching(filter, taken)
      modifies this
      ensures View() == OnPolls(old(View()), Served(answers)) && ended == SaysEnd(answers)
      ensures emitted == Matching(filter, taken)
    {
      var i := 0;
      ghost var start := View();
      assert answers[0..] == answers;
      while i < |answers|
        invariant 0 <= i <= |answers| && emitted == Matching(filter, taken)
        invariant OnPolls(start, Served(answers)) == OnPolls(View(), Served(answers[i..]))
        invariant SaysEnd(answers) == SaysEnd(answers[i..])
      {
        assert answers[i..][1..] == answers[i + 1..];
        if answers[i].QueryFailed? {
          return false;
        }
        assert Served(answers[i..])[1..] == if answers[i].status.Going? then Served(answers[i + 1..]) else [];
        Poll(answers[i].logs);
        if !answers[i].status.Going? {
          return answers[i].status.Terminal?;
        }
        i := i + 1;
      }
      ended := false;
    }
  }

  /** How one round of the loop goes: the query fails, or its rows are sent and the loop is then found
      going on, terminal, or not found at all. */
  datatype Status = Going | Terminal | Missing

  datatype Answer = QueryFailed | Answered(logs: seq<Row>, status: Status)

  /** The query results whose rows are sent: up to the first failure, or through the first status that
      ends the loop. */
  function Served(answers: seq<Answer>): seq<seq<Row>> {
    if answers == [] || answers[0].QueryFailed? then []
    else [answers[0].logs] + (if answers[0].status.Going? then Served(answers[1..]) else [])
  }

  /** Whether an end event is sent. */
  predicate SaysEnd(answers: seq<Answer>) {
    answers != [] && answers[0].Answered? &&
    (answers[0].status.Terminal? || (answers[0].status.Going? && SaysEnd(answers[1..])))
  }

  function OnPolls(s: Stream, polls: seq<seq<Row>>): Stream
    decreases |polls|
  {
    if polls == [] then s else OnPolls(OnRows(s, polls[0]), polls[1..])
  }

  /** Round `k` finds the loop terminal, and every round before it went well and found it going on. */
  predicate TerminalAt(answers: seq<Answer>, k: nat) {
    && k < |answers| && answers[k].Answered? && answers[k].status.Terminal?
    && forall j :: 0 <= j < k ==> answers[j].Answered? && answers[j].status.Going?
  }

  lemma {:induction false} TerminalEnds(answers: seq<Answer>, k: nat)
    requires TerminalAt(answers, k)
    ensures SaysEnd(answers) && |Served(answers)| == k + 1
    ensures forall j :: 0 <= j <= k ==> Served(answers)[j] == answers[j].logs
  {
    if k > 0 {
      var rest := answers[1..];
      assert rest[k - 1] == answers[k] && forall j :: 0 <= j < k - 1 ==> rest[j] == answers[j + 1];
      TerminalEnds(rest, k - 1);
      assert Served(answers) == [answers[0].logs] + Served(rest);
    }
  }

  lemma {:induction false} EndIsTerminal(answers: seq<Answer>) returns (k: nat)
    requires SaysEnd(answers)
    ensures TerminalAt(answers, k)
  {
    if answers[0].status.Terminal? {
      k := 0;
    } else {
      var i := EndIsTerminal(answers[1..]);
      k := i + 1;
      assert answers[k] == answers[1..][i] && forall j :: 0 < j < k ==> answers[j] == answers[1..][j - 1];
    }
  }

  /** An end event is sent exactly when some round finds the loop terminal before any failure, and the
      rows sent by then are those of all rounds up to and including that one. */
  lemma SaysEndExactly(answers: seq<Answer>)
    ensures SaysEnd(answers) <==> exists k: nat :: TerminalAt(answers, k)
    ensures forall k: nat :: TerminalAt(answers, k) ==>
              |Served(answers)| == k + 1 && forall j :: 0 <= j <= k ==> Served(answers)[j] == answers[j].logs
  {
    if SaysEnd(answers) {
      var k := EndIsTerminal(answers);
    }
    forall k: nat | TerminalAt(answers, k)
      ensures SaysEnd(answers) && |Served(answers)| == k + 1
      ensures forall j :: 0 <= j <= k ==> Served(answers)[j] == answers[j].logs
    {
      TerminalEnds(answers, k);
    }
  }

  // ------------------------------------------------------------------ the table and the query

  ghost predicate UniqueIds(table: set<Row>) {
    forall a, b :: a in table && b in table && a.id == b.id ==> a == b
  }

  predicate Before(a: Row, b: Row) {
    a.timestamp < b.timestamp || (a.timestamp == b.timestamp && a.id < b.id)
  }

  /** `SELECT ... WHERE timestamp >= cursor ORDER BY timestamp ASC, id ASC`. */
  ghost predicate QueryResult(table: set<Row>, cursor: int, logs: seq<Row>) {
    && (forall i, j :: 0 <= i < j < |logs| ==> Before(logs[i], logs[j]))
    && (forall r :: r in logs <==> r in table && r.timestamp >= cursor)
  }

  /** Rows of `logs` not yet taken, in query order. */
  function Fresh(logs: seq<Row>, taken: seq<Row>): seq<Row> {
    if logs == [] then []
    else Fresh(logs[..|logs| - 1], taken) + (if logs[|logs| - 1] in taken then [] else [logs[|logs| - 1]])
  }

  lemma {:induction false} FreshSpec(logs: seq<Row>, taken: seq<Row>)
    ensures forall r :: r in Fresh(logs, taken) <==> r in logs && r !in taken
  {
    if logs != [] {
      FreshSpec(logs[..|logs| - 1], taken);
      assert logs == logs[..|logs| - 1] + [logs[|logs| - 1]];
    }
  }

  /** The dedup set is exactly the ids taken at the cursor, and the cursor is nowhere behind a taken row. */
  ghost predicate DedupExact(s: Stream) {
    && (forall r :: r in s.taken ==> r.timestamp <= s.cursor)
    && (forall n :: n in s.seen <==> exists r :: r in s.taken && r.timestamp == s.cursor && r.id == n)
  }

  predicate Ordered(rows: seq<Row>) {
    forall i, j :: 0 <= i < j < |rows| ==> rows[i].timestamp <= rows[j].timestamp && rows[i].id != rows[j].id
  }

  /** What is kept between polls: `late` are the rows that showed up behind the cursor. */
  ghost predicate Inv(s: Stream, table: set<Row>, late: set<Row>) {
    && UniqueIds(table) && late <= table
    && (forall r :: r in late ==> r.timestamp < s.cursor)
    && (forall r :: r in s.taken <==> r in table && r !in late)
    && DedupExact(s) && Ordered(s.taken)
  }

  lemma DedupSkip(s: Stream, r: Row)
    requires DedupExact(s) && r in s.taken && r.timestamp == s.cursor
    ensures OnRow(s, r) == s
  {
  }

  lemma DedupTake(s: Stream, r: Row)
    requires DedupExact(s) && r.timestamp >= s.cursor && (forall t :: t in s.taken ==> t.id != r.id)
    requires Ordered(s.taken)
    ensures var t := OnRow(s, r);
            t.taken == s.taken + [r] && t.cursor == r.timestamp && DedupExact(t) && Ordered(t.taken)
  {
    assert r.id !in s.seen;
    var t := OnRow(s, r);
    forall n ensures n in t.seen <==> exists q :: q in t.taken && q.timestamp == t.cursor && q.id == n {
      if n == r.id { assert r in t.taken; }
      if n in s.seen && t.cursor == s.cursor {
        var q :| q in s.taken && q.timestamp == s.cursor && q.id == n;
        assert q in t.taken;
      }
    }
  }

  /** Part-way through a poll: the rows before `i` are settled, and the cursor stands at or before the
      next row. */
  ghost predicate Midway(s: Stream, start: Stream, logs: seq<Row>, i: nat) {
    && i <= |logs|
    && s.taken == start.taken + Fresh(logs[..i], start.taken)
    && start.cursor <= s.cursor
    && (s.cursor == start.cursor || (i > 0 && s.cursor <= logs[i - 1].timestamp))
    && DedupExact(s) && Ordered(s.taken)
  }

  lemma MidwayStep(s: Stream, start: Stream, table: set<Row>, logs: seq<Row>, i: nat)
    requires UniqueIds(table) && QueryResult(table, start.cursor, logs) && i < |logs|
    requires forall r :: r in start.taken ==> r in table && r.timestamp <= start.cursor
    requires Midway(s, start, logs, i)
    ensures Midway(OnRow(s, logs[i]), start, logs, i + 1)
  {
    var r := logs[i];
    assert logs[..i + 1][..i] == logs[..i] && logs[..i + 1][i] == r;
    assert r in table && r.timestamp >= start.cursor;
    FreshSpec(logs[..i], start.taken);
    assert i > 0 ==> Before(logs[i - 1], r);
    if r in start.taken {
      DedupSkip(s, r);
      assert start.taken + (Fresh(logs[..i], start.taken) + []) == s.taken;
    } else {
      forall t | t in s.taken ensures t.id != r.id {
        if t in logs[..i] {
          var k :| 0 <= k < i && logs[k] == t;
          assert Before(logs[k], r);
          assert t in logs && t in table;
        }
      }
      DedupTake(s, r);
      assert start.taken + (Fresh(logs[..i], start.taken) + [r]) == s.taken + [r];
    }
  }

  lemma {:induction false} PollMidway(start: Stream, table: set<Row>, logs: seq<Row>, i: nat)
    requires UniqueIds(table) && QueryResult(table, start.cursor, logs) && i <= |logs|
    requires forall r :: r in start.taken ==> r in table && r.timestamp <= start.cursor
    requires DedupExact(start) && Ordered(start.taken)
    ensures Midway(OnRows(start, logs[..i]), start, logs, i)
  {
    if i == 0 {
      assert start.taken + [] == start.taken;
    } else {
      PollMidway(start, table, logs, i - 1);
      assert logs[..i][..i - 1] == logs[..i - 1];
      MidwayStep(OnRows(start, logs[..i - 1]), start, table, logs, i - 1);
    }
  }

  function Arrivals(before: set<Row>, after: set<Row>, cursor: int): set<Row> {
    set r | r in after - before && r.timestamp < cursor
  }

  /** One poll takes exactly the rows of the table not yet taken, except the new ones behind the cursor,
      which no later poll will see either. */
  lemma PollTakesNewRows(s: Stream, before: set<Row>, late: set<Row>, table: set<Row>, logs: seq<Row>)
    requires Inv(s, before, late) && before <= table && UniqueIds(table)
    requires QueryResult(table, s.cursor, logs)
    ensures Inv(OnRows(s, logs), table, late + Arrivals(before, table, s.cursor))
    ensures OnRows(s, logs).taken == s.taken + Fresh(logs, s.taken)
    ensures OnRows(s, logs).cursor >= s.cursor
  {
    PollMidway(s, table, logs, |logs|);
    assert logs[..|logs|] == logs;
    FreshSpec(logs, s.taken);
    var t := OnRows(s, logs);
    forall r ensures r in t.taken <==> r in table && r !in late + Arrivals(before, table, s.cursor) {
      assert r in t.taken <==> r in s.taken || r in Fresh(logs, s.taken);
    }
  }

  // ------------------------------------------------------------------ whole streams

  /** A poll: the table as the query sees it, and the query's result. */
  datatype Tick = Tick(table: set<Row>, logs: seq<Row>)

  function Polls(ticks: seq<Tick>): (polls: seq<seq<Row>>)
    ensures |polls| == |ticks| && forall i :: 0 <= i < |ticks| ==> polls[i] == ticks[i].logs
  {
    seq(|ticks|, i requires 0 <= i < |ticks| => ticks[i].logs)
  }

  function After(s: Stream, ticks: seq<Tick>): Stream
    decreases |ticks|
  {
    if ticks == [] then s else After(OnRows(s, ticks[0].logs), ticks[1..])
  }

  lemma {:induction false} AfterIsOnPolls(s: Stream, ticks: seq<Tick>)
    ensures After(s, ticks) == OnPolls(s, Polls(ticks))
    decreases |ticks|
  {
    if ticks != [] {
      assert Polls(ticks)[1..] == Polls(ticks[1..]);
      AfterIsOnPolls(OnRows(s, ticks[0].logs), ticks[1..]);
    }
  }

  /** Rows are only ever added, ids are unique, and the store answers each query truthfully. */
  ghost predicate Ticking(s: Stream, table: set<Row>, ticks: seq<Tick>)
    decreases |ticks|
  {
    ticks == [] ||
    (&& table <= ticks[0].table && UniqueIds(ticks[0].table)
     && QueryResult(ticks[0].table, s.cursor, ticks[0].logs)
     && Ticking(OnRows(s, ticks[0].logs), ticks[0].table, ticks[1..]))
  }

  function LastTable(table: set<Row>, ticks: seq<Tick>): set<Row> {
    if ticks == [] then table else ticks[|ticks| - 1].table
  }

  /** Rows that were already behind the cursor when a query could first have returned them. */
  ghost function Late(s: Stream, table: set<Row>, ticks: seq<Tick>): set<Row>
    decreases |ticks|
  {
    if ticks == [] then {}
    else Arrivals(table, ticks[0].table, s.cursor) + Late(OnRows(s, ticks[0].logs), ticks[0].table, ticks[1..])
  }

  lemma {:induction false} InvAlong(s: Stream, table: set<Row>, late: set<Row>, ticks: seq<Tick>)
    requires Inv(s, table, late) && Ticking(s, table, ticks)
    ensures Inv(After(s, ticks), LastTable(table, ticks), late + Late(s, table, ticks))
    decreases |ticks|
  {
    if ticks == [] {
      assert late + {} == late;
    } else {
      var t := ticks[0];
      PollTakesNewRows(s, table, late, t.table, t.logs);
      var now := late + Arrivals(table, t.table, s.cursor);
      InvAlong(OnRows(s, t.logs), t.table, now, ticks[1..]);
      assert now + Late(OnRows(s, t.logs), t.table, ticks[1..]) == late + Late(s, table, ticks);
      assert LastTable(t.table, ticks[1..]) == LastTable(table, ticks);
    }
  }

  // ------------------------------------------------------------------ lateness, from the tables alone

  function Tables(ticks: seq<Tick>): (tables: seq<set<Row>>)
    ensures |tables| == |ticks| && forall i :: 0 <= i < |ticks| ==> tables[i] == ticks[i].table
  {
    seq(|ticks|, i requires 0 <= i < |ticks| => ticks[i].table)
  }

  /** New rows older than one that an earlier query could already see, or older than the epoch. */
  function Behind(before: set<Row>, after: set<Row>): set<Row> {
    set r | r in after - before && (r.timestamp < UNIX_EPOCH || exists q :: q in before && r.timestamp < q.timestamp)
  }

  /** The rows that come too late, said without reference to the stream. */
  function LateRows(before: set<Row>, tables: seq<set<Row>>): set<Row>
    decreases |tables|
  {
    if tables == [] then {} else Behind(before, tables[0]) + LateRows(tables[0], tables[1..])
  }

  /** The cursor is the newest timestamp in the table, or the epoch. */
  ghost predicate CursorExact(s: Stream, table: set<Row>) {
    && s.cursor >= UNIX_EPOCH && (forall r :: r in table ==> r.timestamp <= s.cursor)
    && (s.cursor == UNIX_EPOCH || exists r :: r in table && r.timestamp == s.cursor)
  }

  lemma ArrivalsAreBehind(s: Stream, before: set<Row>, after: set<Row>)
    requires CursorExact(s, before)
    ensures Arrivals(before, after, s.cursor) == Behind(before, after)
  {
  }

  lemma CursorStep(s: Stream, before: set<Row>, late: set<Row>, table: set<Row>, logs: seq<Row>)
    requires Inv(s, before, late) && CursorExact(s, before) && before <= table && UniqueIds(table)
    requires QueryResult(table, s.cursor, logs)
    ensures CursorExact(OnRows(s, logs), table)
  {
    PollTakesNewRows(s, before, late, table, logs);
    PollMidway(s, table, logs, |logs|);
    assert logs[..|logs|] == logs;
    var t := OnRows(s, logs);
    if t.cursor != s.cursor {
      var last := logs[|logs| - 1];
      assert last in logs && last.timestamp >= s.cursor;
      assert last in t.taken;
    } else if s.cursor != UNIX_EPOCH {
      var r :| r in before && r.timestamp == s.cursor;
      assert r in table;
    }
  }

  lemma {:induction false} LateFromTables(s: Stream, table: set<Row>, late: set<Row>, ticks: seq<Tick>)
    requires Inv(s, table, late) && CursorExact(s, table) && Ticking(s, table, ticks)
    ensures Late(s, table, ticks) == LateRows(table, Tables(ticks))
    decreases |ticks|
  {
    if ticks != [] {
      var t := ticks[0];
      PollTakesNewRows(s, table, late, t.table, t.logs);
      CursorStep(s, table, late, t.table, t.logs);
      ArrivalsAreBehind(s, table, t.table);
      LateFromTables(OnRows(s, t.logs), t.table, late + Arrivals(table, t.table, s.cursor), ticks[1..]);
      assert Tables(ticks)[1..] == Tables(ticks[1..]);
    }
  }

  /** After any number of polls the rows taken are, in timestamp order and each once, exactly the rows
      of the last table that did not arrive behind the cursor; the dedup set holds exactly the ids taken
      at the cursor. */
  lemma StreamDeliversOnce(ticks: seq<Tick>)
    requires Ticking(OPENED, {}, ticks)
    ensures var s := After(OPENED, ticks);
            var late := LateRows({}, Tables(ticks));
            && Ordered(s.taken) && DedupExact(s)
            && (forall r :: r in s.taken <==> r in LastTable({}, ticks) && r !in late)
            && late <= LastTable({}, ticks)
  {
    InvAlong(OPENED, {}, {}, ticks);
    LateFromTables(OPENED, {}, {}, ticks);
    assert {} + Late(OPENED, {}, ticks) == Late(OPENED, {}, ticks);
  }

  /** The stream equals "emit the log once" exactly when no row ever arrives behind the cursor. */
  lemma CompleteExactly(ticks: seq<Tick>)
    requires Ticking(OPENED, {}, ticks)
    ensures (forall r :: r in LastTable({}, ticks) ==> r in After(OPENED, ticks).taken)
            <==> LateRows({}, Tables(ticks)) == {}
  {
    StreamDeliversOnce(ticks);
    var late := LateRows({}, Tables(ticks));
    if late != {} {
      var r :| r in late;
      assert r in LastTable({}, ticks);
    }
  }

  lemma {:induction false} MatchingSpec(f: Filter, rows: seq<Row>)
    requires Ordered(rows)
    ensures Ordered(Matching(f, rows))
    ensures forall r :: r in Matching(f, rows) <==> r in rows && Matches(f, r)
  {
    if rows != [] {
      var pre := rows[..|rows| - 1];
      MatchingSpec(f, pre);
      assert rows == pre + [rows[|rows| - 1]];
      var m := Matching(f, pre);
      forall i | 0 <= i < |m| ensures m[i].timestamp <= rows[|rows| - 1].timestamp && m[i].id != rows[|rows| - 1].id {
        assert m[i] in pre;
      }
    }
  }

  /** What the client is sent: each row of the last table once that is of the round and of the stage asked for, if
      any, in timestamp order, when rows arrive in time. */
  lemma EmittedExactly(f: Filter, ticks: seq<Tick>)
    requires Ticking(OPENED, {}, ticks) && LateRows({}, Tables(ticks)) == {}
    ensures var emitted := Matching(f, After(OPENED, ticks).taken);
            && Ordered(emitted)
            && forall r :: r in emitted <==>
                 && r in LastTable({}, ticks)
                 && (f.round == None || f.round == Some(r.round)) && (f.stage == None || f.stage == Some(r.stage))
  {
    StreamDeliversOnce(ticks);
    MatchingSpec(f, After(OPENED, ticks).taken);
  }

  /** The whole server loop: when every answer it served is a truthful query and no row is late, what has
      been sent at its end is each matching row of the last table queried, once and in timestamp order. */
  lemma LoopEmitsExactly(f: Filter, answers: seq<Answer>, ticks: seq<Tick>)
    requires Polls(ticks) == Served(answers)
    requires Ticking(OPENED, {}, ticks) && LateRows({}, Tables(ticks)) == {}
    ensures var emitted := Matching(f, OnPolls(OPENED, Served(answers)).taken);
            && Ordered(emitted)
            && forall r :: r in emitted <==> r in LastTable({}, ticks) && Matches(f, r)
  {
    AfterIsOnPolls(OPENED, ticks);
    EmittedExactly(f, ticks);
  }

  /** When the loop is found terminal, rows inserted after the last query are cut off with it: the
      stream ends complete exactly when there are none and none was late. */
  lemma EndCutsOff(ticks: seq<Tick>, atEnd: set<Row>)
    requires Ticking(OPENED, {}, ticks) && LastTable({}, ticks) <= atEnd
    ensures (set r | r in atEnd && r !in After(OPENED, ticks).taken)
            == LateRows({}, Tables(ticks)) + (atEnd - LastTable({}, ticks))
  {
    StreamDeliversOnce(ticks);
  }

  const EARLY := Row(0, 3, 1, "implement", "early")

  const LATER := Row(1, 5, 1, "implement", "later")

  /** A row with an older timestamp, inserted after a newer one has been polled. */
  const OVERTAKEN: seq<Tick> := [Tick({LATER}, [LATER]), Tick({EARLY, LATER}, [LATER])]

  lemma OvertakenTicks()
    ensures Ticking(OPENED, {}, OVERTAKEN) && After(OPENED, OVERTAKEN) == Stream(5, {1}, [LATER])
  {
    var s := Stream(5, {1}, [LATER]);
    var (first, second) := (OVERTAKEN[0], OVERTAKEN[1]);
    assert [LATER][..0] == [];
    assert OnRows(OPENED, []) == OPENED;
    assert OnRows(OPENED, [LATER]) == OnRow(OPENED, LATER) == s;
    assert OnRows(s, []) == s;
    assert OnRows(s, [LATER]) == OnRow(s, LATER) == s;
    assert QueryResult(first.table, 0, first.logs) by { assert LATER in [LATER]; }
    assert QueryResult(second.table, 5, second.logs) by { assert LATER in [LATER]; }
    assert OVERTAKEN[1..] == [second] && [second][1..] == [];
    assert Ticking(s, {LATER}, [second]);
    assert After(s, [second]) == After(OnRows(s, second.logs), []);
  }

  /** The stream never shows it, in this or any later poll. */
  lemma LateRowReached()
    ensures Ticking(OPENED, {}, OVERTAKEN) && EARLY in LastTable({}, OVERTAKEN)
    ensures EARLY !in After(OPENED, OVERTAKEN).taken && EARLY in LateRows({}, Tables(OVERTAKEN))
  {
    OvertakenTicks();
    StreamDeliversOnce(OVERTAKEN);
  }
}
