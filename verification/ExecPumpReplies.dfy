/** What the agent gets back from the exec pump, and what becomes of its EOF, read off the steps of a run. */
module ExecPumpReplies {
  import opened ExecPump
  import opened ExecPumpRuns

  // ------------------------------------------------------------------ data and EOFs

  /** The data and EOFs among the replies. */
  function Streamed(replies: seq<Reply>): seq<Reply> {
    if replies == [] then []
    else (if replies[0].Forward? || replies[0].AgentEof? then [replies[0]] else []) + Streamed(replies[1..])
  }

  function Codes(replies: seq<Reply>): seq<nat> {
    if replies == [] then []
    else (if replies[0].Status? then [replies[0].code] else []) + Codes(replies[1..])
  }

  lemma {:induction false} StreamedConcat(a: seq<Reply>, b: seq<Reply>)
    ensures Streamed(a + b) == Streamed(a) + Streamed(b)
  {
    if a == [] {
      assert a + b == b;
    } else {
      StreamedConcat(a[1..], b);
      assert (a + b)[0] == a[0] && (a + b)[1..] == a[1..] + b;
      var keep := if a[0].Forward? || a[0].AgentEof? then [a[0]] else [];
      assert keep + (Streamed(a[1..]) + Streamed(b)) == keep + Streamed(a[1..]) + Streamed(b);
    }
  }

  lemma {:induction false} CodesConcat(a: seq<Reply>, b: seq<Reply>)
    ensures Codes(a + b) == Codes(a) + Codes(b)
  {
    if a == [] {
      assert a + b == b;
    } else {
      CodesConcat(a[1..], b);
      assert (a + b)[0] == a[0] && (a + b)[1..] == a[1..] + b;
      var keep := if a[0].Status? then [a[0].code] else [];
      assert keep + (Codes(a[1..]) + Codes(b)) == keep + Codes(a[1..]) + Codes(b);
    }
  }

  /** What a message taken from the upstream carries for the agent: data it took, or the end of data. */
  function Carried(step: Step): seq<Reply> {
    match step
    case TakeUpstream(Data(c), true) => [Forward(c)]
    case TakeUpstream(UpstreamEof, _) => [AgentEof]
    case TakeUpstream(ExitStatus(_), _) => [AgentEof]
    case _ => []
  }

  function StreamTaken(steps: seq<Step>): seq<Reply> {
    if steps == [] then [] else Carried(steps[0]) + StreamTaken(steps[1..])
  }

  /** The exit status a step calls for: the upstream's own, or 1 for a failure. */
  function Called(step: Step): seq<nat> {
    match step
    case TakeUpstream(ExitStatus(code), _) => [code]
    case TakeUpstream(Data(_), false) => [1]
    case TakeUpstream(Disconnected, _) => [1]
    case Connect(false) => [1]
    case _ => []
  }

  function CodesTaken(steps: seq<Step>): seq<nat> {
    if steps == [] then [] else Called(steps[0]) + CodesTaken(steps[1..])
  }

  lemma OneReply(a: Reply)
    ensures Streamed([a]) == if a.Forward? || a.AgentEof? then [a] else []
    ensures Codes([a]) == if a.Status? then [a.code] else []
  {
    assert [a][1..] == [];
  }

  lemma TwoReplies(a: Reply, b: Reply)
    ensures Streamed([a, b]) == Streamed([a]) + Streamed([b])
    ensures Codes([a, b]) == Codes([a]) + Codes([b])
  {
    assert [a, b] == [a] + [b];
    StreamedConcat([a], [b]);
    CodesConcat([a], [b]);
  }

  /** What a step adds to the replies. */
  predicate Adds(s: State, t: State, step: Step, more: seq<Reply>) {
    t.replies == s.replies + more && Streamed(more) == Carried(step) && Codes(more) == Called(step)
  }

  lemma RepliesGrow(s: State, step: Step) returns (more: seq<Reply>)
    requires Enabled(s, step)
    ensures Adds(s, Apply(s, step), step, more)
  {
    if step.TakeUpstream? {
      more := UpstreamAdds(s, step.msg, step.ok);
    } else if step.Connect? {
      more := ConnectAdds(s, step.ok);
    } else if SelectBranch(step) {
      more := ControlAdds(s, step);
    } else {
      SameRepliesElsewhere(s, step);
      more := [];
    }
  }

  lemma ConnectAdds(s: State, ok: bool) returns (more: seq<Reply>)
    requires s.pump.Connecting?
    ensures Adds(s, Apply(s, Connect(ok)), Connect(ok), more)
  {
    more := if ok then [] else [Status(1), AgentClose];
    OneReply(Status(1));
    OneReply(AgentClose);
    TwoReplies(Status(1), AgentClose);
  }

  lemma ControlAdds(s: State, step: Step) returns (more: seq<Reply>)
    requires Enabled(s, step) && (step.TakeControl? || step.ControlGone?)
    ensures Adds(s, Apply(s, step), step, more)
  {
    OneReply(AgentClose);
    more := if Apply(s, step).pump.Done? then [AgentClose] else [];
  }

  lemma SameRepliesElsewhere(s: State, step: Step)
    requires Enabled(s, step) && !SelectBranch(step)
    ensures Apply(s, step).replies == s.replies
  {
    if Callback(step) {
      RepliesCallbacks(s, step);
    } else if DataBranch(step) {
      RepliesData(s, step);
    } else {
      RepliesDrain(s, step);
    }
  }

  lemma UpstreamAdds(s: State, msg: Message, ok: bool) returns (more: seq<Reply>)
    ensures Adds(s, OnUpstream(s, msg, ok), TakeUpstream(msg, ok), more)
  {
    OneReply(AgentClose);
    match msg
    case Data(c) =>
      OneReply(Forward(c));
      OneReply(Status(1));
      TwoReplies(Status(1), AgentClose);
      more := if ok then [Forward(c)] else [Status(1), AgentClose];
    case ExitStatus(code) => more := ExitAdds(s, code, ok);
    case UpstreamEof =>
      OneReply(AgentEof);
      more := [AgentEof];
    case UpstreamClose => more := [AgentClose];
    case Disconnected =>
      OneReply(Status(1));
      TwoReplies(Status(1), AgentClose);
      more := [Status(1), AgentClose];
    case Other => more := [];
  }

  lemma ExitAdds(s: State, code: nat, ok: bool) returns (more: seq<Reply>)
    ensures Adds(s, OnUpstream(s, ExitStatus(code), ok), TakeUpstream(ExitStatus(code), ok), more)
  {
    more := [Status(code)] + [AgentEof, AgentClose];
    OneReply(Status(code));
    OneReply(AgentEof);
    OneReply(AgentClose);
    TwoReplies(AgentEof, AgentClose);
    StreamedConcat([Status(code)], [AgentEof, AgentClose]);
    CodesConcat([Status(code)], [AgentEof, AgentClose]);
  }

  lemma {:induction false} StreamedFrom(s: State, steps: seq<Step>)
    requires Valid(s, steps)
    ensures Streamed(After(s, steps).replies) == Streamed(s.replies) + StreamTaken(steps)
    decreases |steps|
  {
    if steps != [] {
      var more := RepliesGrow(s, steps[0]);
      StreamedConcat(s.replies, more);
      StreamedFrom(Apply(s, steps[0]), steps[1..]);
    }
  }

  lemma {:induction false} CodesFrom(s: State, steps: seq<Step>)
    requires Valid(s, steps)
    ensures Codes(After(s, steps).replies) == Codes(s.replies) + CodesTaken(steps)
    decreases |steps|
  {
    if steps != [] {
      var more := RepliesGrow(s, steps[0]);
      CodesConcat(s.replies, more);
      CodesFrom(Apply(s, steps[0]), steps[1..]);
    }
  }

  /** In every interleaving the chunks sent to the agent are, in order, exactly the upstream's chunks that its
      channel took, and the EOFs lie among them where the upstream's EOFs and exit status did. */
  lemma AgentReceivesExactly(steps: seq<Step>)
    requires Run(steps)
    ensures Streamed(End(steps).replies) == StreamTaken(steps)
  {
    StreamedFrom(INIT, steps);
  }

  // ------------------------------------------------------------------ the end of the pump

  /** The steps by which the upstream, or the way to it, ends the pump. */
  predicate Ends(step: Step) {
    || step == Connect(false)
    || (step.TakeUpstream? && (step.msg.ExitStatus? || step.msg.UpstreamClose? || step.msg.Disconnected?
                               || (step.msg.Data? && !step.ok)))
  }

  /** The last words to the agent; sections 6.10 and 5.3 of RFC 4254 put the status first and the close last. */
  function Farewell(step: Step): seq<Reply>
    requires Ends(step)
  {
    if step.Connect? then [Status(1), AgentClose]
    else
      match step.msg
      case ExitStatus(code) => [Status(code), AgentEof, AgentClose]
      case UpstreamClose => [AgentClose]
      case _ => [Status(1), AgentClose]
  }

  predicate Ended(steps: seq<Step>) { exists k :: 0 <= k < |steps| && Ends(steps[k]) }

  predicate HasClose(log: seq<Event>) { exists k :: 0 <= k < |log| && log[k].SentClose? }

  predicate ClosesUpstream(s: State, step: Step)
    requires Enabled(s, step)
  {
    Logged(s, step) == [SentClose]
  }

  lemma UpstreamEnds(s: State, msg: Message, ok: bool)
    requires s.pump.Selecting?
    ensures var (t, step) := (OnUpstream(s, msg, ok), TakeUpstream(msg, ok));
            && t.log == s.log && (t.pump.Done? <==> Ends(step))
            && (Ends(step) ==> t.replies == s.replies + Farewell(step))
  {
    match msg
    case Data(_) =>
    case ExitStatus(_) =>
    case UpstreamEof =>
    case UpstreamClose =>
    case Disconnected =>
    case Other =>
  }

  lemma SelectEnds(s: State, step: Step)
    requires Enabled(s, step) && SelectBranch(step) && !step.TakeUpstream?
    ensures Apply(s, step).pump.Done? <==> Ends(step) || ClosesUpstream(s, step)
    ensures Ends(step) ==> Apply(s, step).replies == s.replies + Farewell(step) && Apply(s, step).log == s.log
  {
  }

  lemma DoneStep(s: State, step: Step)
    requires Enabled(s, step)
    ensures Apply(s, step).pump.Done? <==> s.pump.Done? || Ends(step) || ClosesUpstream(s, step)
    ensures Ends(step) ==> Apply(s, step).replies == s.replies + Farewell(step) && Apply(s, step).log == s.log
  {
    if step.TakeUpstream? {
      UpstreamEnds(s, step.msg, step.ok);
    } else if SelectBranch(step) {
      SelectEnds(s, step);
    } else if Callback(step) {
      RepliesCallbacks(s, step);
    } else if DataBranch(step) {
      RepliesData(s, step);
    } else {
      RepliesDrain(s, step);
    }
  }

  lemma HasCloseStep(s: State, step: Step)
    requires Enabled(s, step)
    ensures HasClose(Apply(s, step).log) <==> HasClose(s.log) || ClosesUpstream(s, step)
  {
    LogShape(s, step);
    var t := Apply(s, step).log;
    assert forall k :: 0 <= k < |s.log| ==> t[k] == s.log[k];
    if HasClose(s.log) {
      var k :| 0 <= k < |s.log| && s.log[k].SentClose?;
      assert t[k].SentClose?;
    }
    if ClosesUpstream(s, step) { assert t[|s.log|].SentClose?; }
  }

  lemma EndedCons(steps: seq<Step>)
    requires steps != []
    ensures Ended(steps) <==> Ends(steps[0]) || Ended(steps[1..])
  {
    assert forall k :: 0 < k < |steps| ==> steps[k] == steps[1..][k - 1];
    if k :| 0 <= k < |steps[1..]| && Ends(steps[1..][k]) { assert Ends(steps[k + 1]); }
  }

  lemma {:induction false} DoneFrom(s: State, ended: bool, steps: seq<Step>)
    requires Valid(s, steps) && (s.pump.Done? <==> ended || HasClose(s.log))
    ensures After(s, steps).pump.Done? <==> ended || Ended(steps) || HasClose(After(s, steps).log)
    decreases |steps|
  {
    if steps != [] {
      DoneStep(s, steps[0]);
      HasCloseStep(s, steps[0]);
      EndedCons(steps);
      DoneFrom(Apply(s, steps[0]), ended || Ends(steps[0]), steps[1..]);
    }
  }

  /** The pump is over if and only if a failed connect, a failed forward, an exit status, a close or the loss of the
      upstream has ended it, or it has itself closed the upstream. */
  lemma DoneExactly(steps: seq<Step>)
    requires Run(steps)
    ensures End(steps).pump.Done? <==> Ended(steps) || HasClose(End(steps).log)
  {
    DoneFrom(INIT, false, steps);
  }

  lemma {:induction false} EndedLast(s: State, steps: seq<Step>, k: nat)
    requires Valid(s, steps) && k < |steps| && Ends(steps[k])
    ensures After(s, steps).pump.Done?
    ensures var t := After(s, steps).replies;
            |Farewell(steps[k])| <= |t| && t[|t| - |Farewell(steps[k])|..] == Farewell(steps[k])
    decreases |steps|
  {
    var t := Apply(s, steps[0]);
    if k == 0 {
      DoneStep(s, steps[0]);
      DoneStays(t, steps[1..]);
    } else {
      EndedLast(t, steps[1..], k - 1);
    }
  }

  lemma {:induction false} NoEndAfterDone(s: State, steps: seq<Step>)
    requires Valid(s, steps) && s.pump.Done?
    ensures CodesTaken(steps) == [] && !Ended(steps)
    decreases |steps|
  {
    if steps != [] {
      DoneStep(s, steps[0]);
      EndedCons(steps);
      NoEndAfterDone(Apply(s, steps[0]), steps[1..]);
    }
  }

  lemma {:induction false} OneCode(s: State, steps: seq<Step>)
    requires Valid(s, steps)
    ensures |CodesTaken(steps)| <= 1
    decreases |steps|
  {
    if steps != [] {
      DoneStep(s, steps[0]);
      var t := Apply(s, steps[0]);
      if t.pump.Done? { NoEndAfterDone(t, steps[1..]); } else { OneCode(t, steps[1..]); }
    }
  }

  /** The agent is told an exit status at most once: the upstream's own, or 1 when the connection, the forwarding
      or the upstream itself was lost. */
  lemma StatusExactly(steps: seq<Step>)
    requires Run(steps)
    ensures Codes(End(steps).replies) == CodesTaken(steps) && |CodesTaken(steps)| <= 1
  {
    CodesFrom(INIT, steps);
    OneCode(INIT, steps);
  }

  /** Whatever the upstream ended with is told to the agent, as the last thing it gets. */
  lemma FarewellIsLast(steps: seq<Step>, k: nat)
    requires Run(steps) && k < |steps| && Ends(steps[k])
    ensures End(steps).pump.Done?
    ensures var replies := End(steps).replies;
            && |Farewell(steps[k])| <= |replies|
            && replies[|replies| - |Farewell(steps[k])|..] == Farewell(steps[k])
  {
    EndedLast(INIT, steps, k);
  }

  // ------------------------------------------------------------------ the agent's EOF

  /** An EOF callback found its senders in place. */
  predicate EofAsked(steps: seq<Step>) {
    exists k :: 0 <= k < |steps| && steps[k].CallEof? && !LosesEntry(steps[..k])
  }

  predicate LosesEntry(steps: seq<Step>) {
    exists k :: 0 <= k < |steps| && (steps[k].CallClose? || steps[k].Displace? || steps[k].Cleanup?)
  }

  lemma LosesEntryCons(step: Step, steps: seq<Step>)
    ensures LosesEntry([step] + steps) <==> step.CallClose? || step.Displace? || step.Cleanup? || LosesEntry(steps)
  {
    var t := [step] + steps;
    assert t[0] == step && forall k :: 0 <= k < |steps| ==> t[k + 1] == steps[k];
    if LosesEntry(t) {
      var k :| 0 <= k < |t| && (t[k].CallClose? || t[k].Displace? || t[k].Cleanup?);
      if k > 0 { assert steps[k - 1] == t[k]; }
    }
    if k :| 0 <= k < |steps| && (steps[k].CallClose? || steps[k].Displace? || steps[k].Cleanup?) {
      assert t[k + 1] == steps[k];
    }
  }

  lemma EofAskedCons(steps: seq<Step>)
    requires steps != []
    ensures EofAsked(steps) <==>
            steps[0].CallEof?
            || (!steps[0].CallClose? && !steps[0].Displace? && !steps[0].Cleanup? && EofAsked(steps[1..]))
  {
    assert !LosesEntry([]);
    assert steps[..0] == [];
    forall k | 0 < k < |steps|
      ensures LosesEntry(steps[..k]) <==>
              steps[0].CallClose? || steps[0].Displace? || steps[0].Cleanup? || LosesEntry(steps[1..][..k - 1])
    {
      LosesEntryCons(steps[0], steps[1..][..k - 1]);
      assert steps[..k] == [steps[0]] + steps[1..][..k - 1];
    }
    if k :| 0 <= k < |steps| && steps[k].CallEof? && !LosesEntry(steps[..k]) {
      if k > 0 { assert steps[1..][k - 1].CallEof?; }
    }
    if k :| 0 <= k < |steps[1..]| && steps[1..][k].CallEof? && !LosesEntry(steps[1..][..k]) {
      assert steps[k + 1].CallEof? && steps[1..][..k + 1 - 1] == steps[1..][..k];
    }
  }

  /** Whether the entry stays and whether an EOF is marked. */
  predicate EntryMoves(s: State, t: State, step: Step) {
    && (t.entry <==> s.entry && !step.CallClose? && !step.Displace? && !step.Cleanup?)
    && (t.eofMark != NO_EOF <==> s.eofMark != NO_EOF || (step.CallEof? && s.entry))
  }

  lemma EntryCallbacks(s: State, step: Step)
    requires Enabled(s, step) && Callback(step)
    ensures EntryMoves(s, Apply(s, step), step)
  {
  }

  lemma EntrySelect(s: State, step: Step)
    requires Enabled(s, step) && SelectBranch(step)
    ensures EntryMoves(s, Apply(s, step), step)
  {
    if step.TakeUpstream? { UpstreamFrame(s, step.msg, step.ok); }
  }

  lemma EntryElsewhere(s: State, step: Step)
    requires Enabled(s, step) && (DataBranch(step) || DrainLoop(step))
    ensures EntryMoves(s, Apply(s, step), step)
  {
  }

  lemma EntryStep(s: State, step: Step)
    requires Enabled(s, step)
    ensures EntryMoves(s, Apply(s, step), step)
  {
    if Callback(step) {
      EntryCallbacks(s, step);
    } else if SelectBranch(step) {
      EntrySelect(s, step);
    } else {
      EntryElsewhere(s, step);
    }
  }

  lemma {:induction false} EofMarkFrom(s: State, steps: seq<Step>)
    requires Valid(s, steps)
    ensures After(s, steps).eofMark != NO_EOF <==> s.eofMark != NO_EOF || (s.entry && EofAsked(steps))
    decreases |steps|
  {
    if steps != [] {
      EntryStep(s, steps[0]);
      EofAskedCons(steps);
      EofMarkFrom(Apply(s, steps[0]), steps[1..]);
    }
  }

  predicate EofServed(s: State) { EofServedBy(s, HasEof(s.log)) }

  lemma HasEofStep(s: State, step: Step)
    requires Enabled(s, step)
    ensures HasEof(Apply(s, step).log) <==> HasEof(s.log) || step.EofDone?
  {
    LogShape(s, step);
    var t := Apply(s, step).log;
    assert forall k :: 0 <= k < |s.log| ==> t[k] == s.log[k];
    if HasEof(s.log) {
      var k :| 0 <= k < |s.log| && s.log[k].SentEof?;
      assert t[k].SentEof?;
    }
    if step.EofDone? { assert t[|s.log|].SentEof?; }
  }

  /** An EOF that was asked for is queued, under way, or marked as sent; once marked it is under way or sent. */
  predicate EofServedBy(s: State, sent: bool) {
    && (Alive(s) && s.eofMark != NO_EOF ==>
          Eof in s.controlQ || s.pump.Draining? || s.pump.DrainWriting? || s.agentEofSent)
    && (Alive(s) && s.agentEofSent ==> s.pump.SendingEof? || sent)
  }

  lemma ServedControl(s: State, sent: bool)
    requires EofServedBy(s, sent) && Enabled(s, TakeControl)
    ensures EofServedBy(Apply(s, TakeControl), sent)
  {
    assert s.controlQ == [s.controlQ[0]] + s.controlQ[1..];
  }

  lemma ServedCallbacks(s: State, step: Step, sent: bool)
    requires EofServedBy(s, sent) && Enabled(s, step) && Callback(step)
    ensures EofServedBy(Apply(s, step), sent)
  {
  }

  lemma ServedMoves(s: State, step: Step, sent: bool)
    requires EofServedBy(s, sent) && Enabled(s, step) && (DataBranch(step) || DrainLoop(step))
    ensures EofServedBy(Apply(s, step), sent || step.EofDone?)
  {
  }

  lemma ServedStep(s: State, step: Step)
    requires EofServed(s) && Enabled(s, step)
    ensures EofServed(Apply(s, step))
  {
    HasEofStep(s, step);
    var sent := HasEof(s.log);
    if step.TakeControl? {
      ServedControl(s, sent);
    } else if Callback(step) {
      ServedCallbacks(s, step, sent);
    } else if step.TakeUpstream? {
      UpstreamFrame(s, step.msg, step.ok);
    } else if DataBranch(step) || DrainLoop(step) {
      ServedMoves(s, step, sent);
    }
  }

  lemma {:induction false} ServedAlong(s: State, steps: seq<Step>)
    requires EofServed(s) && Valid(s, steps)
    ensures EofServed(After(s, steps))
    decreases |steps|
  {
    if steps != [] {
      ServedStep(s, steps[0]);
      ServedAlong(Apply(s, steps[0]), steps[1..]);
    }
  }

  /** Whenever the pump is back at its select with no EOF message left, an EOF has gone upstream if and only if the
      agent asked for one while its senders were in place. */
  lemma EofForwardedExactly(steps: seq<Step>)
    requires Run(steps) && End(steps).pump.Selecting? && Eof !in End(steps).controlQ
    ensures HasEof(End(steps).log) <==> EofAsked(steps)
  {
    ServedAlong(INIT, steps);
    EofMarkFrom(INIT, steps);
    RunInv(steps);
  }

  /** And an EOF asked for and not yet sent leaves the live pump a step to take that is not the upstream's. */
  lemma EofProgress(steps: seq<Step>)
    requires Run(steps) && Alive(End(steps)) && EofAsked(steps) && !HasEof(End(steps).log)
    ensures exists step :: AgentSide(step) && Enabled(End(steps), step)
  {
    ServedAlong(INIT, steps);
    EofMarkFrom(INIT, steps);
    var s := End(steps);
    var step :=
      match s.pump
      case Connecting => Connect(true)
      case Writing(_) => WriteDone(true)
      case Draining => if s.dataQ != [] then DrainTake else DrainEmpty
      case DrainWriting(_) => DrainWriteDone(true)
      case SendingEof => EofDone(true)
      case _ => TakeControl;
    assert AgentSide(step) && Enabled(s, step);
  }
}
