/** What the agent has sent, read off the callbacks of a run alone, and how much of it the exec pump has taken. */
module ExecPumpAgent {
  import opened ExecPump
  import opened ExecPumpRuns
  import opened ExecPumpReplies

  /** The chunk of a suspended callback. */
  function Pending(h: Handler): seq<Chunk> { if h.Sending? then [h.chunk] else [] }

  predicate Loses(step: Step) { step.CallClose? || step.Displace? || step.Cleanup? }

  /** Chunks that came in while the senders were in place. */
  function Offered(steps: seq<Step>): seq<Chunk> {
    if steps == [] || Loses(steps[0]) then []
    else (if steps[0].CallData? then [steps[0].chunk] else []) + Offered(steps[1..])
  }

  /** Those before the first EOF. */
  function OfferedBeforeEof(steps: seq<Step>): seq<Chunk> {
    if steps == [] || Loses(steps[0]) || steps[0].CallEof? then []
    else (if steps[0].CallData? then [steps[0].chunk] else []) + OfferedBeforeEof(steps[1..])
  }

  /** Some chunk came in after an EOF; `marked` says whether one has come before. */
  predicate SendsAfterEof(marked: bool, steps: seq<Step>)
    decreases |steps|
  {
    steps != [] && !Loses(steps[0])
    && ((steps[0].CallData? && marked) || SendsAfterEof(marked || steps[0].CallEof?, steps[1..]))
  }

  // ------------------------------------------------------------------ one step

  function Held(s: State): seq<Chunk> { s.accepted + Pending(s.handler) }

  function New(s: State, step: Step): seq<Chunk> { if s.entry && step.CallData? then [step.chunk] else [] }

  /** Nothing of the agent's moves but what the step brings. */
  predicate AgentMoves(s: State, t: State, step: Step) {
    && (Alive(s) ==> Held(t) == Held(s) + New(s, step))
    && t.accepted <= Held(s)
    && (!Alive(s) ==> !Alive(t) && t.accepted == s.accepted)
  }

  lemma SameAgentMoves(s: State, t: State, step: Step)
    requires SameAgent(s, t) && New(s, step) == [] && (!Alive(s) ==> !Alive(t))
    ensures AgentMoves(s, t, step)
  {
    assert Held(t) + [] == Held(s);
  }

  lemma DataMoves(s: State, c: Chunk)
    requires Enabled(s, CallData(c))
    ensures AgentMoves(s, Apply(s, CallData(c)), CallData(c))
  {
    assert s.accepted + [] == s.accepted;
  }

  lemma SendMoves(s: State)
    requires Enabled(s, SendCompletes)
    ensures AgentMoves(s, Apply(s, SendCompletes), SendCompletes)
  {
    var t := Apply(s, SendCompletes);
    assert Held(t) == t.accepted;
    assert Held(s) + [] == Held(s);
  }

  lemma OtherCallbackMoves(s: State, step: Step)
    requires Enabled(s, step) && Callback(step) && !step.CallData? && !step.SendCompletes?
    ensures AgentMoves(s, Apply(s, step), step)
  {
    assert Held(s) + [] == Held(s);
  }

  lemma StepMoves(s: State, step: Step)
    requires Enabled(s, step)
    ensures AgentMoves(s, Apply(s, step), step)
  {
    if step.CallData? {
      DataMoves(s, step.chunk);
    } else if step.SendCompletes? {
      SendMoves(s);
    } else if Callback(step) {
      OtherCallbackMoves(s, step);
    } else {
      if SelectBranch(step) { ObedientSelect(s, step); } else { ObedientMoves(s, step); }
      SameAgentMoves(s, Apply(s, step), step);
    }
  }

  // ------------------------------------------------------------------ whole runs

  lemma {:induction false} DoneTakesNothing(s: State, steps: seq<Step>)
    requires s.pump.Done? && Valid(s, steps)
    ensures After(s, steps).pump.Done? && After(s, steps).accepted == s.accepted
    decreases |steps|
  {
    if steps != [] {
      StepMoves(s, steps[0]);
      DoneTakesNothing(Apply(s, steps[0]), steps[1..]);
    }
  }

  lemma {:induction false} OfferedFrom(s: State, steps: seq<Step>)
    requires Valid(s, steps) && Alive(s)
    ensures var due := Held(s) + if s.entry then Offered(steps) else [];
            && (Alive(After(s, steps)) ==> Held(After(s, steps)) == due)
            && After(s, steps).accepted <= due
    decreases |steps|
  {
    if steps == [] {
      assert Held(s) + [] == Held(s);
    } else {
      var t := Apply(s, steps[0]);
      StepMoves(s, steps[0]);
      EntryStep(s, steps[0]);
      OfferedCons(s, steps);
      if t.pump.Done? { DoneTakesNothing(t, steps[1..]); } else { OfferedFrom(t, steps[1..]); }
    }
  }

  lemma OfferedCons(s: State, steps: seq<Step>)
    requires steps != [] && Enabled(s, steps[0])
    ensures var entry := s.entry && !Loses(steps[0]);
            Held(s) + (if s.entry then Offered(steps) else [])
            == Held(s) + New(s, steps[0]) + if entry then Offered(steps[1..]) else []
  {
  }

  /** While the pump lives it has taken, in order, every chunk the agent has sent while its senders were in place,
      but for the one its callback may still be suspended with; once over it has taken no others. */
  lemma AcceptedExactly(steps: seq<Step>)
    requires Run(steps)
    ensures Alive(End(steps)) ==> End(steps).accepted + Pending(End(steps).handler) == Offered(steps)
    ensures End(steps).accepted <= Offered(steps)
  {
    OfferedFrom(INIT, steps);
    assert Held(INIT) + Offered(steps) == Offered(steps);
  }

  // ------------------------------------------------------------------ around the EOF

  predicate Late(s: State, steps: seq<Step>) { s.late || (s.entry && SendsAfterEof(s.eofMark != NO_EOF, steps)) }

  lemma LateStep(s: State, step: Step)
    requires Enabled(s, step)
    ensures Apply(s, step).late <==> s.late || (step.CallData? && s.entry && s.eofMark != NO_EOF)
  {
    if SelectBranch(step) {
      ObedientSelect(s, step);
    } else if DataBranch(step) || DrainLoop(step) {
      ObedientMoves(s, step);
    }
  }

  lemma {:induction false} LateFrom(s: State, steps: seq<Step>)
    requires Valid(s, steps)
    ensures After(s, steps).late <==> Late(s, steps)
    decreases |steps|
  {
    if steps != [] {
      LateStep(s, steps[0]);
      EntryStep(s, steps[0]);
      LateFrom(Apply(s, steps[0]), steps[1..]);
    }
  }

  lemma MarkStep(s: State, step: Step)
    requires Enabled(s, step)
    ensures Apply(s, step).eofMark ==
            if step.CallEof? && s.entry && s.eofMark == NO_EOF then |s.accepted| else s.eofMark
    ensures s.pump.Done? ==> Apply(s, step).pump.Done?
  {
    if SelectBranch(step) {
      ObedientSelect(s, step);
    } else if DataBranch(step) || DrainLoop(step) {
      ObedientMoves(s, step);
    }
  }

  lemma {:induction false} MarkStays(s: State, steps: seq<Step>)
    requires Valid(s, steps) && s.eofMark != NO_EOF
    ensures After(s, steps).eofMark == s.eofMark
    decreases |steps|
  {
    if steps != [] {
      MarkStep(s, steps[0]);
      MarkStays(Apply(s, steps[0]), steps[1..]);
    }
  }

  lemma BeforeEofCons(s: State, steps: seq<Step>)
    requires steps != [] && Enabled(s, steps[0]) && s.entry && !Loses(steps[0]) && !steps[0].CallEof?
    ensures Held(s) + OfferedBeforeEof(steps) == Held(s) + New(s, steps[0]) + OfferedBeforeEof(steps[1..])
  {
  }

  lemma {:induction false} MarkFrom(s: State, steps: seq<Step>)
    requires Valid(s, steps) && Inv(s) && s.entry && s.eofMark == NO_EOF && !HasEof(s.log)
    requires HasEof(After(s, steps).log) && EofAsked(steps)
    ensures After(s, steps).eofMark == |Held(s) + OfferedBeforeEof(steps)|
    decreases |steps|
  {
    assert steps != [];
    var (t, step) := (Apply(s, steps[0]), steps[0]);
    EofAskedCons(steps);
    EntryStep(s, step);
    MarkStep(s, step);
    StepMoves(s, step);
    HasEofStep(s, step);
    if s.pump.Done? {
      DoneStays(s, steps);
    } else if step.CallEof? {
      MarkStays(t, steps[1..]);
    } else if t.pump.Done? {
      DoneStays(t, steps[1..]);
    } else {
      Keeps(s, step);
      MarkFrom(t, steps[1..]);
      BeforeEofCons(s, steps);
    }
  }

  lemma {:induction false} BeforeEofIsPrefix(steps: seq<Step>)
    ensures OfferedBeforeEof(steps) <= Offered(steps)
  {
    if steps != [] { BeforeEofIsPrefix(steps[1..]); }
  }

  /** The EOF that goes upstream is the agent's: it asked for one, and unless a write had failed every chunk it had
      sent before, suspended or not, was written before the EOF. */
  lemma EofFollowsAllData(steps: seq<Step>, k: nat)
    requires Run(steps) && k < |End(steps).log| && End(steps).log[k].SentEof?
    ensures EofAsked(steps)
    ensures !Failed(End(steps).log[..k]) ==> OfferedBeforeEof(steps) <= Written(End(steps).log[..k])
  {
    var s := End(steps);
    RunInv(steps);
    EofBehindData(steps, k);
    EofMarkFrom(INIT, steps);
    assert HasEof(s.log);
    InitInv();
    MarkFrom(INIT, steps);
    assert Held(INIT) + OfferedBeforeEof(steps) == OfferedBeforeEof(steps);
    AcceptedExactly(steps);
    BeforeEofIsPrefix(steps);
    assert s.accepted[..s.eofMark] == OfferedBeforeEof(steps);
  }

  /** The agent has kept to section 5.3 of RFC 4254 exactly when no chunk came in after its EOF. */
  lemma ObedientExactly(steps: seq<Step>)
    requires Run(steps)
    ensures End(steps).late <==> SendsAfterEof(false, steps)
  {
    LateFrom(INIT, steps);
  }

  // ------------------------------------------------------------------ how the upstream answered

  /** How the writes and the EOF on record ended. */
  function Outcomes(log: seq<Event>): seq<bool> {
    if log == [] then []
    else
      Outcomes(log[..|log| - 1])
      + match log[|log| - 1] case Wrote(_, ok) => [ok] case SentEof(ok) => [ok] case SentClose => []
  }

  function Answer(step: Step): seq<bool> {
    match step
    case WriteDone(ok) => [ok]
    case DrainWriteDone(ok) => [ok]
    case EofDone(ok) => [ok]
    case _ => []
  }

  function Answers(steps: seq<Step>): seq<bool> {
    if steps == [] then [] else Answer(steps[0]) + Answers(steps[1..])
  }

  lemma OutcomesStep(s: State, step: Step)
    requires Enabled(s, step)
    ensures Outcomes(Apply(s, step).log) == Outcomes(s.log) + Answer(step)
  {
    LogShape(s, step);
    if Logged(s, step) == [] {
      LogFrame(s, step);
    } else {
      var t := s.log + [Logged(s, step)[0]];
      assert t[..|t| - 1] == s.log && t[|t| - 1] == Logged(s, step)[0];
    }
  }

  lemma {:induction false} OutcomesFrom(s: State, steps: seq<Step>)
    requires Valid(s, steps)
    ensures Outcomes(After(s, steps).log) == Outcomes(s.log) + Answers(steps)
    decreases |steps|
  {
    if steps != [] {
      OutcomesStep(s, steps[0]);
      OutcomesFrom(Apply(s, steps[0]), steps[1..]);
    }
  }

  predicate SeesDataGone(steps: seq<Step>) { exists k :: 0 <= k < |steps| && steps[k].DataGone? }

  lemma SeesDataGoneCons(steps: seq<Step>)
    requires steps != []
    ensures SeesDataGone(steps) <==> steps[0].DataGone? || SeesDataGone(steps[1..])
  {
    assert forall k :: 0 < k < |steps| ==> steps[k] == steps[1..][k - 1];
    if k :| 0 <= k < |steps[1..]| && steps[1..][k].DataGone? { assert steps[k + 1].DataGone?; }
  }

  /** Whether the data branch is closed, given whether it has been for want of a sender. */
  predicate ClosedFor(s: State, gone: bool) { s.agentClosed <==> gone || Failed(s.log) }

  lemma ClosedStep(s: State, gone: bool, step: Step)
    requires ClosedFor(s, gone) && Enabled(s, step)
    ensures ClosedFor(Apply(s, step), gone || step.DataGone?)
  {
    LogGrows(s, step);
    if step.TakeUpstream? { UpstreamFrame(s, step.msg, step.ok); }
  }

  lemma {:induction false} ClosedFrom(s: State, gone: bool, steps: seq<Step>)
    requires ClosedFor(s, gone) && Valid(s, steps)
    ensures ClosedFor(After(s, steps), gone || SeesDataGone(steps))
    decreases |steps|
  {
    if steps != [] {
      ClosedStep(s, gone, steps[0]);
      SeesDataGoneCons(steps);
      ClosedFrom(Apply(s, steps[0]), gone || steps[0].DataGone?, steps[1..]);
    }
  }

  /** The record shows how each write and the EOF ended, in order, and the pump stops taking data exactly after a
      failed write or once the senders of the data are gone. */
  lemma AnswersRecorded(steps: seq<Step>)
    requires Run(steps)
    ensures Outcomes(End(steps).log) == Answers(steps)
    ensures End(steps).agentClosed <==> Failed(End(steps).log) || SeesDataGone(steps)
  {
    OutcomesFrom(INIT, steps);
    ClosedFrom(INIT, false, steps);
  }

  // ------------------------------------------------------------------ when the pump has something to do

  lemma LosesEntryFirst(steps: seq<Step>)
    requires steps != []
    ensures LosesEntry(steps) <==> Loses(steps[0]) || LosesEntry(steps[1..])
  {
    LosesEntryCons(steps[0], steps[1..]);
    assert steps == [steps[0]] + steps[1..];
  }

  lemma {:induction false} EntryFrom(s: State, steps: seq<Step>)
    requires Valid(s, steps)
    ensures After(s, steps).entry <==> s.entry && !LosesEntry(steps)
    decreases |steps|
  {
    if steps != [] {
      EntryStep(s, steps[0]);
      LosesEntryFirst(steps);
      EntryFrom(Apply(s, steps[0]), steps[1..]);
    }
  }

  /** The data branch can find its senders gone exactly when they are, and every chunk the agent had sent through
      them has been handed upstream. */
  lemma DataGoneExactly(steps: seq<Step>)
    requires Run(steps)
    ensures var s := End(steps);
            Enabled(s, DataGone) <==>
            s.pump.Selecting? && !s.agentClosed && LosesEntry(steps) && Attempted(s.log) == Offered(steps)
  {
    var s := End(steps);
    EntryFrom(INIT, steps);
    AcceptedExactly(steps);
    StreamIntact(steps);
    if s.pump.Selecting? {
      assert Attempted(s.log) + [] + s.dataQ + Pending(s.handler) == Offered(steps);
      assert Attempted(s.log) == Offered(steps) <==> s.dataQ == [] && Pending(s.handler) == [];
    }
  }

  /** A step the pump can take by itself. */
  predicate Own(step: Step) { AgentSide(step) && !step.Displace? }

  predicate Waits(s: State) {
    s.pump.Selecting? && s.controlQ == [] && s.entry && (s.agentClosed || s.dataQ == [])
  }

  /** The step a live pump takes when it does not wait. */
  function Task(s: State): Step {
    match s.pump
    case Connecting => Connect(true)
    case Writing(_) => WriteDone(true)
    case Draining => if s.dataQ != [] then DrainTake else DrainEmpty
    case DrainWriting(_) => DrainWriteDone(true)
    case SendingEof => EofDone(true)
    case _ => if s.controlQ != [] then TakeControl else if !s.entry then ControlGone else TakeData
  }

  lemma TaskIsEnabled(s: State)
    requires Alive(s) && !Waits(s)
    ensures Own(Task(s)) && Enabled(s, Task(s))
  {
  }

  lemma WaitingIsStuck(s: State, step: Step)
    requires Waits(s) && Own(step)
    ensures !Enabled(s, step)
  {
  }

  /** A live pump is left waiting for the upstream or the agent exactly when it is at its select, has no control
      message, its senders are in place, and there is no chunk it could still write. */
  lemma WaitsExactly(steps: seq<Step>)
    requires Run(steps) && Alive(End(steps))
    ensures var s := End(steps);
            (forall step :: Own(step) ==> !Enabled(s, step)) <==>
            s.pump.Selecting? && s.controlQ == [] && !LosesEntry(steps) && (s.agentClosed || s.dataQ == [])
  {
    EntryFrom(INIT, steps);
    if Waits(End(steps)) {
      forall step | Own(step) ensures !Enabled(End(steps), step) { WaitingIsStuck(End(steps), step); }
    } else {
      TaskIsEnabled(End(steps));
    }
  }
}
