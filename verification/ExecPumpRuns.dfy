/** What holds of every run of the exec pump, whatever the interleaving. */
module ExecPumpRuns {
  import opened ExecPump

  lemma InitInv()
    ensures Inv(INIT)
  {
  }

  ghost predicate Run(steps: seq<Step>) { Valid(INIT, steps) }

  function End(steps: seq<Step>): State
    requires Valid(INIT, steps)
  {
    After(INIT, steps)
  }

  lemma RunInv(steps: seq<Step>)
    requires Run(steps)
    ensures Inv(End(steps))
  {
    InitInv();
    KeepsAlong(INIT, steps);
  }

  // ------------------------------------------------------------------ the stream

  /** Chunks handed upstream, then the chunk in hand, then the queue are, in order, exactly the chunks
      enqueued; without a failed write all of those handed upstream were written. */
  lemma StreamIntact(steps: seq<Step>)
    requires Run(steps)
    ensures var s := End(steps);
            && Attempted(s.log) + InHand(s.pump) + s.dataQ == s.accepted
            && (!Failed(s.log) ==> Written(s.log) + InHand(s.pump) + s.dataQ == s.accepted)
            && |s.dataQ| <= 64
  {
    RunInv(steps);
    if !Failed(End(steps).log) { NoFailureAllWritten(End(steps).log); }
  }

  /** A later chunk was written although an earlier one was lost. */
  predicate Gap(log: seq<Event>) {
    exists i, j :: 0 <= i < j < |log| && log[i].Wrote? && !log[i].ok && log[j].Wrote? && log[j].ok
  }

  lemma GapGrows(log: seq<Event>, e: Event)
    requires Gap(log) || (Failed(log) && e.Wrote? && e.ok)
    ensures Gap(log + [e])
  {
    var t := log + [e];
    assert forall k :: 0 <= k < |log| ==> t[k] == log[k];
    if Gap(log) {
      var i, j :| 0 <= i < j < |log| && log[i].Wrote? && !log[i].ok && log[j].Wrote? && log[j].ok;
      assert t[i] == log[i] && t[j] == log[j];
    } else {
      var i :| 0 <= i < |log| && log[i].Wrote? && !log[i].ok;
      assert t[i] == log[i] && t[|log|] == e;
    }
  }

  lemma GapSnoc(log: seq<Event>, e: Event)
    ensures Gap(log + [e]) <==> Gap(log) || (Failed(log) && e.Wrote? && e.ok)
  {
    var t := log + [e];
    if Gap(log) || (Failed(log) && e.Wrote? && e.ok) {
      GapGrows(log, e);
    } else {
      assert forall i :: 0 <= i < |log| ==> t[i] == log[i];
      assert t[|log|] == e;
    }
  }

  /** A step opens a gap exactly when it is a successful write of the EOF drain after a failure: the
      drain is the one place that does not test `agent_closed`. */
  lemma GapOpensExactly(s: State, step: Step)
    requires Inv(s) && Enabled(s, step)
    ensures Gap(Apply(s, step).log) <==> Gap(s.log) || (step == DrainWriteDone(true) && Failed(s.log))
  {
    LogShape(s, step);
    if Logged(s, step) == [] {
      LogFrame(s, step);
    } else {
      GapSnoc(s.log, Logged(s, step)[0]);
    }
  }

  /** No write of the EOF drain succeeds after a write has failed. */
  ghost predicate DrainsGuarded(s: State, steps: seq<Step>)
    requires Valid(s, steps)
    decreases |steps|
  {
    steps == [] ||
    ((steps[0] == DrainWriteDone(true) ==> !Failed(s.log)) && DrainsGuarded(Apply(s, steps[0]), steps[1..]))
  }

  lemma {:induction false} GapStays(s: State, steps: seq<Step>)
    requires Inv(s) && Valid(s, steps) && Gap(s.log)
    ensures Gap(After(s, steps).log)
    decreases |steps|
  {
    if steps != [] {
      Keeps(s, steps[0]);
      GapOpensExactly(s, steps[0]);
      GapStays(Apply(s, steps[0]), steps[1..]);
    }
  }

  lemma {:induction false} GapFreeFrom(s: State, steps: seq<Step>)
    requires Inv(s) && Valid(s, steps) && !Gap(s.log)
    ensures !Gap(After(s, steps).log) <==> DrainsGuarded(s, steps)
    decreases |steps|
  {
    if steps != [] {
      Keeps(s, steps[0]);
      GapOpensExactly(s, steps[0]);
      if steps[0] == DrainWriteDone(true) && Failed(s.log) {
        GapStays(Apply(s, steps[0]), steps[1..]);
      } else {
        GapFreeFrom(Apply(s, steps[0]), steps[1..]);
      }
    }
  }

  /** No later chunk is ever written over a lost one exactly in the runs in which no drain write succeeds after
      a failed write. */
  lemma GapFreeExactly(steps: seq<Step>)
    requires Run(steps)
    ensures !Gap(End(steps).log) <==> DrainsGuarded(INIT, steps)
  {
    InitInv();
    GapFreeFrom(INIT, steps);
  }

  lemma {:induction false} NoGapPrefix(log: seq<Event>)
    requires !Gap(log)
    ensures Written(log) <= Attempted(log)
  {
    if log != [] {
      var (pre, e) := (log[..|log| - 1], log[|log| - 1]);
      assert log == pre + [e];
      GapSnoc(pre, e);
      NoGapPrefix(pre);
      if !Failed(pre) { NoFailureAllWritten(pre); }
    }
  }

  /** In such runs the upstream has seen a prefix of what the agent sent. */
  lemma WrittenIsPrefix(steps: seq<Step>)
    requires Run(steps) && DrainsGuarded(INIT, steps)
    ensures Written(End(steps).log) <= End(steps).accepted
  {
    GapFreeExactly(steps);
    StreamIntact(steps);
    NoGapPrefix(End(steps).log);
  }

  // ------------------------------------------------------------------ EOF

  /** At most one EOF goes upstream, and unless a write failed before it every chunk accepted before the
      EOF callback was written before it. */
  lemma EofBehindData(steps: seq<Step>, k: nat)
    requires Run(steps) && k < |End(steps).log| && End(steps).log[k].SentEof?
    ensures var s := End(steps);
            && (forall j :: 0 <= j < |s.log| && s.log[j].SentEof? ==> j == k)
            && 0 <= s.eofMark <= |s.accepted|
            && (!Failed(s.log[..k]) ==> s.accepted[..s.eofMark] <= Written(s.log[..k]))
  {
    RunInv(steps);
    var s := End(steps);
    assert EofInOrder(s.log[..k], s.eofMark);
    if !Failed(s.log[..k]) {
      NoFailureAllWritten(s.log[..k]);
      AttemptedPrefix(s.log, k);
      assert Attempted(s.log) <= s.accepted;
    }
  }

  lemma {:induction false} AttemptedPrefix(log: seq<Event>, k: nat)
    requires k <= |log|
    ensures Attempted(log[..k]) <= Attempted(log)
  {
    if k < |log| {
      AttemptedPrefix(log[..|log| - 1], k);
      assert log[..|log| - 1][..k] == log[..k];
    } else {
      assert log[..k] == log;
    }
  }

  /** Between two equally long runs of attempts lies no write. */
  lemma NoWriteBetween(log: seq<Event>, k: nat, j: nat)
    requires k <= j < |log| && Attempted(log[..k]) == Attempted(log)
    ensures !log[j].Wrote?
  {
    AttemptedPrefix(log, j + 1);
    AttemptedPrefix(log[..j], k);
    assert log[..j][..k] == log[..k];
    assert log[..j + 1] == log[..j] + [log[j]];
    Snoc(log[..j], log[j]);
  }

  /** When the agent keeps to section 5.3 of RFC 4254 and sends nothing after its EOF, the upstream EOF
      closes the complete stream and no data write follows it. */
  lemma EofEndsObedientStream(steps: seq<Step>, k: nat)
    requires Run(steps) && k < |End(steps).log| && End(steps).log[k].SentEof?
    requires !End(steps).late && !Failed(End(steps).log[..k])
    ensures Written(End(steps).log[..k]) == End(steps).accepted
    ensures forall j :: k < j < |End(steps).log| ==> !End(steps).log[j].Wrote?
  {
    RunInv(steps);
    var s := End(steps);
    EofBehindData(steps, k);
    assert s.accepted[..s.eofMark] == s.accepted;
    AttemptedPrefix(s.log, k);
    NoFailureAllWritten(s.log[..k]);
    assert Attempted(s.log) <= s.accepted;
    forall j | k < j < |s.log| ensures !s.log[j].Wrote? { NoWriteBetween(s.log, k, j); }
  }

  // ------------------------------------------------------------------ teardown

  predicate HandlerStep(step: Step) {
    step.CallData? || step.SendCompletes? || step.CallEof? || step.CallClose?
  }

  /** While a `data` callback is suspended on a full queue no handler callback can run at all, so the
      close callback waits too; in every other state it is enabled, however full the queue. */
  lemma CloseEnabledExactly(steps: seq<Step>)
    requires Run(steps)
    ensures var s := End(steps);
            && (Enabled(s, CallClose) <==> s.handler.Idle?)
            && (s.handler.Sending? && Alive(s) && |s.dataQ| == CAPACITY
                <==> forall step :: HandlerStep(step) ==> !Enabled(s, step))
  {
    RunInv(steps);
    var s := End(steps);
    if forall step :: HandlerStep(step) ==> !Enabled(s, step) {
      assert HandlerStep(CallClose) && HandlerStep(SendCompletes);
      assert !Enabled(s, CallClose) && !Enabled(s, SendCompletes);
    }
  }

  /** The close callback hands its message to the pump without queue space, and nothing is queued
      behind it. */
  lemma CloseNeedsNoSpace(s: State)
    requires Inv(s) && s.handler.Idle? && s.entry && Alive(s)
    ensures Enabled(s, CallClose)
    ensures var t := Apply(s, CallClose);
            && t.controlQ == s.controlQ + [Close] && t.dataQ == s.dataQ
            && forall step :: HandlerStep(step) && Enabled(t, step) ==>
                 Apply(t, step).controlQ == t.controlQ && Apply(t, step).dataQ == t.dataQ
  {
  }

  /** A write has failed, the queue is full and the agent's next chunk waits for space that nobody will make. */
  predicate Blocked(s: State) {
    && s.pump.Selecting? && s.agentClosed && s.entry
    && s.handler.Sending? && |s.dataQ| == CAPACITY && s.controlQ == []
  }

  lemma BlockedEnablesExactly(s: State, step: Step)
    requires Blocked(s)
    ensures Enabled(s, step) <==> step.TakeUpstream? || step.Displace?
  {
  }

  lemma BlockedByUpstream(s: State, msg: Message, ok: bool)
    requires Blocked(s)
    ensures var t := OnUpstream(s, msg, ok);
            t == s.(replies := t.replies, pump := t.pump) && (Alive(t) ==> Blocked(t))
  {
    UpstreamFrame(s, msg, ok);
  }

  /** From such a state, unless the pump is displaced, nothing happens but upstream messages until one of them ends
      the pump: the agent can neither send nor close, and nothing more goes upstream. */
  lemma {:induction false} BlockedUntilUpstreamEnds(s: State, steps: seq<Step>)
    requires Blocked(s) && Valid(s, steps) && !Displaces(steps)
    ensures After(s, steps).log == s.log
    ensures Alive(After(s, steps)) ==>
              Blocked(After(s, steps)) && forall k :: 0 <= k < |steps| ==> steps[k].TakeUpstream?
    decreases |steps|
  {
    if steps != [] {
      DisplacesCons(steps);
      BlockedEnablesExactly(s, steps[0]);
      var t := Apply(s, steps[0]);
      BlockedByUpstream(s, steps[0].msg, steps[0].ok);
      if t.pump.Done? { DoneStays(t, steps[1..]); } else { BlockedUntilUpstreamEnds(t, steps[1..]); }
    }
  }

  predicate Displaces(steps: seq<Step>) { exists k :: 0 <= k < |steps| && steps[k].Displace? }

  lemma DisplacedStep(s: State, step: Step)
    requires Enabled(s, step)
    ensures Apply(s, step).displaced <==> s.displaced || step.Displace?
  {
    if step.TakeUpstream? { UpstreamFrame(s, step.msg, step.ok); }
  }

  lemma DisplacesCons(steps: seq<Step>)
    requires steps != []
    ensures Displaces(steps) <==> steps[0].Displace? || Displaces(steps[1..])
  {
    assert forall k :: 0 < k < |steps| ==> steps[k] == steps[1..][k - 1];
    if k :| 0 <= k < |steps[1..]| && steps[1..][k].Displace? { assert steps[k + 1].Displace?; }
  }

  lemma {:induction false} DisplacedAlong(s: State, steps: seq<Step>)
    requires Valid(s, steps)
    ensures After(s, steps).displaced <==> s.displaced || Displaces(steps)
    decreases |steps|
  {
    if steps != [] {
      DisplacedStep(s, steps[0]);
      DisplacesCons(steps);
      DisplacedAlong(Apply(s, steps[0]), steps[1..]);
    }
  }

  /** The branch for a vanished control sender can be taken exactly when the pump's senders have been displaced
      and it has worked off its control messages; with one exec request on a channel it never is. */
  lemma ControlGoneExactly(steps: seq<Step>)
    requires Run(steps)
    ensures Enabled(End(steps), ControlGone) <==>
            End(steps).pump.Selecting? && End(steps).controlQ == [] && Displaces(steps)
  {
    RunInv(steps);
    DisplacedAlong(INIT, steps);
  }

  /** A displaced pump closes its upstream, and the agent's channel with it. */
  lemma ControlGoneReached() returns (steps: seq<Step>)
    ensures Run(steps) && End(steps).log == [SentClose] && End(steps).replies == [AgentClose]
  {
    RunTwo(INIT, [], Connect(true), Displace);
    steps := [] + [Connect(true)] + [Displace];
    RunSnoc(INIT, steps, ControlGone);
    steps := steps + [ControlGone];
  }

  /** Steps of the pump on the agent's behalf, as opposed to handler callbacks and upstream messages. */
  predicate AgentSide(step: Step) {
    !HandlerStep(step) && !step.TakeUpstream? && !step.Cleanup?
  }

  function Phase(p: Pump): nat {
    match p
    case Connecting => 1
    case Writing(_) => 1
    case SendingEof => 1
    case Draining => 2
    case DrainWriting(_) => 3
    case _ => 0
  }

  /** Agent-side steps that can still happen once the close callback has run or the pump is displaced. */
  function Work(s: State): nat {
    2 * |s.dataQ| + 3 * |s.controlQ| + Phase(s.pump)
    + (if s.agentClosed then 0 else 1) + (if s.handler.Sending? then 2 else 0)
  }

  function AgentSideCount(steps: seq<Step>): nat {
    if steps == [] then 0 else (if AgentSide(steps[0]) then 1 else 0) + AgentSideCount(steps[1..])
  }

  function ControlCount(steps: seq<Step>): nat {
    if steps == [] then 0 else (if steps[0].TakeControl? then 1 else 0) + ControlCount(steps[1..])
  }

  predicate Closing(s: State) { Alive(s) && !s.entry }

  lemma ClosingAgentStep(s: State, step: Step)
    requires Closing(s) && Enabled(s, step) && AgentSide(step)
    ensures var t := Apply(s, step); Alive(t) ==> Closing(t) && Work(t) < Work(s)
    ensures Alive(Apply(s, step)) ==>
              |Apply(s, step).controlQ| + (if step.TakeControl? then 1 else 0) == |s.controlQ|
  {
  }

  lemma ClosingOtherStep(s: State, step: Step)
    requires Closing(s) && Enabled(s, step) && !AgentSide(step)
    ensures var t := Apply(s, step);
            Alive(t) ==> Closing(t) && Work(t) == Work(s) && t.controlQ == s.controlQ
  {
    if step.TakeUpstream? { UpstreamFrame(s, step.msg, step.ok); }
  }

  /** Once the close callback has run or the pump is displaced, even during a suspended `data` callback, every run
      that keeps the pump alive spends at most `Work` of agent-side steps and at most as many control steps as were
      queued. */
  lemma {:induction false} TeardownBounded(s: State, steps: seq<Step>)
    requires Closing(s) && Valid(s, steps) && Alive(After(s, steps))
    ensures AgentSideCount(steps) + Work(After(s, steps)) <= Work(s)
    ensures ControlCount(steps) + |After(s, steps).controlQ| == |s.controlQ|
    ensures Closing(After(s, steps))
    decreases |steps|
  {
    if steps != [] {
      var t := Apply(s, steps[0]);
      assert Alive(t) by { if t.pump.Done? { DoneStays(t, steps[1..]); } }
      if AgentSide(steps[0]) { ClosingAgentStep(s, steps[0]); } else { ClosingOtherStep(s, steps[0]); }
      TeardownBounded(t, steps[1..]);
    }
  }

  lemma {:induction false} DoneStays(s: State, steps: seq<Step>)
    requires s.pump.Done? && Valid(s, steps)
    ensures After(s, steps).pump.Done? && After(s, steps).log == s.log && After(s, steps).replies == s.replies
    decreases |steps|
  {
    if steps != [] { DoneStays(Apply(s, steps[0]), steps[1..]); }
  }

  /** And the pump is never stuck on the way: an agent-side step is enabled in every such state, so the
      pump is over after at most 2 * 64 + 3 * (EOFs + 1) + 6 of them. */
  lemma TeardownProgress(steps: seq<Step>)
    requires Run(steps) && Closing(End(steps))
    ensures exists step :: AgentSide(step) && Enabled(End(steps), step)
    ensures Work(End(steps)) <= 2 * CAPACITY + 3 * |End(steps).controlQ| + 6
  {
    RunInv(steps);
    var s := End(steps);
    var step :=
      match s.pump
      case Connecting => Connect(true)
      case Selecting => if s.controlQ != [] then TakeControl else ControlGone
      case Writing(_) => WriteDone(true)
      case Draining => if s.dataQ != [] then DrainTake else DrainEmpty
      case DrainWriting(_) => DrainWriteDone(true)
      case SendingEof => EofDone(true)
      case Done => Cleanup;
    assert AgentSide(step) && Enabled(s, step);
  }

  /** No upstream write follows the upstream close, and the agent's channel is closed exactly once, as
      the last thing sent to it. */
  lemma NothingAfterClose(steps: seq<Step>)
    requires Run(steps)
    ensures var s := End(steps);
            && (forall k :: 0 <= k < |s.log| && s.log[k].SentClose? ==> k == |s.log| - 1)
            && (s.pump.Done? <==> exists k :: 0 <= k < |s.replies| && s.replies[k].AgentClose?)
            && (forall k :: 0 <= k < |s.replies| && s.replies[k].AgentClose? ==> k == |s.replies| - 1)
  {
    RunInv(steps);
  }

  // ------------------------------------------------------------------ runs that show the limits

  const LOSE_A := [Connect(true), CallData("a"), SendCompletes, TakeData, WriteDone(false)]
  const QUEUE_B := [CallData("b"), SendCompletes, CallEof, TakeControl]
  const DRAIN_B := [DrainTake, DrainWriteDone(true), DrainEmpty, EofDone(true)]

  const AFTER_A :=
    State(Idle, true, [], [], Selecting, false, true, [Wrote("a", false)], [], ["a"], NO_EOF, false, false)
  const AFTER_B :=
    State(Idle, true, ["b"], [], Draining, false, true, [Wrote("a", false)], [], ["a", "b"], 2, false, false)

  lemma LoseA()
    ensures Valid(INIT, LOSE_A) && After(INIT, LOSE_A) == AFTER_A
  {
    var s := Apply(INIT, Connect(true));
    s := Apply(s, CallData("a"));
    s := Apply(s, SendCompletes);
    s := Apply(s, TakeData);
    s := Apply(s, WriteDone(false));
    assert s == AFTER_A;
  }

  lemma QueueB()
    ensures Valid(AFTER_A, QUEUE_B) && After(AFTER_A, QUEUE_B) == AFTER_B
  {
    var s := Apply(AFTER_A, CallData("b"));
    s := Apply(s, SendCompletes);
    s := Apply(s, CallEof);
    s := Apply(s, TakeControl);
    assert s == AFTER_B;
  }

  lemma DrainB()
    ensures Valid(AFTER_B, DRAIN_B)
    ensures After(AFTER_B, DRAIN_B).log == GAP_LOG
    ensures After(AFTER_B, DRAIN_B).accepted == ["a", "b"]
  {
    var s := Apply(AFTER_B, DrainTake);
    s := Apply(s, DrainWriteDone(true));
    s := Apply(s, DrainEmpty);
    s := Apply(s, EofDone(true));
    assert s.log == GAP_LOG;
  }

  const GAP_LOG := [Wrote("a", false), Wrote("b", true), SentEof(true)]

  lemma GapInLog()
    ensures Gap(GAP_LOG) && Written(GAP_LOG) == ["b"]
  {
    var (a, b) := (Wrote("a", false), Wrote("b", true));
    assert GAP_LOG[0] == a && GAP_LOG[1] == b;
    Snoc([], a);
    Snoc([a], b);
    Snoc([a, b], SentEof(true));
    assert GAP_LOG == [a, b] + [SentEof(true)] && [a, b] == [a] + [b] && [a] == [] + [a];
  }

  /** A run that loses "a", keeps going, and then closes the upstream stream after "b" alone. */
  lemma GapReached() returns (steps: seq<Step>)
    ensures Run(steps) && End(steps).accepted == ["a", "b"]
    ensures End(steps).log == GAP_LOG && Gap(GAP_LOG) && Written(GAP_LOG) == ["b"]
  {
    LoseA();
    QueueB();
    DrainB();
    RunConcat(AFTER_A, QUEUE_B, DRAIN_B);
    RunConcat(INIT, LOSE_A, QUEUE_B + DRAIN_B);
    steps := LOSE_A + (QUEUE_B + DRAIN_B);
    GapInLog();
  }

  function Fill(n: nat): seq<Step> {
    if n == 0 then [] else Fill(n - 1) + [CallData("x"), SendCompletes]
  }

  lemma {:induction false} FillRuns(n: nat)
    requires n <= CAPACITY
    ensures Run(Fill(n)) && End(Fill(n)).dataQ == seq(n, _ => "x")
    ensures End(Fill(n)).handler.Idle? && End(Fill(n)).entry && End(Fill(n)).pump.Connecting?
    ensures End(Fill(n)).controlQ == [] && !End(Fill(n)).agentClosed
  {
    if n > 0 {
      FillRuns(n - 1);
      var s := End(Fill(n - 1));
      var two := [CallData("x"), SendCompletes];
      assert two[1..] == [SendCompletes] && two[1..][1..] == [];
      RunConcat(INIT, Fill(n - 1), two);
      assert seq(n, _ => "x") == seq(n - 1, _ => "x") + ["x"];
    }
  }

  /** A busy agent reaches a state in which its close cannot be taken, before the upstream is even
      connected. */
  lemma CloseBlockedReached() returns (steps: seq<Step>)
    ensures Run(steps) && End(steps).pump.Connecting? && |End(steps).dataQ| == 64
    ensures forall step :: HandlerStep(step) ==> !Enabled(End(steps), step)
  {
    FillRuns(CAPACITY);
    var one := [CallData("x")];
    steps := Fill(CAPACITY) + one;
    assert one[1..] == [];
    RunConcat(INIT, Fill(CAPACITY), one);
    CloseEnabledExactly(steps);
  }

  const STALL_FIRST := [Connect(true), TakeData, CallData("y"), SendCompletes]
  const STALL_THEN := [CallData("z"), WriteDone(false)]

  lemma StallFirst(s: State)
    requires s.handler.Idle? && s.entry && s.pump.Connecting? && |s.dataQ| == CAPACITY && s.controlQ == []
    requires !s.agentClosed
    ensures Valid(s, STALL_FIRST)
    ensures var t := After(s, STALL_FIRST);
            t.handler.Idle? && t.entry && t.pump.Writing? && |t.dataQ| == CAPACITY && t.controlQ == []
  {
    var t := Apply(s, Connect(true));
    t := Apply(t, TakeData);
    t := Apply(t, CallData("y"));
    t := Apply(t, SendCompletes);
  }

  lemma StallThen(s: State)
    requires s.handler.Idle? && s.entry && s.pump.Writing? && |s.dataQ| == CAPACITY && s.controlQ == []
    ensures Valid(s, STALL_THEN) && Blocked(After(s, STALL_THEN))
  {
    var t := Apply(s, CallData("z"));
    t := Apply(t, WriteDone(false));
  }

  /** One failed write under a full queue blocks the agent for good. */
  lemma BlockedReached() returns (steps: seq<Step>)
    ensures Run(steps) && Blocked(End(steps))
  {
    FillRuns(CAPACITY);
    StallFirst(End(Fill(CAPACITY)));
    RunConcat(INIT, Fill(CAPACITY), STALL_FIRST);
    StallThen(End(Fill(CAPACITY) + STALL_FIRST));
    RunConcat(INIT, Fill(CAPACITY) + STALL_FIRST, STALL_THEN);
    steps := Fill(CAPACITY) + STALL_FIRST + STALL_THEN;
  }
}
