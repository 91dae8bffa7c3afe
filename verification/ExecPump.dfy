/** The exec pump of the git SSH proxy as a step relation: russh handler callbacks feed a bounded data
    queue and an unbounded control queue, one pump task selects among upstream messages, control and
    data.  Sections 5.2 and 5.3 of RFC 4254 describe the surrounding channel protocol. */
module ExecPump {
  const CAPACITY := 64

  type Chunk = string

  datatype Control = Eof | Close

  /** The handler takes `&mut self`, so one callback runs at a time; only `data` can be suspended. */
  datatype Handler = Idle | Sending(chunk: Chunk)

  /** Where the pump task is.  `Writing` and `DrainWriting` hold a chunk in hand while the upstream
      write is awaited. */
  datatype Pump =
    | Connecting
    | Selecting
    | Writing(chunk: Chunk)
    | Draining
    | DrainWriting(chunk: Chunk)
    | SendingEof
    | Done

  /** What the upstream channel was asked to do, with the outcome. */
  datatype Event = Wrote(chunk: Chunk, ok: bool) | SentEof(ok: bool) | SentClose

  datatype Message = Data(chunk: Chunk) | ExitStatus(code: nat) | UpstreamEof | UpstreamClose | Disconnected | Other

  /** What the agent's channel was asked to do. */
  datatype Reply = Forward(chunk: Chunk) | Status(code: nat) | AgentEof | AgentClose

  /** `entry` says whether the channel's entry in the handler's sender map is this pump's.  `accepted`,
      `eofMark`, `late` and `displaced` are history: every chunk ever enqueued, how many there were when the
      first EOF was enqueued, whether the agent sent data after an EOF, and whether the entry was lost
      without a close: to a second exec request on the channel, which installs senders of its own, or to the
      cleanup of an earlier pump of the channel. */
  datatype State = State(
    handler: Handler,
    entry: bool,
    dataQ: seq<Chunk>,
    controlQ: seq<Control>,
    pump: Pump,
    agentEofSent: bool,
    agentClosed: bool,
    log: seq<Event>,
    replies: seq<Reply>,
    accepted: seq<Chunk>,
    eofMark: int,
    late: bool,
    displaced: bool)

  const NO_EOF := -1

  /** Just after `exec_request` installed the senders and spawned the pump. */
  const INIT := State(Idle, true, [], [], Connecting, false, false, [], [], [], NO_EOF, false, false)

  datatype Step =
    | CallData(chunk: Chunk)
    | SendCompletes
    | CallEof
    | CallClose
    | Connect(ok: bool)
    | TakeUpstream(msg: Message, ok: bool)
    | TakeControl
    | ControlGone
    | TakeData
    | DataGone
    | WriteDone(ok: bool)
    | DrainTake
    | DrainEmpty
    | DrainWriteDone(ok: bool)
    | EofDone(ok: bool)
    | Cleanup
    | Displace

  predicate Alive(s: State) { !s.pump.Done? }

  predicate Enabled(s: State, step: Step) {
    match step
    case CallData(_) => s.handler.Idle?
    case SendCompletes => s.handler.Sending? && (Alive(s) ==> |s.dataQ| < CAPACITY)
    case CallEof => s.handler.Idle?
    case CallClose => s.handler.Idle?
    case Connect(_) => s.pump.Connecting?
    case TakeUpstream(_, _) => s.pump.Selecting?
    case TakeControl => s.pump.Selecting? && s.controlQ != []
    case ControlGone => s.pump.Selecting? && s.controlQ == [] && !s.entry
    case TakeData => s.pump.Selecting? && !s.agentClosed && s.dataQ != []
    case DataGone => s.pump.Selecting? && !s.agentClosed && s.dataQ == [] && !s.entry && s.handler.Idle?
    case WriteDone(_) => s.pump.Writing?
    case DrainTake => s.pump.Draining? && s.dataQ != []
    case DrainEmpty => s.pump.Draining? && s.dataQ == []
    case DrainWriteDone(_) => s.pump.DrainWriting?
    case EofDone(_) => s.pump.SendingEof?
    case Cleanup => s.pump.Done? && s.entry
    case Displace => s.entry
  }

  function Finish(s: State, replies: seq<Reply>): State {
    s.(pump := Done, replies := s.replies + replies)
  }

  /** One iteration of the upstream branch. */
  function OnUpstream(s: State, msg: Message, ok: bool): State {
    match msg
    case Data(c) =>
      if ok then s.(replies := s.replies + [Forward(c)]) else Finish(s, [Status(1), AgentClose])
    case ExitStatus(code) => Finish(s, [Status(code), AgentEof, AgentClose])
    case UpstreamEof => s.(replies := s.replies + [AgentEof])
    case UpstreamClose => Finish(s, [AgentClose])
    case Disconnected => Finish(s, [Status(1), AgentClose])
    case Other => s
  }

  function OnControl(s: State): State
    requires s.controlQ != []
  {
    var t := s.(controlQ := s.controlQ[1..]);
    match s.controlQ[0]
    case Eof => if s.agentEofSent then t else t.(pump := Draining)
    case Close => Finish(t.(log := t.log + [SentClose]), [AgentClose])
  }

  function Enqueue(s: State, c: Control): State {
    if Alive(s) then s.(controlQ := s.controlQ + [c]) else s
  }

  function Apply(s: State, step: Step): State
    requires Enabled(s, step)
  {
    match step
    case CallData(c) =>
      if s.entry then s.(handler := Sending(c), late := s.late || s.eofMark != NO_EOF) else s
    case SendCompletes =>
      if Alive(s) then
        s.(handler := Idle, dataQ := s.dataQ + [s.handler.chunk], accepted := s.accepted + [s.handler.chunk])
      else s.(handler := Idle)
    case CallEof =>
      if !s.entry then s
      else Enqueue(s.(eofMark := if s.eofMark == NO_EOF then |s.accepted| else s.eofMark), Eof)
    case CallClose => if s.entry then Enqueue(s.(entry := false), Close) else s
    case Connect(ok) => if ok then s.(pump := Selecting) else Finish(s, [Status(1), AgentClose])
    case TakeUpstream(msg, ok) => OnUpstream(s, msg, ok)
    case TakeControl => OnControl(s)
    case ControlGone => Finish(s.(log := s.log + [SentClose]), [AgentClose])
    case TakeData => s.(pump := Writing(s.dataQ[0]), dataQ := s.dataQ[1..])
    case DataGone => s.(agentClosed := true)
    case WriteDone(ok) =>
      s.(pump := Selecting, log := s.log + [Wrote(s.pump.chunk, ok)], agentClosed := s.agentClosed || !ok)
    case DrainTake => s.(pump := DrainWriting(s.dataQ[0]), dataQ := s.dataQ[1..])
    case DrainEmpty => s.(pump := SendingEof, agentEofSent := true)
    case DrainWriteDone(ok) =>
      var t := s.(log := s.log + [Wrote(s.pump.chunk, ok)]);
      if ok then t.(pump := Draining) else t.(pump := SendingEof, agentClosed := true, agentEofSent := true)
    case EofDone(ok) => s.(pump := Selecting, log := s.log + [SentEof(ok)])
    case Cleanup => s.(entry := false)
    case Displace => s.(entry := false, displaced := true)
  }

  predicate Valid(s: State, steps: seq<Step>)
    decreases |steps|
  {
    steps == [] || (Enabled(s, steps[0]) && Valid(Apply(s, steps[0]), steps[1..]))
  }

  function After(s: State, steps: seq<Step>): State
    requires Valid(s, steps)
    decreases |steps|
  {
    if steps == [] then s else After(Apply(s, steps[0]), steps[1..])
  }

  lemma {:induction false} RunConcat(s: State, a: seq<Step>, b: seq<Step>)
    requires Valid(s, a) && Valid(After(s, a), b)
    ensures Valid(s, a + b) && After(s, a + b) == After(After(s, a), b)
    decreases |a|
  {
    if a == [] {
      assert a + b == b;
    } else {
      RunConcat(Apply(s, a[0]), a[1..], b);
      assert (a + b)[1..] == a[1..] + b;
    }
  }

  lemma RunSnoc(s: State, steps: seq<Step>, step: Step)
    requires Valid(s, steps) && Enabled(After(s, steps), step)
    ensures Valid(s, steps + [step]) && After(s, steps + [step]) == Apply(After(s, steps), step)
  {
    assert [step][1..] == [];
    RunConcat(s, steps, [step]);
  }

  lemma RunTwo(s: State, steps: seq<Step>, a: Step, b: Step)
    requires Valid(s, steps) && Enabled(After(s, steps), a) && Enabled(Apply(After(s, steps), a), b)
    ensures Valid(s, steps + [a] + [b]) && After(s, steps + [a] + [b]) == Apply(Apply(After(s, steps), a), b)
  {
    RunSnoc(s, steps, a);
    RunSnoc(s, steps + [a], b);
  }

  // ------------------------------------------------------------------ reading the log

  /** Chunks handed to the upstream channel, in order. */
  function Attempted(log: seq<Event>): seq<Chunk> {
    if log == [] then []
    else Attempted(log[..|log| - 1]) + (if log[|log| - 1].Wrote? then [log[|log| - 1].chunk] else [])
  }

  /** Chunks the upstream channel took. */
  function Written(log: seq<Event>): seq<Chunk> {
    if log == [] then []
    else Written(log[..|log| - 1]) + (match log[|log| - 1] case Wrote(c, true) => [c] case _ => [])
  }

  predicate Failed(log: seq<Event>) { exists i :: 0 <= i < |log| && log[i].Wrote? && !log[i].ok }

  lemma FailedSnoc(log: seq<Event>, e: Event)
    ensures Failed(log + [e]) <==> Failed(log) || (e.Wrote? && !e.ok)
  {
    var t := log + [e];
    assert t[|log|] == e;
    assert forall i :: 0 <= i < |log| ==> t[i] == log[i];
    if Failed(log) {
      var i :| 0 <= i < |log| && log[i].Wrote? && !log[i].ok;
      assert t[i] == log[i];
    }
  }

  lemma Snoc(log: seq<Event>, e: Event)
    ensures (log + [e])[..|log|] == log
    ensures Attempted(log + [e]) == Attempted(log) + (if e.Wrote? then [e.chunk] else [])
    ensures Written(log + [e]) == Written(log) + (match e case Wrote(c, true) => [c] case _ => [])
    ensures Failed(log + [e]) <==> Failed(log) || (e.Wrote? && !e.ok)
  {
    var t := log + [e];
    assert t[..|t| - 1] == log;
    FailedSnoc(log, e);
  }

  lemma {:induction false} NoFailureAllWritten(log: seq<Event>)
    requires !Failed(log)
    ensures Written(log) == Attempted(log)
  {
    if log != [] {
      var pre := log[..|log| - 1];
      assert forall i :: 0 <= i < |pre| ==> pre[i] == log[i];
      NoFailureAllWritten(pre);
    }
  }

  function InHand(p: Pump): seq<Chunk> {
    match p case Writing(c) => [c] case DrainWriting(c) => [c] case _ => []
  }

  // ------------------------------------------------------------------ what every step keeps

  /** Nothing enqueued is lost, duplicated or reordered on its way to the upstream channel. */
  predicate StreamKept(s: State) {
    Attempted(s.log) + InHand(s.pump) + s.dataQ == s.accepted
  }

  /** When an EOF goes out, either a write had failed or all chunks from before the EOF callback had
      been written. */
  predicate EofInOrder(log: seq<Event>, mark: int) {
    mark != NO_EOF && (Failed(log) || |Attempted(log)| >= mark)
  }

  /** The mark is set before anything towards an EOF happens; while the EOF is being sent the data it
      must follow is out. */
  predicate EofPhase(s: State) {
    && NO_EOF <= s.eofMark <= |s.accepted|
    && (Eof in s.controlQ || s.pump.Draining? || s.pump.DrainWriting? || s.agentEofSent ==> s.eofMark != NO_EOF)
    && (s.pump.Draining? || s.pump.DrainWriting? ==> !s.agentEofSent)
    && (s.pump.SendingEof? ==> s.agentEofSent && EofInOrder(s.log, s.eofMark))
  }

  ghost predicate EofKept(s: State) {
    && EofPhase(s)
    && EofLog(s.log, s.eofMark)
    && (HasEof(s.log) ==> s.agentEofSent && !s.pump.SendingEof?)
  }

  /** A close is queued at most once, last, and only after the entry is gone, which else only displacement can
      have taken; once it is sent the pump is over. */
  predicate CloseKept(s: State) {
    && (forall i :: 0 <= i < |s.controlQ| - 1 ==> s.controlQ[i] == Eof)
    && (s.entry ==> Close !in s.controlQ && !s.displaced)
    && (Alive(s) && !s.entry ==> Close in s.controlQ || s.displaced)
    && !(Close in s.controlQ && s.displaced)
    && (forall k :: 0 <= k < |s.log| && s.log[k].SentClose? ==> k == |s.log| - 1 && s.pump.Done?)
  }

  predicate QueueBounded(s: State) { |s.dataQ| <= CAPACITY }

  /** An agent that sends nothing after EOF: no chunk is accepted or in flight after the mark. */
  predicate ObedientKept(s: State) {
    !s.late && s.eofMark != NO_EOF ==> s.handler.Idle? && |s.accepted| == s.eofMark
  }

  /** The agent's channel is closed exactly once, by the end of the pump. */
  predicate RepliesKept(s: State) {
    && (forall k :: 0 <= k < |s.replies| && s.replies[k].AgentClose? ==> k == |s.replies| - 1)
    && (s.pump.Done? <==> s.replies != [] && s.replies[|s.replies| - 1].AgentClose?)
  }

  /** A failed write stops the data branch; a chunk in hand there was taken before any failure. */
  predicate FailureKept(s: State) {
    (Failed(s.log) ==> s.agentClosed) && (s.pump.Writing? ==> !s.agentClosed)
  }

  ghost predicate Inv(s: State) {
    && StreamKept(s) && EofKept(s) && CloseKept(s) && QueueBounded(s)
    && ObedientKept(s) && RepliesKept(s) && FailureKept(s)
    && SenderKept(s)
  }

  /** The event a step appends to the upstream log, if any. */
  function Logged(s: State, step: Step): seq<Event>
    requires Enabled(s, step)
  {
    match step
    case WriteDone(ok) => [Wrote(s.pump.chunk, ok)]
    case DrainWriteDone(ok) => [Wrote(s.pump.chunk, ok)]
    case EofDone(ok) => [SentEof(ok)]
    case ControlGone => [SentClose]
    case TakeControl => if s.controlQ[0].Close? then [SentClose] else []
    case _ => []
  }

  lemma LogShape(s: State, step: Step)
    requires Enabled(s, step)
    ensures Apply(s, step).log == s.log + Logged(s, step)
    ensures |Logged(s, step)| <= 1
  {
    assert s.log + [] == s.log;
  }

  lemma LogGrows(s: State, step: Step)
    requires Enabled(s, step)
    ensures Apply(s, step).log == s.log + Logged(s, step)
    ensures |Logged(s, step)| <= 1
    ensures Logged(s, step) != [] ==> Snocced(s.log, Logged(s, step)[0])
  {
    LogShape(s, step);
    if Logged(s, step) != [] { Snoc(s.log, Logged(s, step)[0]); }
  }

  predicate Snocced(log: seq<Event>, e: Event) {
    && (log + [e])[..|log|] == log
    && Attempted(log + [e]) == Attempted(log) + (if e.Wrote? then [e.chunk] else [])
    && Written(log + [e]) == Written(log) + (match e case Wrote(c, true) => [c] case _ => [])
    && (Failed(log + [e]) <==> Failed(log) || (e.Wrote? && !e.ok))
  }

  // Steps grouped by who takes them; one lemma per invariant and group keeps the proofs small.

  predicate Callback(step: Step) {
    step.CallData? || step.SendCompletes? || step.CallEof? || step.CallClose? || step.Cleanup? || step.Displace?
  }

  predicate DataBranch(step: Step) { step.TakeData? || step.DataGone? || step.WriteDone? }

  predicate DrainLoop(step: Step) {
    step.DrainTake? || step.DrainEmpty? || step.DrainWriteDone? || step.EofDone?
  }

  predicate SelectBranch(step: Step) {
    step.Connect? || step.TakeUpstream? || step.TakeControl? || step.ControlGone?
  }

  lemma LogFrame(s: State, step: Step)
    requires Enabled(s, step) && Logged(s, step) == []
    ensures Apply(s, step).log == s.log
  {
    LogShape(s, step);
    assert s.log + [] == s.log;
  }

  /** Upstream messages touch nothing but the replies and the life of the pump. */
  lemma UpstreamFrame(s: State, msg: Message, ok: bool)
    ensures var t := OnUpstream(s, msg, ok);
            t == s.(replies := t.replies, pump := t.pump) && (t.pump == s.pump || t.pump.Done?)
  {
  }

  // ------------------------------------------------------------------ one step keeps the stream

  predicate Balanced(attempted: seq<Chunk>, hand: seq<Chunk>, queue: seq<Chunk>, accepted: seq<Chunk>) {
    attempted + hand + queue == accepted
  }

  lemma Grows(attempted: seq<Chunk>, hand: seq<Chunk>, queue: seq<Chunk>, accepted: seq<Chunk>)
    requires Balanced(attempted, hand, queue, accepted)
    ensures forall c :: Balanced(attempted, hand, queue + [c], accepted + [c])
  {
    forall c ensures Balanced(attempted, hand, queue + [c], accepted + [c]) {
      assert attempted + hand + (queue + [c]) == accepted + [c];
    }
  }

  predicate StreamParts(s: State, attempted: seq<Chunk>) {
    Balanced(attempted, InHand(s.pump), s.dataQ, s.accepted)
  }

  lemma StreamCallbacks(s: State, step: Step, attempted: seq<Chunk>)
    requires StreamParts(s, attempted) && Enabled(s, step) && Callback(step)
    ensures StreamParts(Apply(s, step), attempted)
  {
    Grows(attempted, InHand(s.pump), s.dataQ, s.accepted);
  }

  lemma StreamSelect(s: State, step: Step, attempted: seq<Chunk>)
    requires StreamParts(s, attempted) && Enabled(s, step) && SelectBranch(step)
    ensures StreamParts(Apply(s, step), attempted)
  {
    if step.TakeUpstream? { UpstreamFrame(s, step.msg, step.ok); }
  }

  lemma StreamTakes(s: State, step: Step, attempted: seq<Chunk>)
    requires StreamParts(s, attempted) && Enabled(s, step) && (step.TakeData? || step.DrainTake?)
    ensures StreamParts(Apply(s, step), attempted)
  {
    assert s.dataQ == [s.dataQ[0]] + s.dataQ[1..];
  }

  lemma StreamWrites(s: State, step: Step, attempted: seq<Chunk>)
    requires StreamParts(s, attempted) && Enabled(s, step) && (step.WriteDone? || step.DrainWriteDone?)
    ensures StreamParts(Apply(s, step), attempted + InHand(s.pump))
  {
    var hand := InHand(s.pump);
    assert attempted + hand + [] == attempted + hand;
  }

  lemma StreamRests(s: State, step: Step, attempted: seq<Chunk>)
    requires StreamParts(s, attempted) && Enabled(s, step) && (step.DataGone? || step.DrainEmpty? || step.EofDone?)
    ensures StreamParts(Apply(s, step), attempted)
  {
  }

  lemma AttemptedStep(s: State, step: Step)
    requires Enabled(s, step)
    ensures Attempted(Apply(s, step).log) == Attempted(s.log) + Handed(s, step)
  {
    LogGrows(s, step);
    if Logged(s, step) == [] { LogFrame(s, step); }
  }

  lemma StreamStep(s: State, step: Step)
    requires StreamKept(s) && Enabled(s, step)
    ensures StreamKept(Apply(s, step))
  {
    AttemptedStep(s, step);
    StreamPartsStep(s, step, Attempted(s.log));
  }

  /** Chunks handed upstream by a step. */
  function Handed(s: State, step: Step): seq<Chunk> {
    if step.WriteDone? || step.DrainWriteDone? then InHand(s.pump) else []
  }

  lemma StreamPartsStep(s: State, step: Step, attempted: seq<Chunk>)
    requires StreamParts(s, attempted) && Enabled(s, step)
    ensures StreamParts(Apply(s, step), attempted + Handed(s, step))
  {
    assert attempted + [] == attempted;
    if Callback(step) {
      StreamCallbacks(s, step, attempted);
    } else if SelectBranch(step) {
      StreamSelect(s, step, attempted);
    } else if step.TakeData? || step.DrainTake? {
      StreamTakes(s, step, attempted);
    } else if step.WriteDone? || step.DrainWriteDone? {
      StreamWrites(s, step, attempted);
    } else {
      StreamRests(s, step, attempted);
    }
  }

  lemma FailureStep(s: State, step: Step)
    requires FailureKept(s) && Enabled(s, step)
    ensures FailureKept(Apply(s, step))
  {
    LogGrows(s, step);
  }

  lemma QueueStep(s: State, step: Step)
    requires QueueBounded(s) && Enabled(s, step)
    ensures QueueBounded(Apply(s, step))
  {
  }

  /** A suspended `data` callback still has the sender it took from the entry. */
  predicate SenderKept(s: State) { s.handler.Sending? && Alive(s) ==> s.entry || s.displaced }

  lemma SenderCallbacks(s: State, step: Step)
    requires SenderKept(s) && Enabled(s, step) && Callback(step)
    ensures SenderKept(Apply(s, step))
  {
  }

  lemma SenderSelect(s: State, step: Step)
    requires SenderKept(s) && Enabled(s, step) && SelectBranch(step)
    ensures SenderKept(Apply(s, step))
  {
    if step.TakeUpstream? { UpstreamFrame(s, step.msg, step.ok); }
  }

  lemma SenderMoves(s: State, step: Step)
    requires SenderKept(s) && Enabled(s, step) && (DataBranch(step) || DrainLoop(step))
    ensures SenderKept(Apply(s, step))
  {
  }

  lemma SenderStep(s: State, step: Step)
    requires SenderKept(s) && Enabled(s, step)
    ensures SenderKept(Apply(s, step))
  {
    if Callback(step) {
      SenderCallbacks(s, step);
    } else if SelectBranch(step) {
      SenderSelect(s, step);
    } else {
      SenderMoves(s, step);
    }
  }

  // ------------------------------------------------------------------ one step keeps the close discipline

  lemma CloseCallbacks(s: State, step: Step)
    requires CloseKept(s) && Enabled(s, step) && Callback(step)
    ensures CloseKept(Apply(s, step))
  {
  }

  lemma CloseControl(s: State)
    requires CloseKept(s) && Enabled(s, TakeControl)
    ensures CloseKept(Apply(s, TakeControl))
  {
    assert s.controlQ == [s.controlQ[0]] + s.controlQ[1..];
    if s.controlQ[0].Close? { assert |s.controlQ| == 1; }
  }

  lemma CloseSelect(s: State, step: Step)
    requires CloseKept(s) && Enabled(s, step) && SelectBranch(step)
    ensures CloseKept(Apply(s, step))
  {
    if step.TakeControl? { CloseControl(s); }
    if step.TakeUpstream? { UpstreamFrame(s, step.msg, step.ok); }
  }

  lemma CloseData(s: State, step: Step)
    requires CloseKept(s) && Enabled(s, step) && DataBranch(step)
    ensures CloseKept(Apply(s, step))
  {
  }

  lemma CloseDrain(s: State, step: Step)
    requires CloseKept(s) && Enabled(s, step) && DrainLoop(step)
    ensures CloseKept(Apply(s, step))
  {
  }

  /** A close is only queued by its callback, behind EOFs, and nothing is logged after it. */
  lemma CloseStep(s: State, step: Step)
    requires CloseKept(s) && Enabled(s, step)
    ensures CloseKept(Apply(s, step))
  {
    if Callback(step) {
      CloseCallbacks(s, step);
    } else if SelectBranch(step) {
      CloseSelect(s, step);
    } else if DataBranch(step) {
      CloseData(s, step);
    } else {
      CloseDrain(s, step);
    }
  }

  lemma RepliesUpstream(s: State, msg: Message, ok: bool)
    requires RepliesKept(s) && Alive(s)
    ensures RepliesKept(OnUpstream(s, msg, ok))
  {
  }

  lemma RepliesControl(s: State)
    requires RepliesKept(s) && Enabled(s, TakeControl)
    ensures RepliesKept(Apply(s, TakeControl))
  {
  }

  lemma RepliesEnd(s: State, step: Step)
    requires RepliesKept(s) && Enabled(s, step) && (step.Connect? || step.ControlGone?)
    ensures RepliesKept(Apply(s, step))
  {
  }

  lemma RepliesSelect(s: State, step: Step)
    requires RepliesKept(s) && Enabled(s, step) && SelectBranch(step)
    ensures RepliesKept(Apply(s, step))
  {
    if step.TakeUpstream? {
      RepliesUpstream(s, step.msg, step.ok);
    } else if step.TakeControl? {
      RepliesControl(s);
    } else {
      RepliesEnd(s, step);
    }
  }

  predicate SameReplies(s: State, t: State) { t.replies == s.replies && Alive(t) == Alive(s) }

  lemma RepliesCallbacks(s: State, step: Step)
    requires Enabled(s, step) && Callback(step)
    ensures SameReplies(s, Apply(s, step))
  {
  }

  lemma RepliesData(s: State, step: Step)
    requires Enabled(s, step) && DataBranch(step)
    ensures SameReplies(s, Apply(s, step))
  {
  }

  lemma RepliesDrain(s: State, step: Step)
    requires Enabled(s, step) && DrainLoop(step)
    ensures SameReplies(s, Apply(s, step))
  {
  }

  lemma RepliesStep(s: State, step: Step)
    requires RepliesKept(s) && Enabled(s, step)
    ensures RepliesKept(Apply(s, step))
  {
    if SelectBranch(step) {
      RepliesSelect(s, step);
    } else if Callback(step) {
      RepliesCallbacks(s, step);
    } else if DataBranch(step) {
      RepliesData(s, step);
    } else {
      RepliesDrain(s, step);
    }
  }

  // ------------------------------------------------------------------ one step keeps EOF behind its data

  lemma ObedientCallbacks(s: State, step: Step)
    requires ObedientKept(s) && Enabled(s, step) && Callback(step) && s.eofMark >= NO_EOF
    ensures ObedientKept(Apply(s, step))
  {
  }

  predicate SameAgent(s: State, t: State) {
    t.handler == s.handler && t.accepted == s.accepted && t.late == s.late && t.eofMark == s.eofMark
  }

  lemma ObedientSelect(s: State, step: Step)
    requires Enabled(s, step) && SelectBranch(step)
    ensures SameAgent(s, Apply(s, step))
  {
    if step.TakeUpstream? { UpstreamFrame(s, step.msg, step.ok); }
  }

  lemma ObedientMoves(s: State, step: Step)
    requires Enabled(s, step) && (DataBranch(step) || DrainLoop(step))
    ensures SameAgent(s, Apply(s, step))
  {
  }

  lemma ObedientStep(s: State, step: Step)
    requires ObedientKept(s) && Enabled(s, step) && s.eofMark >= NO_EOF
    ensures ObedientKept(Apply(s, step))
  {
    if Callback(step) {
      ObedientCallbacks(s, step);
    } else if SelectBranch(step) {
      ObedientSelect(s, step);
    } else {
      ObedientMoves(s, step);
    }
  }

  ghost predicate EofLog(log: seq<Event>, mark: int) {
    && (forall k :: 0 <= k < |log| && log[k].SentEof? ==> EofInOrder(log[..k], mark))
    && (forall j, k :: 0 <= j < k < |log| && log[j].SentEof? ==> !log[k].SentEof?)
  }

  predicate HasEof(log: seq<Event>) { exists k :: 0 <= k < |log| && log[k].SentEof? }

  lemma EofLogSnoc(log: seq<Event>, e: Event, mark: int)
    requires EofLog(log, mark)
    requires e.SentEof? ==> !HasEof(log) && EofInOrder(log, mark)
    ensures EofLog(log + [e], mark)
    ensures HasEof(log + [e]) <==> HasEof(log) || e.SentEof?
  {
    var t := log + [e];
    assert t[|log|] == e;
    assert forall k :: 0 <= k < |log| ==> t[k] == log[k] && t[..k] == log[..k];
    assert t[..|log|] == log;
    if HasEof(log) {
      var k :| 0 <= k < |log| && log[k].SentEof?;
      assert t[k].SentEof?;
    }
  }

  lemma EofPhaseHandler(s: State, step: Step)
    requires EofPhase(s) && Enabled(s, step) && Callback(step)
    ensures EofPhase(Apply(s, step))
  {
    LogFrame(s, step);
  }

  lemma EofPhaseControl(s: State)
    requires EofPhase(s) && Enabled(s, TakeControl)
    ensures EofPhase(Apply(s, TakeControl))
  {
    assert s.controlQ == [s.controlQ[0]] + s.controlQ[1..];
  }

  lemma EofPhaseDrain(s: State, step: Step)
    requires EofPhase(s) && StreamKept(s) && Enabled(s, step) && DrainLoop(step)
    ensures EofPhase(Apply(s, step))
  {
    if step.DrainEmpty? { assert Attempted(s.log) + [] + [] == s.accepted; }
    if step.DrainWriteDone? { LogGrows(s, step); }
  }

  lemma EofPhaseOther(s: State, step: Step)
    requires EofPhase(s) && Enabled(s, step)
    requires step.Connect? || step.ControlGone? || step.TakeData? || step.DataGone? || step.WriteDone?
    ensures EofPhase(Apply(s, step))
  {
  }

  lemma EofPhaseUpstream(s: State, msg: Message, ok: bool)
    requires EofPhase(s) && s.pump.Selecting?
    ensures EofPhase(OnUpstream(s, msg, ok))
  {
  }

  lemma EofPhaseStep(s: State, step: Step)
    requires EofPhase(s) && StreamKept(s) && Enabled(s, step)
    ensures EofPhase(Apply(s, step))
  {
    if step.TakeControl? {
      EofPhaseControl(s);
    } else if DrainLoop(step) {
      EofPhaseDrain(s, step);
    } else if Callback(step) {
      EofPhaseHandler(s, step);
    } else if step.TakeUpstream? {
      EofPhaseUpstream(s, step.msg, step.ok);
    } else {
      EofPhaseOther(s, step);
    }
  }

  /** Once an EOF is in the log the mark and the flag never change again. */
  lemma EofSettled(s: State, step: Step)
    requires EofPhase(s) && Enabled(s, step)
    ensures EofStays(s, Apply(s, step))
  {
    if Callback(step) {
      EofStaysCallbacks(s, step);
    } else if SelectBranch(step) {
      EofStaysSelect(s, step);
    } else {
      EofStaysMoves(s, step);
    }
  }

  predicate EofStays(s: State, t: State) {
    && (s.eofMark != NO_EOF ==> t.eofMark == s.eofMark)
    && (s.agentEofSent ==> t.agentEofSent)
    && (s.agentEofSent && !s.pump.SendingEof? ==> !t.pump.SendingEof?)
  }

  lemma EofStaysCallbacks(s: State, step: Step)
    requires EofPhase(s) && Enabled(s, step) && Callback(step)
    ensures EofStays(s, Apply(s, step))
  {
  }

  lemma EofStaysSelect(s: State, step: Step)
    requires EofPhase(s) && Enabled(s, step) && SelectBranch(step)
    ensures EofStays(s, Apply(s, step))
  {
    if step.TakeUpstream? { UpstreamFrame(s, step.msg, step.ok); }
  }

  lemma EofStaysMoves(s: State, step: Step)
    requires EofPhase(s) && Enabled(s, step) && (DataBranch(step) || DrainLoop(step))
    ensures EofStays(s, Apply(s, step))
  {
  }

  lemma EofLogStep(s: State, step: Step)
    requires EofKept(s) && Enabled(s, step)
    ensures EofLog(Apply(s, step).log, Apply(s, step).eofMark)
    ensures HasEof(Apply(s, step).log) ==> HasEof(s.log) || step.EofDone?
  {
    EofSettled(s, step);
    if Logged(s, step) == [] {
      LogFrame(s, step);
    } else {
      assert step.CallEof? ==> false;
      EofLogSnoc(s.log, Logged(s, step)[0], s.eofMark);
      LogGrows(s, step);
    }
  }

  lemma EofStep(s: State, step: Step)
    requires EofKept(s) && StreamKept(s) && Enabled(s, step)
    ensures EofKept(Apply(s, step))
  {
    EofPhaseStep(s, step);
    EofLogStep(s, step);
    EofSettled(s, step);
  }

  lemma Keeps(s: State, step: Step)
    requires Inv(s) && Enabled(s, step)
    ensures Inv(Apply(s, step))
  {
    StreamStep(s, step);
    FailureStep(s, step);
    QueueStep(s, step);
    SenderStep(s, step);
    CloseStep(s, step);
    RepliesStep(s, step);
    ObedientStep(s, step);
    EofStep(s, step);
  }

  lemma {:induction false} KeepsAlong(s: State, steps: seq<Step>)
    requires Inv(s) && Valid(s, steps)
    ensures Inv(After(s, steps))
    decreases |steps|
  {
    if steps != [] {
      Keeps(s, steps[0]);
      KeepsAlong(Apply(s, steps[0]), steps[1..]);
    }
  }
}
