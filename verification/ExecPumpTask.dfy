/** The pump task and the handler callbacks in the source's own form, each shown to be a run of the
    step relation when nothing interleaves. */
module ExecPumpTask {
  import opened ExecPump

  class PumpTask {
    var entry: bool
    var dataQ: seq<Chunk>
    var controlQ: seq<Control>
    var running: bool
    var agentEofSent: bool
    var agentClosed: bool
    var log: seq<Event>
    var replies: seq<Reply>
    ghost var accepted: seq<Chunk>
    ghost var eofMark: int
    ghost var late: bool
    ghost var displaced: bool

    /** The pump connected and about to select, with no callback suspended. */
    constructor ()
      ensures Valid(INIT, [Connect(true)]) && View() == After(INIT, [Connect(true)])
    {
      entry, dataQ, controlQ, running := true, [], [], true;
      agentEofSent, agentClosed, log, replies := false, false, [], [];
      accepted, eofMark, late, displaced := [], NO_EOF, false, false;
      new;
      RunSnoc(INIT, [], Connect(true));
      assert [] + [Connect(true)] == [Connect(true)];
    }

    ghost function At(pump: Pump): State
      reads this
    {
      State(Idle, entry, dataQ, controlQ, pump, agentEofSent, agentClosed, log, replies,
            accepted, eofMark, late, displaced)
    }

    ghost function View(): State
      reads this
    {
      At(if running then Selecting else Done)
    }

    /** The `data` callback when the queue has room; a full queue suspends it instead. */
    method Data(bytes: Chunk) returns (ghost steps: seq<Step>)
      requires entry && running ==> |dataQ| < CAPACITY
      modifies `dataQ, `accepted, `late
      ensures Valid(old(View()), steps) && View() == After(old(View()), steps)
      ensures old(entry && running) ==> dataQ == old(dataQ) + [bytes]
    {
      ghost var was := View();
      if entry {
        late := late || eofMark != NO_EOF;
      }
      steps := [CallData(bytes)];
      RunSnoc(was, [], CallData(bytes));
      assert [] + [CallData(bytes)] == steps;
      if entry {
        if running {
          dataQ := dataQ + [bytes];
          accepted := accepted + [bytes];
        }
        RunSnoc(was, steps, SendCompletes);
        steps := steps + [SendCompletes];
      }
    }

    method ChannelEof()
      modifies `controlQ, `eofMark
      ensures View() == Apply(old(View()), CallEof)
    {
      if entry {
        eofMark := if eofMark == NO_EOF then |accepted| else eofMark;
        if running {
          controlQ := controlQ + [Eof];
        }
      }
    }

    method ChannelClose()
      modifies `controlQ, `entry
      ensures View() == Apply(old(View()), CallClose)
    {
      if entry {
        entry := false;
        if running {
          controlQ := controlQ + [Close];
        }
      }
    }

    /** Another pump's senders take the place of this one's, or another pump's cleanup removes them. */
    method LoseSenders()
      requires entry
      modifies `entry, `displaced
      ensures View() == Apply(old(View()), Displace)
    {
      entry := false;
      displaced := true;
    }

    /** Flush the buffered chunks before the EOF; `writeOk` says how each upstream write ends. */
    method Drain(writeOk: nat -> bool, ghost start: State, ghost before: seq<Step>) returns (ghost steps: seq<Step>)
      requires Valid(start, before) && After(start, before) == At(Draining)
      modifies `dataQ, `log, `agentClosed, `agentEofSent
      ensures agentEofSent
      ensures Valid(start, steps) && After(start, steps) == At(SendingEof)
    {
      steps := before;
      var n := 0;
      while dataQ != []
        invariant Valid(start, steps) && After(start, steps) == At(Draining)
        decreases |dataQ|
      {
        var bytes := dataQ[0];
        var ok := writeOk(n);
        RunTwo(start, steps, DrainTake, DrainWriteDone(ok));
        steps := steps + [DrainTake] + [DrainWriteDone(ok)];
        dataQ := dataQ[1..];
        log := log + [Wrote(bytes, ok)];
        if !ok {
          agentClosed := true;
          agentEofSent := true;
          return;
        }
        n := n + 1;
      }
      RunSnoc(start, steps, DrainEmpty);
      steps := steps + [DrainEmpty];
      agentEofSent := true;
    }

    method DrainAndSendEof(writeOk: nat -> bool, eofOk: bool, ghost start: State, ghost before: seq<Step>)
      returns (ghost steps: seq<Step>)
      requires Valid(start, before) && After(start, before) == At(Draining)
      modifies `dataQ, `log, `agentClosed, `agentEofSent
      ensures Valid(start, steps) && After(start, steps) == At(Selecting)
    {
      steps := Drain(writeOk, start, before);
      log := log + [SentEof(eofOk)];
      RunSnoc(start, steps, EofDone(eofOk));
      steps := steps + [EofDone(eofOk)];
    }

    /** The control branch of the select loop. */
    method ControlBranch(writeOk: nat -> bool, eofOk: bool) returns (ghost steps: seq<Step>)
      requires running && controlQ != []
      modifies this
      ensures Valid(old(View()), steps) && View() == After(old(View()), steps)
      ensures running <==> old(controlQ[0]) == Eof
    {
      ghost var was := View();
      var control := controlQ[0];
      controlQ := controlQ[1..];
      RunSnoc(was, [], TakeControl);
      steps := [TakeControl];
      assert [] + steps == steps;
      match control {
        case Eof =>
          if !agentEofSent {
            steps := DrainAndSendEof(writeOk, eofOk, was, steps);
          }
        case Close =>
          log := log + [SentClose];
          replies := replies + [AgentClose];
          running := false;
      }
    }

    /** The data branch of the select loop. */
    method DataBranch(writeOk: bool) returns (ghost steps: seq<Step>)
      requires running && !agentClosed && dataQ != []
      modifies `dataQ, `log, `agentClosed
      ensures Valid(old(View()), steps) && View() == After(old(View()), steps)
      ensures agentClosed == !writeOk && dataQ == old(dataQ[1..])
    {
      ghost var was := View();
      var bytes := dataQ[0];
      dataQ := dataQ[1..];
      RunSnoc(was, [], TakeData);
      log := log + [Wrote(bytes, writeOk)];
      if !writeOk {
        agentClosed := true;
      }
      assert [] + [TakeData] == [TakeData];
      RunSnoc(was, [TakeData], WriteDone(writeOk));
      steps := [TakeData] + [WriteDone(writeOk)];
    }

    /** The upstream branch of the select loop; `ok` says whether the agent took forwarded data. */
    method UpstreamBranch(msg: Message, ok: bool)
      requires running
      modifies `replies, `running
      ensures View() == Apply(old(View()), TakeUpstream(msg, ok))
    {
      match msg {
        case Data(bytes) =>
          if ok {
            replies := replies + [Forward(bytes)];
          } else {
            replies := replies + [Status(1), AgentClose];
            running := false;
          }
        case ExitStatus(code) =>
          replies := replies + [Status(code), AgentEof, AgentClose];
          running := false;
        case UpstreamEof =>
          replies := replies + [AgentEof];
        case UpstreamClose =>
          replies := replies + [AgentClose];
          running := false;
        case Disconnected =>
          replies := replies + [Status(1), AgentClose];
          running := false;
        case Other =>
      }
    }
  }
}
