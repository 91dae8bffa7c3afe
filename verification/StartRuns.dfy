/** Runs of `/start` that show what its guarantees depend on. */
module StartRuns {
  import opened Text
  import opened GitRepo
  import opened S = StartSaga
  import opened StartOutcomes
  import opened StartCompensation

  const BASE := Root(map[])

  const FINE := Answers(true, CreateEnv(Some(BASE), true, NoPr, true, true, true, true), true,
                        WriteEnv(0, true, Written(0), true), true, Answered, true, true, true, true)

  /** Two requests for one branch, the first with an uploaded spec. */
  const REQUESTS := map[0 := Request("agent/a/x", Some(Spec("x.md", "x"))), 1 := Request("agent/a/x", None)]

  const OPENED := System(map[], Repo(map[], map[], map[]), REQUESTS, map[0 := Inserting, 1 := Inserting], map[])

  const ROW := Row("agent/a/x", Pending, false, None)

  const MADE := Repo(map["agent/a/x" := BASE], map[], map[])

  function At(rows: Rows, repo: Repo, first: Phase, second: Phase, copies: map<nat, Copy>): System {
    System(rows, repo, REQUESTS, map[0 := first, 1 := second], copies)
  }

  lemma {:induction false} More(s: System, events: seq<Event>, e: Event)
    ensures S.After(s, events + [e]) == Happen(S.After(s, events), e)
    decreases |events|
  {
    if events == [] {
      assert [] + [e] == [e] && [e][1..] == [];
    } else {
      assert (events + [e])[1..] == events[1..] + [e];
      More(Happen(s, events[0]), events[1..], e);
    }
  }

  lemma TwoMore(s: System, events: seq<Event>, e: Event, f: Event)
    ensures S.After(s, events + [e] + [f]) == Happen(Happen(S.After(s, events), e), f)
  {
    More(s, events, e);
    More(s, events + [e], f);
  }

  lemma OpenedIsQuiet()
    ensures Quiet(OPENED)
  {
  }

  // ------------------------------------------------------------------ a row retired under its request

  lemma FirstBranches()
    ensures Happen(Happen(OPENED, Step(0, FINE)), Step(0, FINE))
         == At(map[0 := ROW], MADE, Committing, Inserting, map[])
  {
    assert Happen(OPENED, Step(0, FINE)) == At(map[0 := ROW], Repo(map[], map[], map[]), Creating, Inserting, map[]);
  }

  lemma FirstIsRetired()
    ensures Happen(Happen(At(map[0 := ROW], MADE, Committing, Inserting, map[]), Step(0, FINE.(credsOk := false))),
                   Rewrite(0, Finished, false))
         == At(map[0 := ROW.(state := Finished)], MADE, DroppingLocal(true), Inserting, map[])
  {
    assert Happen(At(map[0 := ROW], MADE, Committing, Inserting, map[]), Step(0, FINE.(credsOk := false)))
        == At(map[0 := ROW], MADE, DroppingLocal(true), Inserting, map[]);
  }

  lemma SecondBranches()
    ensures Happen(Happen(At(map[0 := ROW.(state := Finished)], MADE, DroppingLocal(true), Inserting, map[]),
                          Step(1, FINE)), Step(1, FINE))
         == At(map[0 := ROW.(state := Finished), 1 := ROW], MADE, DroppingLocal(true), Recording(BASE, false), map[])
  {
    assert Happen(At(map[0 := ROW.(state := Finished)], MADE, DroppingLocal(true), Inserting, map[]), Step(1, FINE))
        == At(map[0 := ROW.(state := Finished), 1 := ROW], MADE, DroppingLocal(true), Creating, map[]);
  }

  lemma SecondReplies()
    ensures Happen(Happen(At(map[0 := ROW.(state := Finished), 1 := ROW], MADE, DroppingLocal(true),
                             Recording(BASE, false), map[]), Step(1, FINE)), Step(1, FINE))
         == At(map[0 := ROW.(state := Finished), 1 := ROW.(sha := Some(BASE))], MADE, DroppingLocal(true),
               Replied(Created), map[])
  {
    assert Happen(At(map[0 := ROW.(state := Finished), 1 := ROW], MADE, DroppingLocal(true), Recording(BASE, false),
                     map[]), Step(1, FINE))
        == At(map[0 := ROW.(state := Finished), 1 := ROW.(sha := Some(BASE))], MADE, DroppingLocal(true),
              Replying(BASE), map[]);
  }

  lemma FirstDrops()
    ensures var t := Happen(At(map[0 := ROW.(state := Finished), 1 := ROW.(sha := Some(BASE))], MADE,
                               DroppingLocal(true), Replied(Created), map[]), Step(0, FINE));
            && t.phases[1] == Replied(Created) && t.rows[1] == ROW.(sha := Some(BASE))
            && "agent/a/x" !in t.repo.tips
  {
  }

  lemma RetiredWhileDropping() returns (events: seq<Event>)
    ensures S.After(OPENED, events)
         == At(map[0 := ROW.(state := Finished)], MADE, DroppingLocal(true), Inserting, map[])
  {
    events := [];
    TwoMore(OPENED, events, Step(0, FINE), Step(0, FINE));
    events := events + [Step(0, FINE)] + [Step(0, FINE)];
    FirstBranches();
    TwoMore(OPENED, events, Step(0, FINE.(credsOk := false)), Rewrite(0, Finished, false));
    events := events + [Step(0, FINE.(credsOk := false))] + [Rewrite(0, Finished, false)];
    FirstIsRetired();
  }

  lemma SuccessorIsCreated() returns (events: seq<Event>)
    ensures S.After(OPENED, events)
         == At(map[0 := ROW.(state := Finished), 1 := ROW.(sha := Some(BASE))], MADE, DroppingLocal(true),
               Replied(Created), map[])
  {
    events := RetiredWhileDropping();
    TwoMore(OPENED, events, Step(1, FINE), Step(1, FINE));
    events := events + [Step(1, FINE)] + [Step(1, FINE)];
    SecondBranches();
    TwoMore(OPENED, events, Step(1, FINE), Step(1, FINE));
    events := events + [Step(1, FINE)] + [Step(1, FINE)];
    SecondReplies();
  }

  /** The first start fails to read credentials; before it compensates its row is cancelled and a second start
      runs through.  The compensation then deletes the branch of that other, successful start. */
  lemma CancelledStartDeletesSuccessor() returns (events: seq<Event>)
    ensures var t := S.After(OPENED, events);
            && 1 in t.phases && t.phases[1] == Replied(Created)
            && 1 in t.rows && Holds(t.rows[1]) && t.rows[1].sha == Some(BASE)
            && "agent/a/x" !in t.repo.tips
  {
    events := SuccessorIsCreated();
    More(OPENED, events, Step(0, FINE));
    events := events + [Step(0, FINE)];
    FirstDrops();
  }

  // ------------------------------------------------------------------ a stale tick

  const SPEC := Child(BASE, map["x.md" := "x"], 0)

  const STALE := map[7 := Copy(0, None)]

  const HELD := Repo(map["agent/a/x" := SPEC], map[], map[])

  const SENT := Repo(map["agent/a/x" := SPEC], map["agent/a/x" := SPEC], map[])

  lemma TickReads()
    ensures Happen(Happen(OPENED, Step(0, FINE)), Read(7, 0))
         == At(map[0 := ROW], Repo(map[], map[], map[]), Creating, Inserting, STALE)
  {
    assert Happen(OPENED, Step(0, FINE)) == At(map[0 := ROW], Repo(map[], map[], map[]), Creating, Inserting, map[]);
  }

  lemma SpecIsWritten()
    ensures WriteFileAs(MADE, "agent/a/x", "x.md", "x", FINE.write) == Did(HELD, true)
  {
    var b := "agent/a/x";
    assert CanAdd(MADE, Tmp(0), b);
    var added := WorktreeAdd(MADE, Tmp(0), b, true).repo;
    var empty: Tree := map[];
    assert empty["x.md" := "x"] == map["x.md" := "x"];
    assert empty != map["x.md" := "x"] by { assert "x.md" in map["x.md" := "x"]; }
    var wrote := WriteInWorktree(added, Tmp(0), "x.md", "x", Written(0)).repo;
    assert wrote.tips == map[b := SPEC];
    assert wrote.worktrees - {Tmp(0)} == map[];
  }

  lemma BranchIsMade()
    ensures Happen(At(map[0 := ROW], Repo(map[], map[], map[]), Creating, Inserting, STALE), Step(0, FINE))
         == At(map[0 := ROW], MADE, Committing, Inserting, STALE)
  {
  }

  lemma SpecIsCommitted()
    ensures Happen(At(map[0 := ROW], MADE, Committing, Inserting, STALE), Step(0, FINE))
         == At(map[0 := ROW], HELD, Reading, Inserting, STALE)
  {
    SpecIsWritten();
  }

  lemma SpecIsRead()
    ensures Happen(At(map[0 := ROW], HELD, Reading, Inserting, STALE), Step(0, FINE))
         == At(map[0 := ROW], HELD, Pushing(SPEC), Inserting, STALE)
  {
  }

  lemma SpecIsPushed()
    ensures Happen(At(map[0 := ROW], HELD, Pushing(SPEC), Inserting, STALE), Step(0, FINE))
         == At(map[0 := ROW], SENT, Recording(SPEC, true), Inserting, STALE)
  {
    assert PushBranch(HELD, "agent/a/x", Answered) == Did(SENT, true);
  }

  lemma ShaIsLost()
    ensures Happen(Happen(At(map[0 := ROW], SENT, Recording(SPEC, true), Inserting, STALE), Step(0, FINE)),
                   Land(7, Running, None))
         == At(map[0 := ROW.(state := Running)], SENT, Replying(SPEC), Inserting, STALE)
  {
    assert Happen(At(map[0 := ROW], SENT, Recording(SPEC, true), Inserting, STALE), Step(0, FINE))
        == At(map[0 := ROW.(sha := Some(SPEC))], SENT, Replying(SPEC), Inserting, STALE);
  }

  lemma TickWaits() returns (events: seq<Event>)
    ensures S.After(OPENED, events) == At(map[0 := ROW], SENT, Recording(SPEC, true), Inserting, STALE)
  {
    events := [];
    TwoMore(OPENED, events, Step(0, FINE), Read(7, 0));
    events := events + [Step(0, FINE)] + [Read(7, 0)];
    TickReads();
    TwoMore(OPENED, events, Step(0, FINE), Step(0, FINE));
    events := events + [Step(0, FINE)] + [Step(0, FINE)];
    BranchIsMade();
    SpecIsCommitted();
    TwoMore(OPENED, events, Step(0, FINE), Step(0, FINE));
    events := events + [Step(0, FINE)] + [Step(0, FINE)];
    SpecIsRead();
    SpecIsPushed();
  }

  lemma TickLands() returns (events: seq<Event>)
    ensures S.After(OPENED, events) == At(map[0 := ROW.(state := Running)], SENT, Replying(SPEC), Inserting, STALE)
  {
    events := TickWaits();
    TwoMore(OPENED, events, Step(0, FINE), Land(7, Running, None));
    events := events + [Step(0, FINE)] + [Land(7, Running, None)];
    ShaIsLost();
  }

  /** A tick reads the row right after its insert and writes it back, moved on to the next state, right after
      `/start` has recorded the SHA of the committed spec: Created is answered for a row without SHA. */
  lemma StaleTickNullsSha() returns (events: seq<Event>)
    ensures Sane(OPENED) && Blank(OPENED)
    ensures var t := S.After(OPENED, events);
            && 0 in t.phases && t.phases[0] == Replied(Created) && t.repo == SENT
            && 0 in t.rows && Holds(t.rows[0]) && t.rows[0].sha == None
  {
    OpenedIsQuiet();
    QuietIsSane(OPENED);
    events := TickLands();
    More(OPENED, events, Step(0, FINE));
    events := events + [Step(0, FINE)];
  }

  // ------------------------------------------------------------------ a reused branch

  /** Pull request state unknown: an existing branch is kept. */
  const UNSURE := FINE.(create := FINE.create.(pr := Unknown))

  const USED := OPENED.(repo := SENT)

  lemma ReusedRecords()
    ensures Happen(Happen(USED, Step(1, UNSURE)), Step(1, UNSURE))
         == At(map[1 := ROW], SENT, Inserting, Recording(BASE, false), map[])
  {
    assert Happen(USED, Step(1, UNSURE)) == At(map[1 := ROW], SENT, Inserting, Creating, map[]);
  }

  /** A start from the default branch on a branch with a commit of its own records the base as its SHA. */
  lemma WrongShaReached() returns (events: seq<Event>)
    ensures var t := S.After(USED, events);
            && 1 in t.phases && t.phases[1] == Replied(Created) && t.repo == SENT
            && 1 in t.rows && t.rows[1].sha == Some(BASE) && BASE != SPEC
  {
    events := [];
    TwoMore(USED, events, Step(1, UNSURE), Step(1, UNSURE));
    events := events + [Step(1, UNSURE)] + [Step(1, UNSURE)];
    ReusedRecords();
    TwoMore(USED, events, Step(1, UNSURE), Step(1, UNSURE));
    events := events + [Step(1, UNSURE)] + [Step(1, UNSURE)];
  }

  lemma ReusedDrops()
    ensures var fails := UNSURE.(recordOk := false);
            Happen(Happen(At(map[1 := ROW], SENT, Inserting, Recording(BASE, false), map[]), Step(1, fails)),
                   Step(1, fails)) == At(map[1 := ROW], STRANDED, Inserting, Failing, map[])
  {
    var fails := UNSURE.(recordOk := false);
    assert Happen(At(map[1 := ROW], SENT, Inserting, Recording(BASE, false), map[]), Step(1, fails))
        == At(map[1 := ROW], SENT, Inserting, DroppingLocal(false), map[]);
  }

  /** And one that cannot record it deletes the branch it has found, the commit with it. */
  lemma ReusedBranchLostReached() returns (events: seq<Event>)
    ensures var t := S.After(USED, events);
            && 1 in t.phases && t.phases[1] == Replied(Broken)
            && "agent/a/x" in USED.repo.tips && "agent/a/x" !in t.repo.tips
  {
    var fails := UNSURE.(recordOk := false);
    events := [];
    TwoMore(USED, events, Step(1, UNSURE), Step(1, UNSURE));
    events := events + [Step(1, UNSURE)] + [Step(1, UNSURE)];
    ReusedRecords();
    TwoMore(USED, events, Step(1, fails), Step(1, fails));
    events := events + [Step(1, fails)] + [Step(1, fails)];
    ReusedDrops();
    More(USED, events, Step(1, fails));
    events := events + [Step(1, fails)];
  }

  // ------------------------------------------------------------------ a branch left on the remote

  /** A retry comes later than the attempt before it, so its commit differs. */
  const AGAIN := FINE.(write := FINE.write.(run := Written(1)))

  const STRANDED := Repo(map[], map["agent/a/x" := SPEC], map[])

  const UPLOADS :=
    map[0 := Request("agent/a/x", Some(Spec("x.md", "x"))), 1 := Request("agent/a/x", Some(Spec("x.md", "x")))]

  /** Request 0 at some phase, with request 1 still to come. */
  function Lone(rows: Rows, repo: Repo, phase: Phase): System {
    System(rows, repo, UPLOADS, map[0 := phase, 1 := Inserting], map[])
  }

  /** The push arrives without an answer, and the delete on the remote is refused. */
  const STRANDS := FINE.(push := AnswerLost, remoteDeleteOk := false)

  /** A branch that is free but still on the remote, with no commit of the retry, refuses its push. */
  lemma StrandedRefuses(s: System, i: nat)
    requires Known(s, i) && s.phases[i].Inserting? && s.repo == STRANDED && Free(s.rows, "agent/a/x")
    requires s.requests[i] == Request("agent/a/x", Some(Spec("x.md", "x")))
    ensures Known(RunAlone(s, i, AGAIN), i) && RunAlone(s, i, AGAIN).phases[i] == Replied(Broken)
  {
    var spec := Spec("x.md", "x");
    assert NewTip(STRANDED, "agent/a/x", spec, AGAIN) == OnBase(BASE, spec, 1);
    assert !AncestorOf(SPEC, BASE) && !AncestorOf(SPEC, Child(BASE, BASE.tree["x.md" := "x"], 1));
    CreatedExactly(s, i, AGAIN);
  }

  lemma StrandsWrites()
    ensures RunAlone(Lone(map[], Repo(map[], map[], map[]), Inserting), 0, STRANDS)
         == RunAlone(Lone(map[0 := ROW], HELD, Reading), 0, STRANDS)
  {
    var inserting := Lone(map[], Repo(map[], map[], map[]), Inserting);
    var creating := Lone(map[0 := ROW], Repo(map[], map[], map[]), Creating);
    var committing := Lone(map[0 := ROW], MADE, Committing);
    assert Next(inserting, 0, STRANDS) == creating;
    assert Next(creating, 0, STRANDS) == committing;
    SpecIsWritten();
    assert Next(committing, 0, STRANDS) == Lone(map[0 := ROW], HELD, Reading);
    assert RunAlone(inserting, 0, STRANDS) == RunAlone(creating, 0, STRANDS) == RunAlone(committing, 0, STRANDS);
  }

  lemma StrandsPushes()
    ensures RunAlone(Lone(map[0 := ROW], HELD, Reading), 0, STRANDS)
         == RunAlone(Lone(map[0 := ROW], SENT, DroppingLocal(true)), 0, STRANDS)
  {
    var reading := Lone(map[0 := ROW], HELD, Reading);
    var pushing := Lone(map[0 := ROW], HELD, Pushing(SPEC));
    assert Next(reading, 0, STRANDS) == pushing;
    assert Next(pushing, 0, STRANDS) == Lone(map[0 := ROW], SENT, DroppingLocal(true));
    assert RunAlone(reading, 0, STRANDS) == RunAlone(pushing, 0, STRANDS);
  }

  lemma StrandsDrops()
    ensures RunAlone(Lone(map[0 := ROW], SENT, DroppingLocal(true)), 0, STRANDS)
         == RunAlone(Lone(map[0 := ROW], STRANDED, Failing), 0, STRANDS)
  {
    var dropping := Lone(map[0 := ROW], SENT, DroppingLocal(true));
    var remote := Lone(map[0 := ROW], STRANDED, DroppingRemote);
    assert Next(dropping, 0, STRANDS) == remote;
    assert Next(remote, 0, STRANDS) == Lone(map[0 := ROW], STRANDED, Failing);
    assert RunAlone(dropping, 0, STRANDS) == RunAlone(remote, 0, STRANDS);
  }

  lemma StrandsFails()
    ensures RunAlone(Lone(map[0 := ROW], STRANDED, Failing), 0, STRANDS)
         == Lone(map[0 := ROW.(state := Failed)], STRANDED, Replied(Broken))
  {
    var failing := Lone(map[0 := ROW], STRANDED, Failing);
    var replied := Lone(map[0 := ROW.(state := Failed)], STRANDED, Replied(Broken));
    assert Next(failing, 0, STRANDS) == replied;
    assert RunAlone(failing, 0, STRANDS) == RunAlone(replied, 0, STRANDS) == replied;
  }

  /** An upload whose push arrives without an answer and whose clean-up reaches only the local branch: the branch
      is free, yet a retry with every answer good breaks at its push. */
  lemma StrandedUploadReached()
    ensures var t := RunAlone(Lone(map[], Repo(map[], map[], map[]), Inserting), 0, STRANDS);
            && Known(t, 0) && Known(t, 1) && t.phases[0] == Replied(Broken)
            && Free(t.rows, "agent/a/x") && !Leaked(t.repo, "agent/a/x")
            && Known(RunAlone(t, 1, AGAIN), 1) && RunAlone(t, 1, AGAIN).phases[1] == Replied(Broken)
  {
    StrandsWrites();
    StrandsPushes();
    StrandsDrops();
    StrandsFails();
    StrandedRefuses(Lone(map[0 := ROW.(state := Failed)], STRANDED, Replied(Broken)), 1);
  }

  lemma UnsureRecords()
    ensures RunAlone(USED, 1, UNSURE.(recordOk := false))
         == RunAlone(At(map[1 := ROW], SENT, Inserting, Recording(BASE, false), map[]), 1, UNSURE.(recordOk := false))
  {
    var fails := UNSURE.(recordOk := false);
    ReusedRecords();
    assert Next(Next(USED, 1, fails), 1, fails) == At(map[1 := ROW], SENT, Inserting, Recording(BASE, false), map[]);
    assert RunAlone(USED, 1, fails) == RunAlone(Next(USED, 1, fails), 1, fails);
  }

  lemma UnsureFails()
    ensures RunAlone(At(map[1 := ROW], STRANDED, Inserting, Failing, map[]), 1, UNSURE.(recordOk := false))
         == At(map[1 := ROW.(state := Failed)], STRANDED, Inserting, Replied(Broken), map[])
  {
    var fails := UNSURE.(recordOk := false);
    var failing := At(map[1 := ROW], STRANDED, Inserting, Failing, map[]);
    var replied := At(map[1 := ROW.(state := Failed)], STRANDED, Inserting, Replied(Broken), map[]);
    assert Next(failing, 1, fails) == replied;
    assert RunAlone(failing, 1, fails) == RunAlone(replied, 1, fails) == replied;
  }

  lemma UnsureDrops()
    ensures RunAlone(At(map[1 := ROW], SENT, Inserting, Recording(BASE, false), map[]), 1, UNSURE.(recordOk := false))
         == At(map[1 := ROW.(state := Failed)], STRANDED, Inserting, Replied(Broken), map[])
  {
    var fails := UNSURE.(recordOk := false);
    var recording := At(map[1 := ROW], SENT, Inserting, Recording(BASE, false), map[]);
    ReusedDrops();
    assert RunAlone(recording, 1, fails) == RunAlone(Next(recording, 1, fails), 1, fails)
        == RunAlone(Next(Next(recording, 1, fails), 1, fails), 1, fails);
    UnsureFails();
  }

  /** The same without any refused delete: a start from the default branch that compensates for a branch it has
      reused leaves that branch on the remote, and an upload after it breaks at its push. */
  lemma StrandedDefaultReached()
    ensures var t := RunAlone(USED, 1, UNSURE.(recordOk := false));
            && Known(t, 0) && Known(t, 1) && t.phases[1] == Replied(Broken)
            && Free(t.rows, "agent/a/x") && !Leaked(t.repo, "agent/a/x")
            && Known(RunAlone(t, 0, AGAIN), 0) && RunAlone(t, 0, AGAIN).phases[0] == Replied(Broken)
  {
    UnsureRecords();
    UnsureDrops();
    StrandedRefuses(At(map[1 := ROW.(state := Failed)], STRANDED, Inserting, Replied(Broken), map[]), 0);
  }
}
