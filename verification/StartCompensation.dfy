/** What a failing `/start` takes back, what it takes that was not its own, and whether a retry gets through. */
module StartCompensation {
  import opened Text
  import opened GitRepo
  import opened Worktrees
  import opened S = StartSaga
  import opened StartOutcomes

  predicate CheckedOut(r: Repo, b: string) { exists d :: d in r.worktrees && r.worktrees[d].branch == b }

  /** The compensation removes the branch locally unless git refuses or has it checked out, and on the remote
      unless git refuses. */
  lemma CompensationDropsExactly(s: System, i: nat, a: Answers)
    requires Known(s, i) && s.phases[i] == DroppingLocal(true)
    ensures var (t, b) := (RunAlone(s, i, a), s.requests[i].branch);
            && (b in t.repo.tips <==> b in s.repo.tips && !(a.deleteOk && !CheckedOut(s.repo, b)))
            && (b in t.repo.remote <==> b in s.repo.remote && !a.remoteDeleteOk)
            && t.requests == s.requests && t.phases == s.phases[i := Replied(Broken)]
            && t.repo.worktrees == s.repo.worktrees
            && (b in t.repo.tips ==> t.repo.tips[b] == s.repo.tips[b])
  {
    var b := s.requests[i].branch;
    var dropped := Next(s, i, a);
    var undone := Next(dropped, i, a);
    assert undone.phases[i].Failing?;
    assert RunAlone(s, i, a) == RunAlone(dropped, i, a) == RunAlone(undone, i, a) == Next(undone, i, a);
    assert dropped.repo == DeleteLocalBranch(s.repo, b, a.deleteOk);
    assert undone.repo == DeleteRemoteBranch(dropped.repo, b, a.remoteDeleteOk);
  }

  // ------------------------------------------------------------------ the way into the compensation

  /** From `s` the lone run goes on as from `d`, where the request starts to compensate. */
  ghost predicate LeadsTo(s: System, d: System, i: nat, a: Answers) {
    && Known(s, i) && Known(d, i) && d.requests == s.requests && d.phases == s.phases[i := DroppingLocal(true)]
    && RunAlone(s, i, a) == RunAlone(d, i, a)
  }

  /** Only the remote may differ, and there nothing is missing. */
  predicate SameLocally(r: Repo, q: Repo, b: string) {
    q.tips == r.tips && q.worktrees == r.worktrees && (b in r.remote ==> b in q.remote)
  }

  predicate EndsBroken(s: System, i: nat, a: Answers) {
    Known(s, i) && Known(RunAlone(s, i, a), i) && RunAlone(s, i, a).phases[i] == Replied(Broken)
  }

  lemma RecordedEndsCreated(s: System, i: nat, a: Answers)
    requires Known(s, i) && s.phases[i].Recording? && a.recordOk && i in s.rows
    ensures Known(RunAlone(s, i, a), i) && RunAlone(s, i, a).phases[i] == Replied(Created)
  {
    var t := Next(s, i, a);
    assert RunAlone(s, i, a) == RunAlone(t, i, a) == RunAlone(Next(t, i, a), i, a) == Next(t, i, a);
  }

  lemma BrokenNotRecorded(s: System, i: nat, a: Answers)
    requires EndsBroken(s, i, a) && s.phases[i].Recording?
    ensures Next(s, i, a) == Goto(s, i, DroppingLocal(s.phases[i].pushed))
    ensures RunAlone(s, i, a) == RunAlone(Next(s, i, a), i, a)
  {
    if a.recordOk && i in s.rows { RecordedEndsCreated(s, i, a); }
  }

  lemma FromRecording(s: System, i: nat, a: Answers)
    requires EndsBroken(s, i, a) && s.phases[i].Recording? && s.phases[i].pushed
    ensures LeadsTo(s, Next(s, i, a), i, a) && Next(s, i, a).repo == s.repo
  {
    BrokenNotRecorded(s, i, a);
  }

  lemma FromPushing(s: System, i: nat, a: Answers) returns (d: System)
    requires EndsBroken(s, i, a) && s.phases[i].Pushing?
    ensures LeadsTo(s, d, i, a) && SameLocally(s.repo, d.repo, s.requests[i].branch)
  {
    var t := Next(s, i, a);
    assert RunAlone(s, i, a) == RunAlone(t, i, a);
    d := t;
    if t.phases[i].Recording? {
      FromRecording(t, i, a);
      d := Next(t, i, a);
    }
  }

  lemma FromReading(s: System, i: nat, a: Answers) returns (d: System)
    requires EndsBroken(s, i, a) && s.phases[i].Reading?
    ensures LeadsTo(s, d, i, a) && SameLocally(s.repo, d.repo, s.requests[i].branch)
  {
    var t := Next(s, i, a);
    assert RunAlone(s, i, a) == RunAlone(t, i, a);
    d := t;
    if t.phases[i].Pushing? { d := FromPushing(t, i, a); }
  }

  /** The spec write of request `i`. */
  function SpecWrite(s: System, i: nat, a: Answers): Op
    requires Known(s, i) && s.requests[i].spec.Some?
  {
    Write(s.requests[i].branch, s.requests[i].spec.value.path, s.requests[i].spec.value.content, a.write)
  }

  function AfterWrite(s: System, i: nat, a: Answers): Repo
    requires Known(s, i) && s.requests[i].spec.Some?
  {
    if a.credsOk then Apply(s.repo, SpecWrite(s, i, a)).repo else s.repo
  }

  lemma FromCommitting(s: System, i: nat, a: Answers) returns (d: System)
    requires EndsBroken(s, i, a) && s.phases[i].Committing? && s.requests[i].spec.Some?
    ensures LeadsTo(s, d, i, a) && SameLocally(AfterWrite(s, i, a), d.repo, s.requests[i].branch)
  {
    var t := Next(s, i, a);
    assert RunAlone(s, i, a) == RunAlone(t, i, a);
    assert t.repo == AfterWrite(s, i, a);
    d := t;
    if t.phases[i].Reading? { d := FromReading(t, i, a); }
  }

  // ------------------------------------------------------------------ a reused branch

  predicate LeaksSpecWrite(s: System, i: nat, a: Answers)
    requires Known(s, i)
  {
    s.requests[i].spec.Some? && a.credsOk && Leaks(s.repo, SpecWrite(s, i, a))
  }

  /** A write moves the tip of its branch only forward, and leaves the branch checked out exactly when it was so
      before or the write has leaked its temporary worktree. */
  lemma WriteKeepsBranch(r: Repo, b: string, path: string, content: string, env: WriteEnv)
    requires b in r.tips
    ensures var t := WriteFileAs(r, b, path, content, env).repo;
            && (CheckedOut(t, b) <==> CheckedOut(r, b) || Leaks(r, Write(b, path, content, env)))
            && t.remote == r.remote && b in t.tips && AncestorOf(r.tips[b], t.tips[b])
  {
    WriteWorktrees(r, b, path, content, env);
    var t := WriteFileAs(r, b, path, content, env).repo;
    if d :| d in r.worktrees && r.worktrees[d].branch == b {
      assert d in t.worktrees && t.worktrees[d].branch == b;
    }
    if Leaks(r, Write(b, path, content, env)) {
      assert Tmp(env.tmp) in t.worktrees && t.worktrees[Tmp(env.tmp)].branch == b;
    }
    WriteMovesForward(r, b, path, content, env);
  }

  lemma InnerMovesForward(r: Repo, dir: Dir, path: string, content: string, run: WriteRun, b: string)
    requires b in r.tips
    ensures var t := WriteInWorktree(r, dir, path, content, run).repo;
            t.remote == r.remote && b in t.tips && AncestorOf(r.tips[b], t.tips[b])
  {
    if Usable(r, dir) && run.Written? {
      CommitKeepsCheckouts(r, dir, r.worktrees[dir].index[path := content], run.stamp);
    }
  }

  lemma WriteMovesForward(r: Repo, b: string, path: string, content: string, env: WriteEnv)
    requires b in r.tips
    ensures var t := WriteFileAs(r, b, path, content, env).repo;
            t.remote == r.remote && b in t.tips && AncestorOf(r.tips[b], t.tips[b])
  {
    if PersistentDir(b) in r.worktrees {
      InnerMovesForward(r, PersistentDir(b), path, content, env.run, b);
    } else if env.addOk && CanAdd(r, Tmp(env.tmp), b) {
      InnerMovesForward(WorktreeAdd(r, Tmp(env.tmp), b, true).repo, Tmp(env.tmp), path, content, env.run, b);
    }
  }

  lemma ReusedGoesOn(s: System, i: nat, a: Answers)
    requires Known(s, i) && s.phases[i].Creating? && Reused(s.repo, s.requests[i].branch, a.create)
    ensures Next(s, i, a).repo == s.repo && RunAlone(s, i, a) == RunAlone(Next(s, i, a), i, a)
    ensures Next(s, i, a).requests == s.requests
    ensures Next(s, i, a).phases[i]
            == if s.requests[i].spec.Some? then Committing else Recording(a.create.base.value, false)
  {
  }

  lemma ReusedForDefault(s: System, i: nat, a: Answers)
    requires EndsBroken(s, i, a) && s.phases[i].Recording? && !s.phases[i].pushed
    ensures var (t, b) := (RunAlone(s, i, a), s.requests[i].branch);
            && t.repo == DeleteLocalBranch(s.repo, b, a.deleteOk)
  {
    BrokenNotRecorded(s, i, a);
    var dropping := Next(s, i, a);
    var failing := Next(dropping, i, a);
    assert RunAlone(dropping, i, a) == RunAlone(failing, i, a) == Next(failing, i, a);
  }

  /** A failing `/start` on a branch it has merely reused.  The branch, with all the commits that were there
      before, is lost locally if and only if git does not refuse the delete and the branch is neither checked out
      nor left so by a leaked temporary worktree; it is lost on the remote if and only if the spec was uploaded
      and git does not refuse.  Where it survives locally its old tip is still in its history. */
  lemma ReusedBranchLostExactly(s: System, i: nat, a: Answers)
    requires EndsBroken(s, i, a) && s.phases[i].Creating?
    requires Reused(s.repo, s.requests[i].branch, a.create) && s.requests[i].branch in s.repo.tips
    ensures var (t, b) := (RunAlone(s, i, a).repo, s.requests[i].branch);
            && (b !in t.tips <==> a.deleteOk && !CheckedOut(s.repo, b) && !LeaksSpecWrite(s, i, a))
            && (b in s.repo.remote ==> (b !in t.remote <==> s.requests[i].spec.Some? && a.remoteDeleteOk))
            && (b in t.tips ==> AncestorOf(s.repo.tips[b], t.tips[b]))
  {
    ReusedGoesOn(s, i, a);
    var (next, b, spec) := (Next(s, i, a), s.requests[i].branch, s.requests[i].spec);
    if spec.None? {
      ReusedForDefault(next, i, a);
    } else {
      if a.credsOk { WriteKeepsBranch(s.repo, b, spec.value.path, spec.value.content, a.write); }
      var d := FromCommitting(next, i, a);
      CompensationDropsExactly(d, i, a);
    }
  }

  // ------------------------------------------------------------------ when a start is Created

  /** Every answer is good, and the pull request of the branch is done or never was. */
  predicate Fine(a: Answers) {
    && a.insertOk && a.credsOk && a.readOk && a.recordOk && a.push.Answered?
    && a.create.base.Some? && a.create.firstOk && a.create.removeOk && a.create.deleteOk && a.create.remoteDeleteOk
    && a.create.secondOk && !a.create.pr.Open? && !a.create.pr.Unknown?
    && a.write.addOk && a.write.run.Written? && a.write.removeOk
  }

  /** The branch is checked out somewhere but in its own persistent directory: a leak. */
  predicate Leaked(r: Repo, b: string) {
    exists d :: d in r.worktrees && d != PersistentDir(b) && r.worktrees[d].branch == b
  }

  /** Git keeps the branches of its worktrees. */
  predicate InOrder(r: Repo) { forall d :: d in r.worktrees ==> r.worktrees[d].branch in r.tips }

  /** The commit that a spec makes on the base; none if the base has it already. */
  function OnBase(base: Commit, spec: Spec, stamp: nat): Commit {
    var tree := base.tree[spec.path := spec.content];
    if base.tree == tree then base else Child(base, tree, stamp)
  }

  /** The tip a new branch gets from its spec write, which goes elsewhere if its directory is taken. */
  function NewTip(r: Repo, b: string, spec: Spec, a: Answers): Commit
    requires Fine(a)
  {
    if PersistentDir(b) in r.worktrees then a.create.base.value
    else OnBase(a.create.base.value, spec, a.write.run.stamp)
  }

  predicate Pushable(r: Repo, b: string, tip: Commit) { b !in r.remote || AncestorOf(r.remote[b], tip) }

  /** Nothing on the remote refuses the push of the new branch: there is no push, the old branch is deleted on the
      remote together with its local one, or the remote has no such branch or one the new tip builds upon. */
  predicate RemoteFits(r: Repo, request: Request, a: Answers)
    requires Fine(a)
  {
    || request.spec.None? || request.branch in r.tips
    || Pushable(r, request.branch, NewTip(r, request.branch, request.spec.value, a))
  }

  /** Nothing that earlier attempts have left is in the way of the request. */
  predicate Unhindered(r: Repo, request: Request, a: Answers)
    requires Fine(a)
  {
    !Leaked(r, request.branch) && RemoteFits(r, request, a)
  }

  /** The branch stands at the base and is in no worktree. */
  predicate AtBase(r: Repo, b: string, a: Answers) {
    b in r.tips && Some(r.tips[b]) == a.create.base && !CheckedOut(r, b) && InOrder(r)
  }

  lemma CreateExactly(r: Repo, b: string, a: Answers)
    requires Fine(a) && InOrder(r)
    ensures var did := CreateBranch(r, b, a.create);
            && (did.ok <==> !Leaked(r, b))
            && (did.ok ==> AtBase(did.repo, b, a) && did.repo.worktrees.Keys <= r.worktrees.Keys)
            && (did.ok && b in r.tips ==> b !in did.repo.remote && PersistentDir(b) !in did.repo.worktrees)
            && (did.ok && b !in r.tips ==> did.repo.remote == r.remote && did.repo.worktrees == r.worktrees)
  {
    if b in r.tips {
      RecreateExactly(r, b, a);
    } else {
      assert !Leaked(r, b);
    }
  }

  lemma RecreateExactly(r: Repo, b: string, a: Answers)
    requires Fine(a) && InOrder(r) && b in r.tips
    ensures CreateBranch(r, b, a.create) == RecreateBranch(r, b, a.create.base.value, a.create)
    ensures var did := RecreateBranch(r, b, a.create.base.value, a.create);
            && (did.ok <==> !Leaked(r, b))
            && (did.ok ==> AtBase(did.repo, b, a) && did.repo.worktrees.Keys <= r.worktrees.Keys
                           && b !in did.repo.remote && PersistentDir(b) !in did.repo.worktrees)
  {
    var cleaned := CleanupStaleWorktree(r, b, true);
    assert cleaned.worktrees == r.worktrees - {PersistentDir(b)};
    assert forall d :: d in cleaned.worktrees <==> d in r.worktrees && d != PersistentDir(b);
    if d :| d in r.worktrees && d != PersistentDir(b) && r.worktrees[d].branch == b {
      assert d in cleaned.worktrees && cleaned.worktrees[d].branch == b;
    }
  }

  lemma WriteGoesThrough(r: Repo, b: string, spec: Spec, a: Answers)
    requires Fine(a) && AtBase(r, b, a) && Tmp(a.write.tmp) !in r.worktrees
    ensures var did := WriteFileAs(r, b, spec.path, spec.content, a.write);
            did.ok && b in did.repo.tips && did.repo.remote == r.remote && did.repo.tips[b] == NewTip(r, b, spec, a)
  {
    var (persistent, stamp) := (PersistentDir(b), a.write.run.stamp);
    if persistent in r.worktrees {
      CommitKeepsCheckouts(r, persistent, r.worktrees[persistent].index[spec.path := spec.content], stamp);
    } else {
      var tmp := Tmp(a.write.tmp);
      assert CanAdd(r, tmp, b);
      var added := WorktreeAdd(r, tmp, b, true).repo;
      CommitKeepsCheckouts(added, tmp, added.worktrees[tmp].index[spec.path := spec.content], stamp);
    }
  }

  lemma RefusedEndsBroken(s: System, i: nat, a: Answers)
    requires Known(s, i) && s.phases[i].Pushing? && !PushBranch(s.repo, s.requests[i].branch, a.push).ok
    ensures Known(RunAlone(s, i, a), i) && RunAlone(s, i, a).phases[i] == Replied(Broken)
  {
    var dropping := Next(s, i, a);
    assert RunAlone(s, i, a) == RunAlone(dropping, i, a);
    CompensationDropsExactly(dropping, i, a);
  }

  lemma PushedExactly(s: System, i: nat, a: Answers)
    requires Known(s, i) && s.phases[i].Pushing? && i in s.rows && Fine(a) && s.requests[i].branch in s.repo.tips
    ensures Known(RunAlone(s, i, a), i)
    ensures var b := s.requests[i].branch;
            RunAlone(s, i, a).phases[i] == Replied(if Pushable(s.repo, b, s.repo.tips[b]) then Created else Broken)
  {
    var b := s.requests[i].branch;
    if Pushable(s.repo, b, s.repo.tips[b]) {
      var recording := Next(s, i, a);
      assert RunAlone(s, i, a) == RunAlone(recording, i, a);
      RecordedEndsCreated(recording, i, a);
    } else {
      RefusedEndsBroken(s, i, a);
    }
  }

  lemma CommittedExactly(s: System, i: nat, a: Answers)
    requires Known(s, i) && s.phases[i].Committing? && s.requests[i].spec.Some? && i in s.rows && Fine(a)
    requires AtBase(s.repo, s.requests[i].branch, a) && Tmp(a.write.tmp) !in s.repo.worktrees
    ensures Known(RunAlone(s, i, a), i)
    ensures var (b, spec) := (s.requests[i].branch, s.requests[i].spec.value);
            RunAlone(s, i, a).phases[i]
            == Replied(if Pushable(s.repo, b, NewTip(s.repo, b, spec, a)) then Created else Broken)
  {
    WriteGoesThrough(s.repo, s.requests[i].branch, s.requests[i].spec.value, a);
    var reading := Next(s, i, a);
    assert reading.phases[i].Reading?;
    var pushing := Next(reading, i, a);
    assert pushing.phases[i].Pushing?;
    assert RunAlone(s, i, a) == RunAlone(reading, i, a) == RunAlone(pushing, i, a);
    PushedExactly(pushing, i, a);
  }

  lemma BranchedExactly(s: System, i: nat, a: Answers)
    requires Known(s, i) && s.phases[i].Creating? && i in s.rows && Fine(a) && InOrder(s.repo)
    requires Tmp(a.write.tmp) !in s.repo.worktrees
    ensures Known(RunAlone(s, i, a), i)
    ensures RunAlone(s, i, a).phases[i]
            == Replied(if Unhindered(s.repo, s.requests[i], a) then Created else Broken)
  {
    CreateExactly(s.repo, s.requests[i].branch, a);
    var next := Next(s, i, a);
    assert RunAlone(s, i, a) == RunAlone(next, i, a);
    if next.phases[i].Failing? {
      assert RunAlone(next, i, a) == Next(next, i, a);
    } else if next.phases[i].Recording? {
      RecordedEndsCreated(next, i, a);
    } else {
      CommittedExactly(next, i, a);
    }
  }

  /** With every answer good, whatever earlier attempts have left: a `/start` is Created if and only if no active
      row holds its branch, no leaked worktree has it checked out, and no branch left on the remote refuses the
      push; held, it is a conflict, and else it breaks. */
  lemma CreatedExactly(s: System, i: nat, a: Answers)
    requires Known(s, i) && s.phases[i].Inserting? && Fine(a) && InOrder(s.repo)
    requires Tmp(a.write.tmp) !in s.repo.worktrees
    ensures Known(RunAlone(s, i, a), i)
    ensures RunAlone(s, i, a).phases[i]
            == Replied(if !Free(s.rows, s.requests[i].branch) then Conflict
                       else if Unhindered(s.repo, s.requests[i], a) then Created
                       else Broken)
  {
    var next := Next(s, i, a);
    assert RunAlone(s, i, a) == RunAlone(next, i, a);
    if Free(s.rows, s.requests[i].branch) { BranchedExactly(next, i, a); }
  }

  // ------------------------------------------------------------------ a retry

  lemma NextInOrder(s: System, i: nat, a: Answers)
    requires Known(s, i) && InOrder(s.repo)
    ensures InOrder(Next(s, i, a).repo)
  {
    var (b, spec) := (s.requests[i].branch, s.requests[i].spec);
    if !ChangesRepo(s.phases[i]) {
      RepoStaysElsewhere(s, i, a);
    } else if s.phases[i].Creating? {
      CreateInOrder(s.repo, b, a.create);
    } else if s.phases[i].Committing? {
      if spec.Some? { WriteInOrder(s.repo, b, spec.value, a.write); }
    } else {
      DropInOrder(s.repo, b, a.deleteOk);
    }
  }

  lemma CreateInOrder(r: Repo, b: string, env: CreateEnv)
    requires InOrder(r)
    ensures InOrder(CreateBranch(r, b, env).repo)
  {
  }

  lemma WriteInOrder(r: Repo, b: string, spec: Spec, env: WriteEnv)
    requires InOrder(r)
    ensures InOrder(WriteFileAs(r, b, spec.path, spec.content, env).repo)
  {
    WriteWorktrees(r, b, spec.path, spec.content, env);
  }

  lemma DropInOrder(r: Repo, b: string, ok: bool)
    requires InOrder(r)
    ensures InOrder(DeleteLocalBranch(r, b, ok))
  {
  }

  /** A lone run moves nothing but its own row and phase, and keeps the repository in order. */
  lemma {:induction false} LoneRunIsLocal(s: System, i: nat, a: Answers)
    requires Known(s, i) && InOrder(s.repo)
    ensures OnlyOwnRow(s, RunAlone(s, i, a), i) && InOrder(RunAlone(s, i, a).repo)
    decreases Rank(s.phases[i])
  {
    if !s.phases[i].Replied? {
      StepsBounded(s, i, a);
      NextMovesOwnRowOnly(s, i, a);
      NextInOrder(s, i, a);
      LoneRunIsLocal(Next(s, i, a), i, a);
    }
  }

  lemma FailedRowFrees(s: System, i: nat, a: Answers)
    requires Sane(s) && Known(s, i) && s.phases[i].Failing? && a.failOk && i in s.rows && !s.rows[i].resume
    ensures Free(RunAlone(s, i, a).rows, s.requests[i].branch)
  {
    var (t, b) := (Next(s, i, a), s.requests[i].branch);
    assert RunAlone(s, i, a) == RunAlone(t, i, a) == t;
    assert InFlight(s, i);
    assert t.rows == s.rows[i := s.rows[i].(state := Failed)];
    assert forall j :: j in s.rows && j != i && s.rows[j].branch == b ==> !Holds(s.rows[j]);
  }

  /** Every lone run that ends in an error frees its branch, once its row is marked FAILED. */
  lemma {:induction false} BrokenRunFrees(s: System, i: nat, a: Answers)
    requires Sane(s) && InFlight(s, i) && EndsBroken(s, i, a) && a.failOk && i in s.rows && !s.rows[i].resume
    ensures Free(RunAlone(s, i, a).rows, s.requests[i].branch)
    decreases Rank(s.phases[i])
  {
    if s.phases[i].Failing? {
      FailedRowFrees(s, i, a);
    } else {
      var t := Next(s, i, a);
      SaneStepExactly(s, Step(i, a));
      StepsBounded(s, i, a);
      assert t == Happen(s, Step(i, a)) && RunAlone(s, i, a) == RunAlone(t, i, a);
      NextMovesOwnRowOnly(s, i, a);
      if !t.phases[i].Replied? {
        RowIsKept(s, i, a);
        BrokenRunFrees(t, i, a);
      }
    }
  }

  lemma RowIsKept(s: System, i: nat, a: Answers)
    requires InFlight(s, i) && !s.phases[i].Failing? && i in s.rows
    ensures i in Next(s, i, a).rows && Next(s, i, a).rows[i].resume == s.rows[i].resume
  {
  }

  /** The saga's promise to a retry: after any start that has broken off, wherever it did, and could mark its row
      FAILED, the next start on the branch with every answer good is Created if and only if no leaked worktree has
      the branch checked out and nothing that was left on the remote refuses its push. */
  lemma RetryIsCreatedExactly(s: System, i: nat, a: Answers, j: nat, again: Answers)
    requires Sane(s) && InOrder(s.repo) && InFlight(s, i) && i in s.rows && !s.rows[i].resume
    requires EndsBroken(s, i, a) && a.failOk
    requires Known(s, j) && j != i && s.phases[j].Inserting? && s.requests[j].branch == s.requests[i].branch
    requires Fine(again) && Tmp(again.write.tmp) !in RunAlone(s, i, a).repo.worktrees
    ensures var t := RunAlone(s, i, a);
            && Known(t, j) && Known(RunAlone(t, j, again), j)
            && RunAlone(t, j, again).phases[j]
               == Replied(if Unhindered(t.repo, s.requests[j], again) then Created else Broken)
  {
    BrokenRunFrees(s, i, a);
    LoneRunIsLocal(s, i, a);
    CreatedExactly(RunAlone(s, i, a), j, again);
  }

  /** A start with an uploaded spec that has made or found its branch leaves nothing on the remote once the remote
      delete goes through; what refuses a retry is left by starts from the default branch, by those that could not
      make their branch, and by refused deletes. */
  lemma UploadLeavesNoRemote(s: System, i: nat, a: Answers)
    requires EndsBroken(s, i, a) && s.phases[i].Creating? && s.requests[i].spec.Some?
    requires CreateBranch(s.repo, s.requests[i].branch, a.create).ok && a.remoteDeleteOk
    ensures s.requests[i].branch !in RunAlone(s, i, a).repo.remote
  {
    var next := Next(s, i, a);
    assert next.phases[i].Committing? && RunAlone(s, i, a) == RunAlone(next, i, a);
    var d := FromCommitting(next, i, a);
    CompensationDropsExactly(d, i, a);
  }
}
