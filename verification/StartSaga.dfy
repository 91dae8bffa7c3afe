/** `/start` as a saga over the loop store and the repository: its compensations, and any number of
    concurrent starts interleaved with the reconciler. */
module StartSaga {
  import opened Text
  import opened GitRepo
  import opened Worktrees

  /** Running stands for the non-terminal states behind PENDING, Finished for the terminal ones other than FAILED. */
  datatype LoopState = Pending | Running | Failed | Finished

  datatype Row = Row(branch: string, state: LoopState, resume: bool, sha: Option<Commit>)

  type Rows = map<nat, Row>

  /** The partial unique index covers these rows. */
  predicate Holds(row: Row) { row.state.Pending? || row.state.Running? || (row.state.Failed? && row.resume) }

  predicate Free(rows: Rows, branch: string) {
    forall id :: id in rows && rows[id].branch == branch ==> !Holds(rows[id])
  }

  predicate OneHolder(rows: Rows) {
    forall i, j :: i in rows && j in rows && rows[i].branch == rows[j].branch && Holds(rows[i]) && Holds(rows[j]) ==>
      i == j
  }

  datatype Spec = Spec(path: string, content: string)

  datatype Request = Request(branch: string, spec: Option<Spec>)

  datatype Reply = Created | Conflict | NotInserted | Broken

  /** What a request does next. */
  datatype Phase =
    | Inserting
    | Creating
    | Committing
    | Reading
    | Pushing(sha: Commit)
    | Recording(sha: Commit, pushed: bool)
    | Replying(sha: Commit)
    | DroppingLocal(remoteToo: bool)
    | DroppingRemote
    | Failing
    | Replied(reply: Reply)

  /** How the database and git answer one step. */
  datatype Answers = Answers(insertOk: bool, create: CreateEnv, credsOk: bool, write: WriteEnv, readOk: bool,
                             push: PushRun, recordOk: bool, deleteOk: bool, remoteDeleteOk: bool, failOk: bool)

  /** A row as somebody else has read it, to be written back later as a whole. */
  datatype Copy = Copy(id: nat, sha: Option<Commit>)

  /** The row of request `i` has id `i`; `copies` are those held by ticks of the reconciler and by the
      handlers that rewrite whole rows. */
  datatype System = System(rows: Rows, repo: Repo, requests: map<nat, Request>, phases: map<nat, Phase>,
                           copies: map<nat, Copy>)

  predicate Known(s: System, i: nat) { i in s.requests && i in s.phases }

  predicate InFlight(s: System, i: nat) { Known(s, i) && !s.phases[i].Inserting? && !s.phases[i].Replied? }

  function Goto(s: System, i: nat, phase: Phase): System { s.(phases := s.phases[i := phase]) }

  /** An UPDATE of a row, which the index refuses if it would make a second holder. */
  function Update(rows: Rows, id: nat, row: Row): Rows
    requires id in rows
  {
    if Holds(row) && !Holds(rows[id]) && !Free(rows, row.branch) then rows else rows[id := row]
  }

  /** One step of request `i`. */
  function Next(s: System, i: nat, a: Answers): System
    requires Known(s, i)
  {
    var (b, spec) := (s.requests[i].branch, s.requests[i].spec);
    match s.phases[i]
    case Inserting =>
      if !a.insertOk then Goto(s, i, Replied(NotInserted))
      else if !Free(s.rows, b) then Goto(s, i, Replied(Conflict))
      else Goto(s.(rows := s.rows[i := Row(b, Pending, false, None)]), i, Creating)
    case Creating =>
      var did := CreateBranch(s.repo, b, a.create);
      Goto(s.(repo := did.repo), i,
           if !did.ok then Failing else if spec.Some? then Committing else Recording(a.create.base.value, false))
    case Committing =>
      if !a.credsOk || spec.None? then Goto(s, i, DroppingLocal(true))
      else
        var did := WriteFileAs(s.repo, b, spec.value.path, spec.value.content, a.write);
        Goto(s.(repo := did.repo), i, if did.ok then Reading else DroppingLocal(true))
    case Reading =>
      Goto(s, i, if a.readOk && b in s.repo.tips then Pushing(s.repo.tips[b]) else DroppingLocal(true))
    case Pushing(sha) =>
      var did := PushBranch(s.repo, b, a.push);
      Goto(s.(repo := did.repo), i, if did.ok then Recording(sha, true) else DroppingLocal(true))
    case Recording(sha, pushed) =>
      if a.recordOk && i in s.rows then
        Goto(s.(rows := Update(s.rows, i, s.rows[i].(sha := Some(sha)))), i, Replying(sha))
      else Goto(s, i, DroppingLocal(pushed))
    case Replying(_) => Goto(s, i, Replied(Created))
    case DroppingLocal(remoteToo) =>
      Goto(s.(repo := DeleteLocalBranch(s.repo, b, a.deleteOk)), i, if remoteToo then DroppingRemote else Failing)
    case DroppingRemote =>
      Goto(s.(repo := DeleteRemoteBranch(s.repo, b, a.remoteDeleteOk)), i, Failing)
    case Failing =>
      var rows := if a.failOk && i in s.rows then Update(s.rows, i, s.rows[i].(state := Failed)) else s.rows;
      Goto(s.(rows := rows), i, Replied(Broken))
    case Replied(_) => s
  }

  // ------------------------------------------------------------------ interleavings

  /** A request's step; a narrow update of a row's state or resume flag; somebody taking a copy of a row; or
      that copy landing: a whole-row update that sets the state and, with it, the SHA of the copy unless the
      writer has resolved a newer one.  It leaves the resume flag alone. */
  datatype Event =
    | Step(i: nat, answers: Answers)
    | Rewrite(id: nat, state: LoopState, resume: bool)
    | Read(k: nat, id: nat)
    | Land(k: nat, state: LoopState, moved: Option<Commit>)

  function Landed(s: System, k: nat, state: LoopState, moved: Option<Commit>): Row
    requires k in s.copies && s.copies[k].id in s.rows
  {
    s.rows[s.copies[k].id].(state := state, sha := if moved.Some? then moved else s.copies[k].sha)
  }

  function Happen(s: System, e: Event): System {
    match e
    case Step(i, a) => if Known(s, i) then Next(s, i, a) else s
    case Rewrite(id, state, resume) =>
      if id !in s.rows then s else s.(rows := Update(s.rows, id, s.rows[id].(state := state, resume := resume)))
    case Read(k, id) =>
      if id !in s.rows || k in s.copies then s else s.(copies := s.copies[k := Copy(id, s.rows[id].sha)])
    case Land(k, state, moved) =>
      if k !in s.copies || s.copies[k].id !in s.rows then s
      else s.(rows := Update(s.rows, s.copies[k].id, Landed(s, k, state, moved)))
  }

  function After(s: System, events: seq<Event>): System
    decreases |events|
  {
    if events == [] then s else After(Happen(s, events[0]), events[1..])
  }

  lemma UpdateKeepsOneHolder(rows: Rows, id: nat, row: Row)
    requires OneHolder(rows) && id in rows && row.branch == rows[id].branch
    ensures OneHolder(Update(rows, id, row))
  {
  }

  lemma OneHolderStep(s: System, e: Event)
    requires OneHolder(s.rows)
    ensures OneHolder(Happen(s, e).rows)
  {
    match e
    case Rewrite(id, state, resume) =>
      if id in s.rows {
        UpdateKeepsOneHolder(s.rows, id, s.rows[id].(state := state, resume := resume));
      }
    case Read(_, _) =>
    case Land(k, state, moved) =>
      if k in s.copies && s.copies[k].id in s.rows {
        UpdateKeepsOneHolder(s.rows, s.copies[k].id, Landed(s, k, state, moved));
      }
    case Step(i, a) =>
      if Known(s, i) && i in s.rows {
        match s.phases[i]
        case Recording(sha, _) => UpdateKeepsOneHolder(s.rows, i, s.rows[i].(sha := Some(sha)));
        case Failing => UpdateKeepsOneHolder(s.rows, i, s.rows[i].(state := Failed));
        case _ =>
      }
  }

  /** Concurrent starts, resumes and the reconciler never leave two active rows on one branch. */
  lemma {:induction false} OneHolderAlong(s: System, events: seq<Event>)
    requires OneHolder(s.rows)
    ensures OneHolder(After(s, events).rows)
    decreases |events|
  {
    if events != [] {
      OneHolderStep(s, events[0]);
      OneHolderAlong(Happen(s, events[0]), events[1..]);
    }
  }

  // ------------------------------------------------------------------ what a step can touch

  /** Only branch `b` may have moved, locally or on the remote, and no persistent worktree has appeared. */
  ghost predicate OnlyBranch(r: Repo, t: Repo, b: string) {
    && (forall o :: o != b ==> (o in t.tips <==> o in r.tips) && (o in t.tips ==> t.tips[o] == r.tips[o]))
    && (forall o :: o != b ==> (o in t.remote <==> o in r.remote) && (o in t.remote ==> t.remote[o] == r.remote[o]))
    && (forall d :: d in t.worktrees && d.Wt? ==> d in r.worktrees && t.worktrees[d].branch == r.worktrees[d].branch)
  }

  lemma CreateTouchesOnly(r: Repo, b: string, env: CreateEnv)
    ensures OnlyBranch(r, CreateBranch(r, b, env).repo, b)
  {
  }

  lemma CommitTouchesOnly(r: Repo, dir: Dir, path: string, content: string, run: WriteRun)
    requires Usable(r, dir)
    ensures var did := WriteInWorktree(r, dir, path, content, run);
            && OnlyBranch(r, did.repo, r.worktrees[dir].branch)
            && did.repo.remote == r.remote && SameCheckouts(r, did.repo)
            && (did.ok ==> var tips := did.repo.tips;
                r.worktrees[dir].branch in tips && path in tips[r.worktrees[dir].branch].tree
                && tips[r.worktrees[dir].branch].tree[path] == content)
  {
    if run.Written? { CommitKeepsCheckouts(r, dir, r.worktrees[dir].index[path := content], run.stamp); }
  }

  /** A write whose directory is its own moves only its own branch, and Ok means the file is there. */
  lemma WriteTouchesOnly(r: Repo, b: string, path: string, content: string, env: WriteEnv)
    requires Target(r, b) == b
    ensures var did := WriteFileAs(r, b, path, content, env);
            OnlyBranch(r, did.repo, b) && (did.ok ==> Holding(did.repo, b, path, content))
  {
    var persistent := PersistentDir(b);
    if persistent in r.worktrees {
      if Usable(r, persistent) {
        CommitTouchesOnly(r, persistent, path, content, env.run);
      }
    } else if env.addOk && CanAdd(r, Tmp(env.tmp), b) {
      var added := WorktreeAdd(r, Tmp(env.tmp), b, true).repo;
      CommitTouchesOnly(added, Tmp(env.tmp), path, content, env.run);
    }
  }

  predicate Holding(r: Repo, b: string, path: string, content: string) {
    b in r.tips && path in r.tips[b].tree && r.tips[b].tree[path] == content
  }

  lemma RemoteTouchesOnly(r: Repo, b: string, run: PushRun, ok: bool)
    ensures OnlyBranch(r, PushBranch(r, b, run).repo, b)
    ensures OnlyBranch(r, DeleteLocalBranch(r, b, ok), b) && OnlyBranch(r, DeleteRemoteBranch(r, b, ok), b)
  {
  }

  predicate ChangesRepo(phase: Phase) {
    phase.Creating? || phase.Committing? || phase.Pushing? || phase.DroppingLocal? || phase.DroppingRemote?
  }

  lemma RepoStaysElsewhere(s: System, i: nat, a: Answers)
    requires Known(s, i) && !ChangesRepo(s.phases[i])
    ensures Next(s, i, a).repo == s.repo
  {
  }

  /** A request's step touches its own branch only, provided no other branch sits in its directory. */
  lemma NextTouchesOnly(s: System, i: nat, a: Answers)
    requires Known(s, i) && Target(s.repo, s.requests[i].branch) == s.requests[i].branch
    ensures OnlyBranch(s.repo, Next(s, i, a).repo, s.requests[i].branch)
  {
    var b := s.requests[i].branch;
    if !ChangesRepo(s.phases[i]) {
      RepoStaysElsewhere(s, i, a);
      return;
    }
    match s.phases[i]
    case Creating => CreateTouchesOnly(s.repo, b, a.create);
    case Committing =>
      if s.requests[i].spec.Some? {
        WriteTouchesOnly(s.repo, b, s.requests[i].spec.value.path, s.requests[i].spec.value.content, a.write);
      }
    case Pushing(_) => RemoteTouchesOnly(s.repo, b, a.push, true);
    case DroppingLocal(_) => RemoteTouchesOnly(s.repo, b, a.push, a.deleteOk);
    case DroppingRemote => RemoteTouchesOnly(s.repo, b, a.push, a.remoteDeleteOk);
  }

  // ------------------------------------------------------------------ the invariant

  /** Every request between its insert and its reply holds its branch's row. */
  ghost predicate Owns(s: System) {
    forall i :: InFlight(s, i) ==> i in s.rows && s.rows[i].branch == s.requests[i].branch && Holds(s.rows[i])
  }

  /** What request `i` has achieved on its branch so far. */
  predicate Achieved(s: System, i: nat)
    requires Known(s, i)
  {
    var (b, spec) := (s.requests[i].branch, s.requests[i].spec);
    match s.phases[i]
    case Committing => spec.Some?
    case Reading => spec.Some? && Holding(s.repo, b, spec.value.path, spec.value.content)
    case Pushing(sha) =>
      spec.Some? && Holding(s.repo, b, spec.value.path, spec.value.content) && s.repo.tips[b] == sha
    case Recording(sha, pushed) =>
      && (pushed <==> spec.Some?)
      && (pushed ==> Holding(s.repo, b, spec.value.path, spec.value.content) && s.repo.tips[b] == sha
                     && b in s.repo.remote && s.repo.remote[b] == sha)
    case Replying(sha) =>
      spec.Some? ==> Holding(s.repo, b, spec.value.path, spec.value.content) && s.repo.tips[b] == sha
                     && b in s.repo.remote && s.repo.remote[b] == sha
    case _ => true
  }

  ghost predicate OwnDirectories(s: System) {
    forall i :: Known(s, i) ==> Target(s.repo, s.requests[i].branch) == s.requests[i].branch
  }

  ghost predicate Sane(s: System) {
    && OneHolder(s.rows) && Owns(s) && OwnDirectories(s)
    && forall i :: Known(s, i) ==> Achieved(s, i)
  }

  /** The row an event other than a request's step would write, and what it would write there. */
  function Writes(s: System, e: Event): Option<(nat, Row)> {
    match e
    case Rewrite(id, state, resume) =>
      if id in s.rows then Some((id, s.rows[id].(state := state, resume := resume))) else None
    case Land(k, state, moved) =>
      if k in s.copies && s.copies[k].id in s.rows then Some((s.copies[k].id, Landed(s, k, state, moved))) else None
    case _ => None
  }

  /** No row is retired whose request is still being served. */
  predicate Spares(s: System, e: Event) {
    var w := Writes(s, e);
    w.Some? && InFlight(s, w.value.0) ==> Holds(w.value.1)
  }

  /** No row and no phase but request `i`'s own has moved. */
  ghost predicate OnlyOwnRow(s: System, t: System, i: nat) {
    && t.requests == s.requests && t.phases.Keys == s.phases.Keys && t.copies == s.copies
    && (forall j :: j != i ==> (j in t.rows <==> j in s.rows) && (j in t.rows ==> t.rows[j] == s.rows[j]))
    && (forall j :: j != i && j in s.phases ==> t.phases[j] == s.phases[j])
  }

  /** Nor, in the repository, anything outside its branch, and nothing at all unless it is in flight. */
  ghost predicate OnlyRequest(s: System, t: System, i: nat)
    requires Known(s, i)
  {
    OnlyOwnRow(s, t, i) && OnlyBranch(s.repo, t.repo, s.requests[i].branch) && (!InFlight(s, i) ==> t.repo == s.repo)
  }

  predicate WritesRow(phase: Phase) { phase.Inserting? || phase.Recording? || phase.Failing? }

  lemma RowStepMovesOwnRowOnly(s: System, i: nat, a: Answers)
    requires Known(s, i) && WritesRow(s.phases[i])
    ensures OnlyOwnRow(s, Next(s, i, a), i)
  {
  }

  lemma GitStepMovesOwnRowOnly(s: System, i: nat, a: Answers)
    requires Known(s, i) && !WritesRow(s.phases[i])
    ensures OnlyOwnRow(s, Next(s, i, a), i)
  {
    assert Next(s, i, a).rows == s.rows;
  }

  lemma NextMovesOwnRowOnly(s: System, i: nat, a: Answers)
    requires Known(s, i)
    ensures OnlyOwnRow(s, Next(s, i, a), i)
    ensures !InFlight(s, i) ==> Next(s, i, a).repo == s.repo
  {
    if WritesRow(s.phases[i]) {
      RowStepMovesOwnRowOnly(s, i, a);
    } else {
      GitStepMovesOwnRowOnly(s, i, a);
    }
  }

  lemma OwnRow(s: System, i: nat, a: Answers)
    requires Known(s, i) && Owns(s)
    ensures var t := Next(s, i, a);
            InFlight(t, i) ==> i in t.rows && t.rows[i].branch == t.requests[i].branch && Holds(t.rows[i])
  {
    assert InFlight(s, i) ==> i in s.rows;
  }

  lemma CommittingAchieves(s: System, i: nat, a: Answers)
    requires Known(s, i) && s.phases[i].Committing? && Achieved(s, i)
    requires Target(s.repo, s.requests[i].branch) == s.requests[i].branch
    ensures Achieved(Next(s, i, a), i)
  {
    var (b, spec) := (s.requests[i].branch, s.requests[i].spec);
    WriteTouchesOnly(s.repo, b, spec.value.path, spec.value.content, a.write);
  }

  lemma OthersAchieve(s: System, i: nat, a: Answers)
    requires Known(s, i) && !s.phases[i].Committing? && Achieved(s, i)
    ensures Achieved(Next(s, i, a), i)
  {
  }

  lemma OwnAchieved(s: System, i: nat, a: Answers)
    requires Known(s, i) && Achieved(s, i) && Target(s.repo, s.requests[i].branch) == s.requests[i].branch
    ensures Known(Next(s, i, a), i) && Achieved(Next(s, i, a), i)
  {
    if s.phases[i].Committing? {
      CommittingAchieves(s, i, a);
    } else {
      OthersAchieve(s, i, a);
    }
  }

  lemma OthersAchieved(s: System, t: System, j: nat, b: string)
    requires Known(s, j) && Known(t, j) && s.requests[j] == t.requests[j] && s.phases[j] == t.phases[j]
    requires Achieved(s, j) && OnlyBranch(s.repo, t.repo, b) && s.requests[j].branch != b
    ensures Achieved(t, j)
  {
  }

  /** Two requests in flight are on different branches. */
  lemma OneInFlight(s: System, i: nat, j: nat)
    requires OneHolder(s.rows) && Owns(s) && InFlight(s, i) && InFlight(s, j) && i != j
    ensures s.requests[i].branch != s.requests[j].branch
  {
  }

  lemma TargetsKept(s: System, t: System, b: string)
    requires OwnDirectories(s) && t.requests == s.requests && t.phases.Keys == s.phases.Keys
    requires OnlyBranch(s.repo, t.repo, b)
    ensures OwnDirectories(t)
  {
    forall j | Known(t, j) ensures Target(t.repo, t.requests[j].branch) == t.requests[j].branch {
      assert Known(s, j);
      assert PersistentDir(t.requests[j].branch).Wt?;
    }
  }

  lemma OtherAchieved(s: System, t: System, i: nat, j: nat)
    requires Sane(s) && Known(s, i) && Known(s, j) && i != j && OnlyRequest(s, t, i)
    ensures Known(t, j) && Achieved(t, j)
  {
    if InFlight(s, j) && InFlight(s, i) {
      OneInFlight(s, i, j);
      OthersAchieved(s, t, j, s.requests[i].branch);
    }
  }

  lemma LocalStepIsSane(s: System, t: System, i: nat)
    requires Sane(s) && Known(s, i) && OnlyRequest(s, t, i) && OneHolder(t.rows)
    requires Known(t, i) && Achieved(t, i)
    requires InFlight(t, i) ==> i in t.rows && t.rows[i].branch == t.requests[i].branch && Holds(t.rows[i])
    ensures Sane(t)
  {
    TargetsKept(s, t, s.requests[i].branch);
    forall j | Known(t, j) ensures Achieved(t, j) {
      if j != i {
        OtherAchieved(s, t, i, j);
      }
    }
    forall j | InFlight(t, j) ensures j in t.rows && t.rows[j].branch == t.requests[j].branch && Holds(t.rows[j]) {
      if j != i {
        assert InFlight(s, j);
      }
    }
  }

  /** Every other event is at most one update of one row. */
  lemma OtherEvents(s: System, e: Event)
    requires !e.Step?
    ensures var (t, w) := (Happen(s, e), Writes(s, e));
            && t.repo == s.repo && t.phases == s.phases && t.requests == s.requests
            && (w.Some? ==> w.value.0 in s.rows && w.value.1.branch == s.rows[w.value.0].branch)
            && t.rows == if w.Some? then Update(s.rows, w.value.0, w.value.1) else s.rows
  {
  }

  lemma WriteIsSaneExactly(s: System, t: System, id: nat, row: Row)
    requires Sane(s) && id in s.rows && row.branch == s.rows[id].branch
    requires t.rows == Update(s.rows, id, row)
    requires t.repo == s.repo && t.phases == s.phases && t.requests == s.requests
    ensures Sane(t) <==> (InFlight(s, id) ==> Holds(row))
  {
    UpdateKeepsOneHolder(s.rows, id, row);
    forall j | Known(t, j) ensures Achieved(t, j) { assert Known(s, j); }
    assert OwnDirectories(t) by {
      forall j | Known(t, j) ensures Target(t.repo, t.requests[j].branch) == t.requests[j].branch {
        assert Known(s, j);
      }
    }
    forall j | InFlight(t, j) && j != id
      ensures j in t.rows && t.rows[j].branch == t.requests[j].branch && Holds(t.rows[j])
    {
      assert InFlight(s, j);
    }
    if InFlight(s, id) {
      assert InFlight(t, id) && Holds(s.rows[id]) && t.rows[id] == row;
    }
  }

  lemma OtherIsSaneExactly(s: System, e: Event)
    requires !e.Step? && Sane(s)
    ensures Sane(Happen(s, e)) <==> Spares(s, e)
  {
    OtherEvents(s, e);
    var (t, w) := (Happen(s, e), Writes(s, e));
    if w.Some? {
      WriteIsSaneExactly(s, t, w.value.0, w.value.1);
    } else {
      forall j | Known(t, j) ensures Achieved(t, j) { assert Known(s, j); }
      assert OwnDirectories(t) by {
        forall j | Known(t, j) ensures Target(t.repo, t.requests[j].branch) == t.requests[j].branch {
          assert Known(s, j);
        }
      }
    }
  }

  /** An event keeps ownership, and what every request has achieved, exactly when it retires no row whose
      request is still being served. */
  lemma SaneStepExactly(s: System, e: Event)
    requires Sane(s)
    ensures Sane(Happen(s, e)) <==> Spares(s, e)
  {
    if !e.Step? {
      OtherIsSaneExactly(s, e);
    } else if Known(s, e.i) {
      OneHolderStep(s, e);
      NextMovesOwnRowOnly(s, e.i, e.answers);
      NextTouchesOnly(s, e.i, e.answers);
      OwnAchieved(s, e.i, e.answers);
      OwnRow(s, e.i, e.answers);
      LocalStepIsSane(s, Next(s, e.i, e.answers), e.i);
    }
  }

  predicate AllSpare(s: System, events: seq<Event>)
    decreases |events|
  {
    events == [] || (Spares(s, events[0]) && AllSpare(Happen(s, events[0]), events[1..]))
  }

  ghost predicate AlwaysSane(s: System, events: seq<Event>)
    decreases |events|
  {
    Sane(s) && (events == [] || AlwaysSane(Happen(s, events[0]), events[1..]))
  }

  /** An interleaving keeps every request in flight alone on its branch, with what it has achieved there,
      throughout, exactly when no row is retired under its request. */
  lemma {:induction false} SaneExactlyAlong(s: System, events: seq<Event>)
    requires Sane(s)
    ensures AlwaysSane(s, events) <==> AllSpare(s, events)
    decreases |events|
  {
    if events != [] {
      SaneStepExactly(s, events[0]);
      if Spares(s, events[0]) {
        SaneExactlyAlong(Happen(s, events[0]), events[1..]);
      }
    }
  }

  lemma {:induction false} SaneAlong(s: System, events: seq<Event>)
    requires Sane(s) && AllSpare(s, events)
    ensures Sane(After(s, events))
    decreases |events|
  {
    if events != [] {
      SaneStepExactly(s, events[0]);
      SaneAlong(Happen(s, events[0]), events[1..]);
    }
  }

  // ------------------------------------------------------------------ before the SHA is recorded

  predicate Unrecorded(phase: Phase) { !phase.Replying? && !phase.Replied? }

  /** Until request `i` records a SHA its row has none, nor has any copy of it; before the insert there is
      neither row nor copy. */
  ghost predicate Blank(s: System) {
    forall i :: Known(s, i) && Unrecorded(s.phases[i]) ==>
      && (i in s.rows ==> !s.phases[i].Inserting? && s.rows[i].sha == None)
      && (forall k :: k in s.copies && s.copies[k].id == i ==> !s.phases[i].Inserting? && s.copies[k].sha == None)
  }

  /** Nobody but `/start` itself resolves SHAs. */
  predicate MovesNothing(e: Event) { e.Land? ==> e.moved.None? }

  lemma OwnStepIsBlank(s: System, i: nat, a: Answers)
    requires Blank(s) && Known(s, i)
    ensures Blank(Next(s, i, a))
  {
    var t := Next(s, i, a);
    NextMovesOwnRowOnly(s, i, a);
    forall j | Known(t, j) && Unrecorded(t.phases[j])
      ensures j in t.rows ==> !t.phases[j].Inserting? && t.rows[j].sha == None
      ensures forall k :: k in t.copies && t.copies[k].id == j ==> !t.phases[j].Inserting? && t.copies[k].sha == None
    {
      assert Known(s, j) && Unrecorded(s.phases[j]);
    }
  }

  lemma BlankStep(s: System, e: Event)
    requires Blank(s) && MovesNothing(e)
    ensures Blank(Happen(s, e))
  {
    if !e.Step? {
      OtherEvents(s, e);
    } else if Known(s, e.i) {
      OwnStepIsBlank(s, e.i, e.answers);
    }
  }

  /** The state of the service with no request in flight: one holder per branch, directories of their own,
      and nothing known yet of the requests to come. */
  ghost predicate Quiet(s: System) {
    && OneHolder(s.rows) && OwnDirectories(s) && Blank(s)
    && forall i :: Known(s, i) ==> s.phases[i].Inserting? || s.phases[i].Replied?
  }

  lemma QuietIsSane(s: System)
    requires Quiet(s)
    ensures Sane(s) && Blank(s)
  {
  }

  predicate AllUnmoved(events: seq<Event>) { forall n :: 0 <= n < |events| ==> MovesNothing(events[n]) }

  lemma {:induction false} BlankAlong(s: System, events: seq<Event>)
    requires Blank(s) && AllUnmoved(events)
    ensures Blank(After(s, events))
    decreases |events|
  {
    if events != [] {
      BlankStep(s, events[0]);
      assert forall n :: 0 <= n < |events[1..]| ==> events[1..][n] == events[n + 1];
      BlankAlong(Happen(s, events[0]), events[1..]);
    }
  }
}
