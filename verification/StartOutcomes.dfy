/** What a reply of `/start` promises, in every interleaving and for one request alone. */
module StartOutcomes {
  import opened Text
  import opened GitRepo
  import opened S = StartSaga

  // ------------------------------------------------------------------ replies

  /** An error after the insert: in every such interleaving the branch is free for a retry exactly when the
      row could be marked FAILED and nobody has asked to resume it. */
  lemma BrokenFreesBranchExactly(s: System, events: seq<Event>, i: nat, a: Answers)
    requires Sane(s) && AllSpare(s, events)
    requires Known(S.After(s, events), i) && S.After(s, events).phases[i].Failing?
    ensures i in S.After(s, events).rows && Next(S.After(s, events), i, a).phases[i] == Replied(Broken)
    ensures var (u, t) := (S.After(s, events), Next(S.After(s, events), i, a));
            Free(t.rows, u.requests[i].branch) <==> a.failOk && !u.rows[i].resume
  {
    SaneAlong(s, events);
    var (u, t) := (S.After(s, events), Next(S.After(s, events), i, a));
    var b := u.requests[i].branch;
    assert InFlight(u, i);
    assert forall j :: j in u.rows && j != i && u.rows[j].branch == b ==> !Holds(u.rows[j]);
    assert forall j :: j in t.rows && j != i && t.rows[j].branch == b ==> !Holds(t.rows[j]);
    assert i in t.rows && t.rows[i].branch == b;
  }

  /** The branch is kept as it is because the state of its pull request could not be read. */
  predicate Reused(r: Repo, b: string, env: CreateEnv) {
    env.base.Some? && env.pr.Unknown? && !(env.firstOk && b !in r.tips)
  }

  /** For a spec read from the default branch the SHA recorded is the branch's tip exactly when the branch
      was made anew or already stood at the base. */
  lemma DefaultShaExactly(s: System, i: nat, a: Answers)
    requires Known(s, i) && s.phases[i].Creating? && s.requests[i].spec.None? && i in s.rows
    requires CreateBranch(s.repo, s.requests[i].branch, a.create).ok && a.recordOk
    ensures var (t, b) := (Next(Next(s, i, a), i, a), s.requests[i].branch);
            && t.phases[i].Replying? && i in t.rows && t.rows[i].sha == Some(t.phases[i].sha) == a.create.base
            && ((b in t.repo.tips && t.rows[i].sha == Some(t.repo.tips[b])) <==>
                !Reused(s.repo, b, a.create) || (b in s.repo.tips && Some(s.repo.tips[b]) == a.create.base))
  {
    CreateTellsExactly(s.repo, s.requests[i].branch, a.create);
  }

  lemma CreateTellsExactly(r: Repo, b: string, env: CreateEnv)
    requires CreateBranch(r, b, env).ok
    ensures env.base.Some?
    ensures (b in CreateBranch(r, b, env).repo.tips && CreateBranch(r, b, env).repo.tips[b] == env.base.value) <==>
            !Reused(r, b, env) || (b in r.tips && r.tips[b] == env.base.value)
  {
  }

  // ------------------------------------------------------------------ one request alone

  function Rank(phase: Phase): nat {
    match phase
    case Inserting => 10
    case Creating => 9
    case Committing => 8
    case Reading => 7
    case Pushing(_) => 6
    case Recording(_, _) => 5
    case Replying(_) => 4
    case DroppingLocal(_) => 4
    case DroppingRemote => 2
    case Failing => 1
    case Replied(_) => 0
  }

  /** Every request replies within ten of its own steps. */
  lemma StepsBounded(s: System, i: nat, a: Answers)
    requires Known(s, i) && !s.phases[i].Replied?
    ensures Known(Next(s, i, a), i) && Rank(Next(s, i, a).phases[i]) < Rank(s.phases[i]) <= 10
  {
  }

  function RunAlone(s: System, i: nat, a: Answers): System
    requires Known(s, i)
    decreases Rank(s.phases[i])
  {
    if s.phases[i].Replied? then s
    else
      StepsBounded(s, i, a);
      RunAlone(Next(s, i, a), i, a)
  }

  lemma ReplyingAlone(s: System, i: nat, a: Answers)
    requires Known(s, i) && s.phases[i].Replying?
    ensures RunAlone(s, i, a) == Goto(s, i, Replied(Created))
  {
    assert RunAlone(Next(s, i, a), i, a) == Next(s, i, a);
  }
}
