/** What `create_branch` does to a branch that exists, answer by answer, and what that means for a `/start`. */
module BranchReuse {
  import opened GitRepo
  import opened S = StartSaga
  import opened StartOutcomes
  import opened StartCompensation

  /** A pull request that is done, or none at all: the branch is to be made anew. */
  predicate Discards(env: CreateEnv) {
    env.base.Some? && (env.pr.Merged? || env.pr.Closed? || env.pr.NoPr?)
  }

  /** Some worktree that the clean-up does not remove has the branch checked out. */
  predicate StaysCheckedOut(r: Repo, b: string, removeOk: bool) {
    exists d :: d in r.worktrees && r.worktrees[d].branch == b && !(d == PersistentDir(b) && removeOk)
  }

  /** An open pull request, or a base that does not resolve: the call fails and the repository, with the tips, the
      remote and every worktree, is as it was. */
  lemma OpenIsUntouched(r: Repo, b: string, env: CreateEnv)
    requires b in r.tips && (env.pr.Open? || env.base.None?)
    ensures CreateBranch(r, b, env) == Did(r, false)
  {
  }

  lemma CleanedUp(r: Repo, b: string, removeOk: bool)
    ensures var t := CleanupStaleWorktree(r, b, removeOk);
            && t.tips == r.tips && t.remote == r.remote
            && (forall d :: d in t.worktrees <==> d in r.worktrees && !(d == PersistentDir(b) && removeOk))
            && (forall d :: d in t.worktrees ==> t.worktrees[d] == r.worktrees[d])
            && (CheckedOut(t, b) <==> StaysCheckedOut(r, b, removeOk))
  {
    var t := CleanupStaleWorktree(r, b, removeOk);
    if d :| d in r.worktrees && r.worktrees[d].branch == b && !(d == PersistentDir(b) && removeOk) {
      assert d in t.worktrees && t.worktrees[d].branch == b;
    }
    if d :| d in t.worktrees && t.worktrees[d].branch == b {
      assert d in r.worktrees && r.worktrees[d].branch == b;
    }
  }

  lemma RecreatedExactly(r: Repo, b: string, base: Commit, env: CreateEnv)
    requires b in r.tips
    ensures var (t, dropped) := (RecreateBranch(r, b, base, env).repo,
                                 env.deleteOk && !StaysCheckedOut(r, b, env.removeOk));
            && (RecreateBranch(r, b, base, env).ok <==> dropped && env.secondOk)
            && (b in t.tips <==> !dropped || env.secondOk)
            && (b in t.tips ==> t.tips[b] == if dropped then base else r.tips[b])
            && t.remote == (if env.remoteDeleteOk then r.remote - {b} else r.remote)
            && (forall d :: d in t.worktrees <==> d in r.worktrees && !(d == PersistentDir(b) && env.removeOk))
  {
    CleanedUp(r, b, env.removeOk);
  }

  /** An existing branch.  Its tip is lost locally, to the base or altogether, exactly when its pull request is done
      or there is none, git does not refuse the delete, and no worktree that stays has it checked out; on the remote
      exactly when its pull request is done or there is none and the remote does not refuse; and its worktree
      exactly when its pull request is done or there is none and the removal succeeds. */
  lemma LostExactly(r: Repo, b: string, env: CreateEnv)
    requires b in r.tips
    ensures var (t, dropped) := (CreateBranch(r, b, env).repo, env.deleteOk && !StaysCheckedOut(r, b, env.removeOk));
            && (b !in t.tips <==> Discards(env) && dropped && !env.secondOk)
            && (b in t.tips ==> t.tips[b] == if Discards(env) && dropped then env.base.value else r.tips[b])
            && (b in r.remote ==> (b !in t.remote <==> Discards(env) && env.remoteDeleteOk))
            && (b in t.remote ==> b in r.remote && t.remote[b] == r.remote[b])
            && (PersistentDir(b) in r.worktrees ==>
                  (PersistentDir(b) !in t.worktrees <==> Discards(env) && env.removeOk))
            && (forall d :: d in r.worktrees && d != PersistentDir(b) ==> d in t.worktrees)
  {
    if Discards(env) { RecreatedExactly(r, b, env.base.value, env); }
  }

  /** The call succeeds exactly so, for a branch that exists and for a new one. */
  lemma SucceedsExactly(r: Repo, b: string, env: CreateEnv)
    ensures b in r.tips ==>
              (CreateBranch(r, b, env).ok <==>
                 || (env.base.Some? && env.pr.Unknown?)
                 || (Discards(env) && env.deleteOk && env.secondOk && !StaysCheckedOut(r, b, env.removeOk)))
    ensures b !in r.tips ==>
              (CreateBranch(r, b, env).ok <==>
                 env.base.Some? && (env.firstOk || env.pr.Unknown? || (Discards(env) && env.secondOk)))
    ensures b !in r.tips && env.base.Some? && env.firstOk ==>
              CreateBranch(r, b, env) == Did(r.(tips := r.tips[b := env.base.value]), true)
  {
    if b in r.tips && Discards(env) { RecreatedExactly(r, b, env.base.value, env); }
  }

  // ------------------------------------------------------------------ a start on a branch under review

  lemma RefusedStart(s: System, i: nat, a: Answers)
    requires Known(s, i) && s.phases[i].Creating? && s.requests[i].branch in s.repo.tips && a.create.pr.Open?
    ensures Known(RunAlone(s, i, a), i) && RunAlone(s, i, a).repo == s.repo
    ensures RunAlone(s, i, a).phases[i] == Replied(Broken)
  {
    OpenIsUntouched(s.repo, s.requests[i].branch, a.create);
    var failing := Next(s, i, a);
    assert failing.phases[i].Failing? && failing.repo == s.repo;
    assert RunAlone(s, i, a) == RunAlone(failing, i, a) == RunAlone(Next(failing, i, a), i, a) == Next(failing, i, a);
  }

  /** A `/start` on an existing branch whose pull request is open is never Created and never takes anything away:
      tips, remote and worktrees are untouched; it is Broken once it has got past the insert. */
  lemma OpenPullRequestIsSafe(s: System, i: nat, a: Answers)
    requires Known(s, i) && s.phases[i].Inserting? && s.requests[i].branch in s.repo.tips && a.create.pr.Open?
    ensures Known(RunAlone(s, i, a), i) && RunAlone(s, i, a).repo == s.repo
    ensures RunAlone(s, i, a).phases[i] == Replied(if !a.insertOk then NotInserted
                                                  else if !Free(s.rows, s.requests[i].branch) then Conflict
                                                  else Broken)
  {
    var next := Next(s, i, a);
    assert RunAlone(s, i, a) == RunAlone(next, i, a);
    if next.phases[i].Creating? {
      RefusedStart(next, i, a);
    } else {
      assert RunAlone(next, i, a) == next;
    }
  }
}
