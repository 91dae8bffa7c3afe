/** The control plane's bare repository: branches, worktrees and the operations that write through
    them.  Git itself is the environment: each command's outcome is an input where git may refuse it. */
module GitRepo {
  import opened Text

  type Tree = map<string, string>

  /** A commit is its history; equal commits have equal hashes and the other way round.  The stamp stands for
      author, message and time, which tell apart two commits of one tree on one parent. */
  datatype Commit = Root(tree: Tree) | Child(parent: Commit, tree: Tree, stamp: nat)

  predicate AncestorOf(a: Commit, c: Commit) {
    a == c || (c.Child? && AncestorOf(a, c.parent))
  }

  datatype Dir = Wt(name: string) | Tmp(id: nat)

  /** A registered worktree: the branch it has checked out and what is staged in it. */
  datatype Checkout = Checkout(branch: string, index: Tree)

  datatype Repo = Repo(tips: map<string, Commit>, remote: map<string, Commit>, worktrees: map<Dir, Checkout>)

  /** An operation's new state and whether it returned Ok. */
  datatype Did = Did(repo: Repo, ok: bool)

  /** Slashes become dashes, so different branches can share a directory. */
  function PersistentDir(branch: string): Dir {
    Wt(seq(|branch|, i requires 0 <= i < |branch| => if branch[i] == '/' then '-' else branch[i]))
  }

  // ------------------------------------------------------------------ git commands

  /** Git refuses a second worktree for a branch, and an existing directory. */
  predicate CanAdd(r: Repo, dir: Dir, branch: string) {
    branch in r.tips && dir !in r.worktrees && forall d :: d in r.worktrees ==> r.worktrees[d].branch != branch
  }

  function WorktreeAdd(r: Repo, dir: Dir, branch: string, ok: bool): Did {
    if ok && CanAdd(r, dir, branch) then
      Did(r.(worktrees := r.worktrees[dir := Checkout(branch, r.tips[branch].tree)]), true)
    else Did(r, false)
  }

  function WorktreeRemove(r: Repo, dir: Dir, ok: bool): Repo {
    if ok then r.(worktrees := r.worktrees - {dir}) else r
  }

  /** The worktree is registered for a branch that exists. */
  predicate Usable(r: Repo, dir: Dir) { dir in r.worktrees && r.worktrees[dir].branch in r.tips }

  function Stage(r: Repo, dir: Dir, index: Tree): Repo
    requires dir in r.worktrees
  {
    r.(worktrees := r.worktrees[dir := r.worktrees[dir].(index := index)])
  }

  /** Commit everything staged in a worktree; with nothing staged there is no commit. */
  function CommitIndex(r: Repo, dir: Dir, stamp: nat): Repo
    requires Usable(r, dir)
  {
    var (b, index) := (r.worktrees[dir].branch, r.worktrees[dir].index);
    if r.tips[b].tree == index then r else r.(tips := r.tips[b := Child(r.tips[b], index, stamp)])
  }

  function BranchDelete(r: Repo, branch: string): Repo {
    if exists d :: d in r.worktrees && r.worktrees[d].branch == branch then r else r.(tips := r.tips - {branch})
  }

  function DeleteLocalBranch(r: Repo, branch: string, ok: bool): Repo {
    if ok then BranchDelete(r, branch) else r
  }

  function BranchCreate(r: Repo, branch: string, base: Commit, ok: bool): Did {
    if ok && branch !in r.tips then Did(r.(tips := r.tips[branch := base]), true) else Did(r, false)
  }

  // ------------------------------------------------------------------ operations

  function EnsureWorktree(r: Repo, branch: string, dir: Dir, addOk: bool): Did {
    if dir in r.worktrees then Did(r, true) else WorktreeAdd(r, dir, branch, addOk)
  }

  /** How a write ends: before `git add` took effect, after it but without the commit, or whole. */
  datatype WriteRun = NotStaged | NotCommitted | Written(stamp: nat)

  /** `tmp` names the fresh temporary directory. */
  datatype WriteEnv = WriteEnv(tmp: nat, addOk: bool, run: WriteRun, removeOk: bool)

  function WriteInWorktree(r: Repo, dir: Dir, path: string, content: string, run: WriteRun): Did {
    if run.NotStaged? || !Usable(r, dir) then Did(r, false)
    else
      var staged := Stage(r, dir, r.worktrees[dir].index[path := content]);
      if run.NotCommitted? then Did(staged, false) else Did(CommitIndex(staged, dir, run.stamp), true)
  }

  function WriteFileAs(r: Repo, branch: string, path: string, content: string, env: WriteEnv): Did {
    var persistent := PersistentDir(branch);
    if persistent in r.worktrees then WriteInWorktree(r, persistent, path, content, env.run)
    else
      var added := WorktreeAdd(r, Tmp(env.tmp), branch, env.addOk);
      if !added.ok then added
      else
        var wrote := WriteInWorktree(added.repo, Tmp(env.tmp), path, content, env.run);
        Did(WorktreeRemove(wrote.repo, Tmp(env.tmp), env.removeOk), wrote.ok)
  }

  predicate Under(path: string, key: string) { key == path || path + "/" <= key }

  predicate HasPath(t: Tree, path: string) { exists k :: k in t && Under(path, k) }

  function WithoutPath(t: Tree, path: string): Tree { map k | k in t && !Under(path, k) :: t[k] }

  /** How `git rm` and the commit after it end; a failure to spawn returns at once. */
  datatype RemoveRun = RmNotSpawned | RmFailed | CommitNotSpawned | CommitFailed | Removed(stamp: nat)

  datatype RemoveEnv = RemoveEnv(tmp: nat, addOk: bool, run: RemoveRun, removeOk: bool)

  predicate SpawnFails(run: RemoveRun) { run.RmNotSpawned? || run.CommitNotSpawned? }

  /** A commit that would change nothing is refused, so the removal fails. */
  function RemoveInWorktree(r: Repo, dir: Dir, path: string, run: RemoveRun): Did {
    if run.RmNotSpawned? || run.RmFailed? || !Usable(r, dir) || !HasPath(r.worktrees[dir].index, path) then
      Did(r, false)
    else
      var index := WithoutPath(r.worktrees[dir].index, path);
      var staged := Stage(r, dir, index);
      if run.Removed? && index != r.tips[r.worktrees[dir].branch].tree then
        Did(CommitIndex(staged, dir, run.stamp), true)
      else Did(staged, false)
  }

  function RemovePath(r: Repo, branch: string, path: string, env: RemoveEnv): Did {
    if branch !in r.tips || !HasPath(r.tips[branch].tree, path) then Did(r, true)
    else
      var persistent := PersistentDir(branch);
      if persistent in r.worktrees then RemoveInWorktree(r, persistent, path, env.run)
      else
        var added := WorktreeAdd(r, Tmp(env.tmp), branch, env.addOk);
        if !added.ok then added
        else
          var removed := RemoveInWorktree(added.repo, Tmp(env.tmp), path, env.run);
          if SpawnFails(env.run) then removed
          else Did(WorktreeRemove(removed.repo, Tmp(env.tmp), env.removeOk), removed.ok)
  }

  datatype PrState = Open | Merged | Closed | Unknown | NoPr

  /** `base` is the base commit when it resolves; the flags say whether each git command would run through. */
  datatype CreateEnv = CreateEnv(base: Option<Commit>, firstOk: bool, pr: PrState, removeOk: bool, deleteOk: bool,
                                 remoteDeleteOk: bool, secondOk: bool)

  function CleanupStaleWorktree(r: Repo, branch: string, removeOk: bool): Repo {
    if PersistentDir(branch) in r.worktrees then WorktreeRemove(r, PersistentDir(branch), removeOk) else r
  }

  /** A branch whose pull request is done, or that never had one, is deleted and made anew. */
  function RecreateBranch(r: Repo, branch: string, base: Commit, env: CreateEnv): Did {
    var dropped := DeleteLocalBranch(CleanupStaleWorktree(r, branch, env.removeOk), branch, env.deleteOk);
    BranchCreate(DeleteRemoteBranch(dropped, branch, env.remoteDeleteOk), branch, base, env.secondOk)
  }

  /** On success the caller is told the base commit, whatever the branch holds. */
  function CreateBranch(r: Repo, branch: string, env: CreateEnv): Did {
    if env.base.None? then Did(r, false)
    else
      var first := BranchCreate(r, branch, env.base.value, env.firstOk);
      if first.ok then first
      else if env.pr.Open? then Did(r, false)
      else if env.pr.Unknown? then Did(r, true)
      else RecreateBranch(r, branch, env.base.value, env)
  }

  /** A push may be refused, or be accepted while its answer is lost. */
  datatype PushRun = Answered | Refused | AnswerLost

  function PushBranch(r: Repo, branch: string, run: PushRun): Did {
    if run.Refused? || branch !in r.tips || (branch in r.remote && !AncestorOf(r.remote[branch], r.tips[branch])) then
      Did(r, false)
    else Did(r.(remote := r.remote[branch := r.tips[branch]]), run.Answered?)
  }

  function DeleteRemoteBranch(r: Repo, branch: string, ok: bool): Repo {
    if ok then r.(remote := r.remote - {branch}) else r
  }

  // ------------------------------------------------------------------ the source's own form

  class BareRepo {
    var tips: map<string, Commit>
    var remote: map<string, Commit>
    var worktrees: map<Dir, Checkout>

    constructor (r: Repo)
      ensures View() == r
    {
      tips, remote, worktrees := r.tips, r.remote, r.worktrees;
    }

    function View(): Repo
      reads this
    {
      Repo(tips, remote, worktrees)
    }

    method WorktreeAddCommand(dir: Dir, branch: string, succeeds: bool) returns (ok: bool)
      modifies `worktrees
      ensures Did(View(), ok) == WorktreeAdd(old(View()), dir, branch, succeeds)
    {
      ok := succeeds && CanAdd(View(), dir, branch);
      if ok {
        worktrees := worktrees[dir := Checkout(branch, tips[branch].tree)];
      }
    }

    method CommitStaged(dir: Dir, index: Tree, stamp: nat)
      requires Usable(View(), dir)
      modifies `tips, `worktrees
      ensures View() == CommitIndex(Stage(old(View()), dir, index), dir, stamp)
    {
      worktrees := worktrees[dir := worktrees[dir].(index := index)];
      var branch := worktrees[dir].branch;
      if tips[branch].tree != index {
        tips := tips[branch := Child(tips[branch], index, stamp)];
      }
    }

    method EnsureWorktreeAt(branch: string, dir: Dir, addOk: bool) returns (ok: bool)
      modifies `worktrees
      ensures Did(View(), ok) == EnsureWorktree(old(View()), branch, dir, addOk)
    {
      if dir in worktrees {
        return true;
      }
      ok := WorktreeAddCommand(dir, branch, addOk);
    }

    method WriteIn(dir: Dir, path: string, content: string, run: WriteRun) returns (ok: bool)
      modifies `tips, `worktrees
      ensures Did(View(), ok) == WriteInWorktree(old(View()), dir, path, content, run)
    {
      if run.NotStaged? || !Usable(View(), dir) {
        return false;
      }
      var index := worktrees[dir].index[path := content];
      ok := run.Written?;
      if ok {
        CommitStaged(dir, index, run.stamp);
      } else {
        worktrees := worktrees[dir := worktrees[dir].(index := index)];
      }
    }

    /** Through the persistent worktree when there is one, otherwise through a temporary one that is
        removed whatever the write returned. */
    method WriteFile(branch: string, path: string, content: string, env: WriteEnv) returns (ok: bool)
      modifies `tips, `worktrees
      ensures Did(View(), ok) == WriteFileAs(old(View()), branch, path, content, env)
    {
      var persistent := PersistentDir(branch);
      if persistent in worktrees {
        ok := WriteIn(persistent, path, content, env.run);
        return;
      }
      var added := WorktreeAddCommand(Tmp(env.tmp), branch, env.addOk);
      if !added {
        return false;
      }
      ok := WriteIn(Tmp(env.tmp), path, content, env.run);
      if env.removeOk {
        worktrees := worktrees - {Tmp(env.tmp)};
      }
    }

    method RemoveIn(dir: Dir, path: string, run: RemoveRun) returns (ok: bool)
      modifies `tips, `worktrees
      ensures Did(View(), ok) == RemoveInWorktree(old(View()), dir, path, run)
    {
      if run.RmNotSpawned? || run.RmFailed? || !Usable(View(), dir) || !HasPath(worktrees[dir].index, path) {
        return false;
      }
      var index := WithoutPath(worktrees[dir].index, path);
      ok := run.Removed? && index != tips[worktrees[dir].branch].tree;
      if ok {
        CommitStaged(dir, index, run.stamp);
      } else {
        worktrees := worktrees[dir := worktrees[dir].(index := index)];
      }
    }

    method Remove(branch: string, path: string, env: RemoveEnv) returns (ok: bool)
      modifies `tips, `worktrees
      ensures Did(View(), ok) == RemovePath(old(View()), branch, path, env)
    {
      if branch !in tips || !HasPath(tips[branch].tree, path) {
        return true;
      }
      var dir, isTemp := PersistentDir(branch), false;
      if dir !in worktrees {
        dir, isTemp := Tmp(env.tmp), true;
        var added := WorktreeAddCommand(dir, branch, env.addOk);
        if !added {
          return false;
        }
      }
      ok := RemoveIn(dir, path, env.run);
      if SpawnFails(env.run) {
        return;
      }
      if isTemp && env.removeOk {
        worktrees := worktrees - {dir};
      }
    }

    method Create(branch: string, env: CreateEnv) returns (told: Option<Commit>)
      modifies `tips, `remote, `worktrees
      ensures Did(View(), told.Some?) == CreateBranch(old(View()), branch, env)
      ensures told.Some? ==> told == env.base
    {
      if env.base.None? {
        return None;
      }
      if env.firstOk && branch !in tips {
        tips := tips[branch := env.base.value];
        return env.base;
      }
      match env.pr
      case Open => return None;
      case Unknown => return env.base;
      case _ =>
        var made := Recreate(branch, env.base.value, env);
        return if made then env.base else None;
    }

    method Recreate(branch: string, base: Commit, env: CreateEnv) returns (ok: bool)
      modifies `tips, `remote, `worktrees
      ensures Did(View(), ok) == RecreateBranch(old(View()), branch, base, env)
    {
      if PersistentDir(branch) in worktrees && env.removeOk {
        worktrees := worktrees - {PersistentDir(branch)};
      }
      DeleteLocal(branch, env.deleteOk);
      DeleteRemote(branch, env.remoteDeleteOk);
      ok := env.secondOk && branch !in tips;
      if ok {
        tips := tips[branch := base];
      }
    }

    method DeleteLocal(branch: string, succeeds: bool)
      modifies `tips
      ensures View() == DeleteLocalBranch(old(View()), branch, succeeds)
    {
      if succeeds {
        tips := BranchDelete(View(), branch).tips;
      }
    }

    method DeleteRemote(branch: string, succeeds: bool)
      modifies `remote
      ensures View() == DeleteRemoteBranch(old(View()), branch, succeeds)
    {
      if succeeds {
        remote := remote - {branch};
      }
    }

    method Push(branch: string, run: PushRun) returns (ok: bool)
      modifies `remote
      ensures Did(View(), ok) == PushBranch(old(View()), branch, run)
    {
      if run.Refused? || branch !in tips || (branch in remote && !AncestorOf(remote[branch], tips[branch])) {
        return false;
      }
      remote := remote[branch := tips[branch]];
      ok := run.Answered?;
    }
  }
}
