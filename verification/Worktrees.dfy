/** One worktree per branch, no temporary worktree left behind, and writes that land on their branch:
    over every sequence of repository operations. */
module Worktrees {
  import opened GitRepo

  datatype Op =
    | Ensure(branch: string, addOk: bool)
    | Write(branch: string, path: string, content: string, env: WriteEnv)
    | Remove(branch: string, path: string, removal: RemoveEnv)
    | Create(branch: string, creation: CreateEnv)

  function Apply(r: Repo, op: Op): Did {
    match op
    case Ensure(b, addOk) => EnsureWorktree(r, b, PersistentDir(b), addOk)
    case Write(b, path, content, env) => WriteFileAs(r, b, path, content, env)
    case Remove(b, path, env) => RemovePath(r, b, path, env)
    case Create(b, env) => CreateBranch(r, b, env)
  }

  function After(r: Repo, ops: seq<Op>): Repo
    decreases |ops|
  {
    if ops == [] then r else After(Apply(r, ops[0]).repo, ops[1..])
  }

  /** Temporary directories carry fresh UUIDs. */
  predicate FreshTmp(r: Repo, op: Op) {
    match op
    case Write(_, _, _, env) => Tmp(env.tmp) !in r.worktrees
    case Remove(_, _, env) => Tmp(env.tmp) !in r.worktrees
    case _ => true
  }

  // ------------------------------------------------------------------ the invariant

  /** Every worktree is a branch's own persistent one. */
  predicate AtHome(r: Repo) {
    forall d :: d in r.worktrees ==> d == PersistentDir(r.worktrees[d].branch) && r.worktrees[d].branch in r.tips
  }

  predicate OnePerBranch(r: Repo) {
    forall d, e :: d in r.worktrees && e in r.worktrees && r.worktrees[d].branch == r.worktrees[e].branch ==> d == e
  }

  predicate NoTemps(r: Repo) { forall d :: d in r.worktrees ==> d.Wt? }

  /** Nothing is staged: every index is its branch's tree. */
  predicate NothingStaged(r: Repo) {
    forall d :: d in r.worktrees ==>
      r.worktrees[d].branch in r.tips && r.worktrees[d].index == r.tips[r.worktrees[d].branch].tree
  }

  /** Whether the operation goes through a temporary worktree. */
  predicate UsesTemp(r: Repo, op: Op) {
    match op
    case Write(b, _, _, env) => PersistentDir(b) !in r.worktrees && env.addOk && CanAdd(r, Tmp(env.tmp), b)
    case Remove(b, path, env) =>
      b in r.tips && HasPath(r.tips[b].tree, path) && PersistentDir(b) !in r.worktrees
      && env.addOk && CanAdd(r, Tmp(env.tmp), b)
    case _ => false
  }

  /** The two ways out of a temporary worktree that leave it there: its removal fails, or `git rm` or the
      commit behind it cannot be spawned. */
  predicate Leaks(r: Repo, op: Op) {
    UsesTemp(r, op) &&
    match op
    case Write(_, _, _, env) => !env.removeOk
    case Remove(_, _, env) => !env.removeOk || SpawnFails(env.run)
    case _ => false
  }

  /** The same worktrees on the same branches, whatever is staged in them. */
  predicate SameCheckouts(r: Repo, t: Repo) {
    && t.worktrees.Keys == r.worktrees.Keys
    && forall d :: d in r.worktrees ==> t.worktrees[d].branch == r.worktrees[d].branch
  }

  /** A branch has gained one worktree. */
  predicate GainedCheckout(r: Repo, t: Repo, dir: Dir, branch: string) {
    && t.worktrees.Keys == r.worktrees.Keys + {dir} && t.worktrees[dir].branch == branch
    && forall d :: d in r.worktrees && d != dir ==> t.worktrees[d].branch == r.worktrees[d].branch
  }

  lemma CommitKeepsCheckouts(r: Repo, dir: Dir, index: Tree, stamp: nat)
    requires Usable(r, dir)
    ensures var t := CommitIndex(Stage(r, dir, index), dir, stamp);
            SameCheckouts(r, t) && t.tips.Keys == r.tips.Keys && t.remote == r.remote
    ensures var (t, b) := (CommitIndex(Stage(r, dir, index), dir, stamp), r.worktrees[dir].branch);
            && t.tips[b].tree == index && AncestorOf(r.tips[b], t.tips[b])
            && forall other :: other in r.tips && other != b ==> t.tips[other] == r.tips[other]
  {
  }

  lemma InnerWriteKeepsCheckouts(r: Repo, dir: Dir, path: string, content: string, run: WriteRun)
    ensures var t := WriteInWorktree(r, dir, path, content, run).repo; SameCheckouts(r, t) && t.tips.Keys == r.tips.Keys
  {
    if Usable(r, dir) && run.Written? {
      CommitKeepsCheckouts(r, dir, r.worktrees[dir].index[path := content], run.stamp);
    }
  }

  lemma WriteWorktrees(r: Repo, b: string, path: string, content: string, env: WriteEnv)
    ensures WriteFileAs(r, b, path, content, env).repo.tips.Keys == r.tips.Keys
    ensures if Leaks(r, Write(b, path, content, env))
            then GainedCheckout(r, WriteFileAs(r, b, path, content, env).repo, Tmp(env.tmp), b)
            else SameCheckouts(r, WriteFileAs(r, b, path, content, env).repo)
  {
    if UsesTemp(r, Write(b, path, content, env)) {
      InnerWriteKeepsCheckouts(WorktreeAdd(r, Tmp(env.tmp), b, true).repo, Tmp(env.tmp), path, content, env.run);
    } else {
      InnerWriteKeepsCheckouts(r, PersistentDir(b), path, content, env.run);
    }
  }

  lemma InnerRemoveKeepsCheckouts(r: Repo, dir: Dir, path: string, run: RemoveRun)
    ensures var t := RemoveInWorktree(r, dir, path, run).repo; SameCheckouts(r, t) && t.tips.Keys == r.tips.Keys
  {
    if Usable(r, dir) && run.Removed? {
      CommitKeepsCheckouts(r, dir, WithoutPath(r.worktrees[dir].index, path), run.stamp);
    }
  }

  lemma RemoveWorktrees(r: Repo, b: string, path: string, env: RemoveEnv)
    ensures RemovePath(r, b, path, env).repo.tips.Keys == r.tips.Keys
    ensures if Leaks(r, Remove(b, path, env))
            then GainedCheckout(r, RemovePath(r, b, path, env).repo, Tmp(env.tmp), b)
            else SameCheckouts(r, RemovePath(r, b, path, env).repo)
  {
    if UsesTemp(r, Remove(b, path, env)) {
      InnerRemoveKeepsCheckouts(WorktreeAdd(r, Tmp(env.tmp), b, true).repo, Tmp(env.tmp), path, env.run);
    } else if b in r.tips && HasPath(r.tips[b].tree, path) {
      InnerRemoveKeepsCheckouts(r, PersistentDir(b), path, env.run);
    }
  }

  /** A call leaves a temporary worktree behind exactly when it leaks, whatever the inner write returned. */
  lemma TempSurvivesExactly(r: Repo, op: Op)
    requires NoTemps(r) && FreshTmp(r, op)
    ensures NoTemps(Apply(r, op).repo) <==> !Leaks(r, op)
  {
    match op {
      case Write(b, path, content, env) =>
        WriteWorktrees(r, b, path, content, env);
        assert Leaks(r, op) ==> Tmp(env.tmp) in Apply(r, op).repo.worktrees;
      case Remove(b, path, env) =>
        RemoveWorktrees(r, b, path, env);
        assert Leaks(r, op) ==> Tmp(env.tmp) in Apply(r, op).repo.worktrees;
      case _ =>
    }
  }

  lemma CreateKeepsHome(r: Repo, b: string, env: CreateEnv)
    requires AtHome(r)
    ensures AtHome(CreateBranch(r, b, env).repo)
  {
  }

  /** Worktrees at home are one per branch: a directory determines its branch's. */
  lemma HomeMeansOne(r: Repo)
    requires AtHome(r)
    ensures OnePerBranch(r) && NoTemps(r)
  {
    forall d | d in r.worktrees ensures d.Wt? { assert d == PersistentDir(r.worktrees[d].branch); }
  }

  lemma HomeStep(r: Repo, op: Op)
    requires AtHome(r) && FreshTmp(r, op)
    ensures !Leaks(r, op) ==> AtHome(Apply(r, op).repo)
  {
    HomeMeansOne(r);
    match op
    case Write(b, path, content, env) => WriteWorktrees(r, b, path, content, env);
    case Remove(b, path, env) => RemoveWorktrees(r, b, path, env);
    case Create(b, env) => CreateKeepsHome(r, b, env);
    case Ensure(_, _) =>
  }

  predicate LeakFree(r: Repo, ops: seq<Op>)
    decreases |ops|
  {
    ops == [] || (FreshTmp(r, ops[0]) && !Leaks(r, ops[0]) && LeakFree(Apply(r, ops[0]).repo, ops[1..]))
  }

  /** In every leak-free sequence of operations no branch is ever checked out twice and no temporary
      worktree survives. */
  lemma {:induction false} HomeAlong(r: Repo, ops: seq<Op>)
    requires AtHome(r) && LeakFree(r, ops)
    ensures AtHome(After(r, ops)) && OnePerBranch(After(r, ops)) && NoTemps(After(r, ops))
    decreases |ops|
  {
    if ops == [] {
      HomeMeansOne(r);
    } else {
      HomeStep(r, ops[0]);
      HomeAlong(Apply(r, ops[0]).repo, ops[1..]);
    }
  }

  predicate FreshAlong(r: Repo, ops: seq<Op>)
    decreases |ops|
  {
    ops == [] || (FreshTmp(r, ops[0]) && FreshAlong(Apply(r, ops[0]).repo, ops[1..]))
  }

  lemma CheckoutsKeepOnePerBranch(r: Repo, t: Repo, dir: Dir, branch: string)
    requires OnePerBranch(r)
    requires SameCheckouts(r, t) || (GainedCheckout(r, t, dir, branch) && CanAdd(r, dir, branch))
    ensures OnePerBranch(t)
  {
  }

  lemma CreateKeepsOnePerBranch(r: Repo, b: string, env: CreateEnv)
    requires OnePerBranch(r)
    ensures OnePerBranch(CreateBranch(r, b, env).repo)
  {
    var t := CreateBranch(r, b, env).repo;
    assert forall d :: d in t.worktrees ==> d in r.worktrees && t.worktrees[d] == r.worktrees[d];
  }

  lemma TempKeepsOnePerBranch(r: Repo, op: Op)
    requires op.Write? || op.Remove?
    requires OnePerBranch(r) && FreshTmp(r, op)
    ensures OnePerBranch(Apply(r, op).repo)
  {
    var t := Apply(r, op).repo;
    match op {
      case Write(b, path, content, env) => WriteWorktrees(r, b, path, content, env);
      case Remove(b, path, env) => RemoveWorktrees(r, b, path, env);
    }
    var tmp := Tmp(if op.Write? then op.env.tmp else op.removal.tmp);
    assert Leaks(r, op) ==> CanAdd(r, tmp, op.branch);
    CheckoutsKeepOnePerBranch(r, t, tmp, op.branch);
  }

  lemma OnePerBranchStep(r: Repo, op: Op)
    requires OnePerBranch(r) && FreshTmp(r, op)
    ensures OnePerBranch(Apply(r, op).repo)
  {
    match op
    case Write(_, _, _, _) => TempKeepsOnePerBranch(r, op);
    case Remove(_, _, _) => TempKeepsOnePerBranch(r, op);
    case Create(b, env) => CreateKeepsOnePerBranch(r, b, env);
    case Ensure(b, _) =>
      if CanAdd(r, PersistentDir(b), b) {
        CheckoutsKeepOnePerBranch(r, WorktreeAdd(r, PersistentDir(b), b, true).repo, PersistentDir(b), b);
      }
  }

  // ------------------------------------------------------------------ where a write lands

  /** The branch a write to `branch` really commits to, and the tree it starts from. */
  function Target(r: Repo, branch: string): string {
    if PersistentDir(branch) in r.worktrees then r.worktrees[PersistentDir(branch)].branch else branch
  }

  function BaseTree(r: Repo, branch: string): Tree
    requires branch in r.tips
  {
    if PersistentDir(branch) in r.worktrees then r.worktrees[PersistentDir(branch)].index else r.tips[branch].tree
  }

  /** With worktrees at home, a write whose commands run through succeeds for every existing branch: the
      manager is never refused by the one-worktree rule.  It commits the base tree with exactly the one
      path set, on top of the target branch, and moves no other branch. */
  lemma WriteLands(r: Repo, branch: string, path: string, content: string, env: WriteEnv)
    requires AtHome(r) && branch in r.tips && Tmp(env.tmp) !in r.worktrees
    requires env.addOk && env.run.Written? && env.removeOk
    ensures var (did, target) := (WriteFileAs(r, branch, path, content, env), Target(r, branch));
            && did.ok && SameCheckouts(r, did.repo) && did.repo.tips.Keys == r.tips.Keys && target in r.tips
            && did.repo.tips[target].tree == BaseTree(r, branch)[path := content]
            && AncestorOf(r.tips[target], did.repo.tips[target])
            && (forall b :: b in r.tips && b != target ==> did.repo.tips[b] == r.tips[b])
            && did.repo.remote == r.remote
  {
    var persistent := PersistentDir(branch);
    var dir := if persistent in r.worktrees then persistent else Tmp(env.tmp);
    if persistent !in r.worktrees {
      forall d | d in r.worktrees ensures r.worktrees[d].branch != branch {
        assert d == PersistentDir(r.worktrees[d].branch);
      }
      assert CanAdd(r, dir, branch);
    }
    var s := if persistent in r.worktrees then r else WorktreeAdd(r, dir, branch, true).repo;
    CommitKeepsCheckouts(s, dir, s.worktrees[dir].index[path := content], env.run.stamp);
  }

  lemma RemoveIsLanded(r: Repo, dir: Dir, path: string, stamp: nat)
    requires Usable(r, dir) && HasPath(r.worktrees[dir].index, path)
    ensures var (did, b) := (RemoveInWorktree(r, dir, path, Removed(stamp)), r.worktrees[dir].branch);
            && (did.ok <==> WithoutPath(r.worktrees[dir].index, path) != r.tips[b].tree)
            && SameCheckouts(r, did.repo) && b in did.repo.tips
            && did.repo.tips[b].tree == WithoutPath(r.worktrees[dir].index, path)
            && forall o :: o in r.tips && o != b ==> o in did.repo.tips && did.repo.tips[o] == r.tips[o]
  {
    CommitKeepsCheckouts(r, dir, WithoutPath(r.worktrees[dir].index, path), stamp);
  }

  /** A path covers itself and what lies behind it and a slash; a sibling whose name goes on otherwise it does not. */
  lemma UnderExactly(path: string, more: string)
    ensures Under(path, path + more) <==> more == "" || more[0] == '/'
    ensures forall key :: Under(path, key) ==> path <= key
  {
    var key := path + more;
    if more != "" {
      assert key[|path|] == more[0];
      if more[0] == '/' { assert key[..|path| + 1] == path + "/"; }
    } else {
      assert key == path;
    }
  }

  /** A branch that does not exist, or has nothing at the path: the removal is Ok and does nothing. */
  lemma NothingToRemove(r: Repo, branch: string, path: string, env: RemoveEnv)
    requires branch in r.tips ==> forall key :: key in r.tips[branch].tree ==> !Under(path, key)
    ensures RemovePath(r, branch, path, env) == Did(r, true)
  {
  }

  lemma RemovedIsGone(r: Repo, dir: Dir, path: string, run: RemoveRun)
    ensures var did := RemoveInWorktree(r, dir, path, run);
            did.ok ==> && Usable(r, dir) && r.worktrees[dir].branch in did.repo.tips
                       && !HasPath(did.repo.tips[r.worktrees[dir].branch].tree, path)
  {
    if RemoveInWorktree(r, dir, path, run).ok {
      CommitKeepsCheckouts(r, dir, WithoutPath(r.worktrees[dir].index, path), run.stamp);
    }
  }

  /** However the commands end, Ok means that there was nothing to remove or that nothing is left at or under the
      path on the branch the removal has reached. */
  lemma RemoveOkMeansGone(r: Repo, branch: string, path: string, env: RemoveEnv)
    requires RemovePath(r, branch, path, env).ok
    ensures var (did, target) := (RemovePath(r, branch, path, env), Target(r, branch));
            || branch !in r.tips || !HasPath(r.tips[branch].tree, path)
            || (target in did.repo.tips && !HasPath(did.repo.tips[target].tree, path))
  {
    if branch in r.tips && HasPath(r.tips[branch].tree, path) {
      if PersistentDir(branch) in r.worktrees {
        RemovedIsGone(r, PersistentDir(branch), path, env.run);
      } else {
        RemovedIsGone(WorktreeAdd(r, Tmp(env.tmp), branch, env.addOk).repo, Tmp(env.tmp), path, env.run);
      }
    }
  }

  /** A removal whose commands run through leaves nothing at or under the path on its target branch, keeps
      every other file of the base tree, and moves no other branch.  It fails exactly when what is
      then staged is the target's own tree, so that there is nothing to commit. */
  lemma RemoveLands(r: Repo, branch: string, path: string, env: RemoveEnv)
    requires AtHome(r) && branch in r.tips && Tmp(env.tmp) !in r.worktrees
    requires HasPath(r.tips[branch].tree, path) && HasPath(BaseTree(r, branch), path)
    requires env.addOk && env.run.Removed? && env.removeOk
    ensures var (did, target) := (RemovePath(r, branch, path, env), Target(r, branch));
            && target in r.tips && (did.ok <==> WithoutPath(BaseTree(r, branch), path) != r.tips[target].tree)
            && SameCheckouts(r, did.repo) && target in did.repo.tips
            && !HasPath(did.repo.tips[target].tree, path)
            && did.repo.tips[target].tree.Keys <= BaseTree(r, branch).Keys
            && (forall p :: !Under(path, p) && p in BaseTree(r, branch) ==>
                  p in did.repo.tips[target].tree && did.repo.tips[target].tree[p] == BaseTree(r, branch)[p])
            && forall b :: b in r.tips && b != target ==> b in did.repo.tips && did.repo.tips[b] == r.tips[b]
  {
    if PersistentDir(branch) in r.worktrees {
      RemoveIsLanded(r, PersistentDir(branch), path, env.run.stamp);
    } else {
      forall d | d in r.worktrees ensures r.worktrees[d].branch != branch {
        assert d == PersistentDir(r.worktrees[d].branch);
      }
      assert CanAdd(r, Tmp(env.tmp), branch);
      RemoveIsLanded(WorktreeAdd(r, Tmp(env.tmp), branch, true).repo, Tmp(env.tmp), path, env.run.stamp);
    }
  }

  /** Nothing is staged beside the path. */
  ghost predicate CleanBeside(index: Tree, tip: Tree, path: string) {
    forall p :: p != path ==> (p in index <==> p in tip) && (p in index ==> index[p] == tip[p])
  }

  lemma SetBeside(index: Tree, tip: Tree, path: string, content: string)
    ensures index[path := content] == tip[path := content] <==> CleanBeside(index, tip, path)
  {
    if index[path := content] == tip[path := content] {
      forall p | p != path ensures (p in index <==> p in tip) && (p in index ==> index[p] == tip[p]) {
        assert p in index[path := content] <==> p in index;
        assert p in tip[path := content] <==> p in tip;
        assert p in index ==> index[path := content][p] == index[p] && tip[path := content][p] == tip[p];
      }
    }
  }

  /** A write changes its one path on the target branch and nothing else if and only if nothing else was
      staged in the worktree it went through. */
  lemma WriteAddsOnlyItsPath(r: Repo, branch: string, path: string, content: string, env: WriteEnv)
    requires AtHome(r) && branch in r.tips && Tmp(env.tmp) !in r.worktrees
    requires env.addOk && env.run.Written? && env.removeOk
    ensures var (t, target) := (WriteFileAs(r, branch, path, content, env).repo, Target(r, branch));
            && target in r.tips && target in t.tips
            && (t.tips[target].tree == r.tips[target].tree[path := content]
                <==> CleanBeside(BaseTree(r, branch), r.tips[target].tree, path))
  {
    WriteLands(r, branch, path, content, env);
    SetBeside(BaseTree(r, branch), r.tips[Target(r, branch)].tree, path, content);
  }

  /** A write reaches its own branch exactly when its directory is free or its own; branches of distinct
      directories never meet this case. */
  lemma WriteReachesBranchExactly(r: Repo, branch: string)
    requires AtHome(r)
    ensures Target(r, branch) == branch <==>
            forall other :: other != branch && PersistentDir(other) == PersistentDir(branch)
              ==> !(PersistentDir(other) in r.worktrees && r.worktrees[PersistentDir(other)].branch == other)
  {
    var d := PersistentDir(branch);
    if d in r.worktrees && r.worktrees[d].branch != branch {
      var other := r.worktrees[d].branch;
      assert PersistentDir(other) == d;
    }
  }

  /** Two branches share a directory exactly when their names differ at most in having a slash for a dash. */
  lemma DirSharedExactly(a: string, b: string)
    ensures PersistentDir(a) == PersistentDir(b) <==>
            |a| == |b| && forall i :: 0 <= i < |a| ==> a[i] == b[i] || {a[i], b[i]} == {'/', '-'}
  {
    var (x, y) := (PersistentDir(a).name, PersistentDir(b).name);
    if |a| == |b| && forall i :: 0 <= i < |a| ==> a[i] == b[i] || {a[i], b[i]} == {'/', '-'} {
      assert x == y;
    }
    if x == y {
      forall i | 0 <= i < |a| ensures a[i] == b[i] || {a[i], b[i]} == {'/', '-'} {
        assert x[i] == y[i];
      }
    }
  }

  /** An ensure succeeds exactly when the directory is there already, whoever holds it, or git adds it: the branch
      exists, nothing has it checked out, and the add runs through.  Then the directory is there, for this branch if
      it is new, and nothing else has moved. */
  lemma EnsuredExactly(r: Repo, branch: string, addOk: bool)
    ensures var (dir, did) := (PersistentDir(branch), EnsureWorktree(r, branch, PersistentDir(branch), addOk));
            && (did.ok <==> dir in r.worktrees
                            || (addOk && branch in r.tips
                                && forall d :: d in r.worktrees ==> r.worktrees[d].branch != branch))
            && (did.ok && dir !in r.worktrees ==>
                  did.repo == r.(worktrees := r.worktrees[dir := Checkout(branch, r.tips[branch].tree)]))
            && (!did.ok || dir in r.worktrees ==> did.repo == r)
  {
  }

  const TWO_BRANCHES := Repo(map["agent/a-b/c" := Root(map[]), "agent/a/b-c" := Root(map[])], map[], map[])

  /** Two engineers' branches share a directory; once the first has its worktree, a spec written for the
      second is committed to the first, and Ok is returned. */
  lemma WriteLandsOnOtherBranch()
    ensures var r := EnsureWorktree(TWO_BRANCHES, "agent/a-b/c", PersistentDir("agent/a-b/c"), true).repo;
            var did := WriteFileAs(r, "agent/a/b-c", "notes.md", "x", WriteEnv(0, true, Written(0), true));
            && did.ok
            && did.repo.tips["agent/a-b/c"].tree == map["notes.md" := "x"]
            && did.repo.tips["agent/a/b-c"] == Root(map[])
  {
    assert PersistentDir("agent/a-b/c") == PersistentDir("agent/a/b-c");
    var d := PersistentDir("agent/a-b/c");
    var r := EnsureWorktree(TWO_BRANCHES, "agent/a-b/c", d, true).repo;
    assert r.worktrees == map[d := Checkout("agent/a-b/c", map[])];
    assert AtHome(r);
    WriteLands(r, "agent/a/b-c", "notes.md", "x", WriteEnv(0, true, Written(0), true));
    var empty: Tree := map[];
    assert empty["notes.md" := "x"] == map["notes.md" := "x"];
  }

  // ------------------------------------------------------------------ what a failed step leaves staged

  /** The operation ends between staging and committing in a worktree that stays. */
  predicate LeavesStaged(r: Repo, op: Op) {
    match op
    case Write(b, _, _, env) => PersistentDir(b) in r.worktrees && env.run.NotCommitted?
    case Remove(b, _, env) => PersistentDir(b) in r.worktrees && (env.run.CommitNotSpawned? || env.run.CommitFailed?)
    case _ => false
  }

  predicate CleanAlong(r: Repo, ops: seq<Op>)
    decreases |ops|
  {
    ops == []
    || (FreshTmp(r, ops[0]) && !Leaks(r, ops[0]) && !LeavesStaged(r, ops[0])
        && CleanAlong(Apply(r, ops[0]).repo, ops[1..]))
  }

  lemma CommitClears(r: Repo, dir: Dir, index: Tree, stamp: nat)
    requires OnePerBranch(r) && NothingStaged(r) && Usable(r, dir)
    ensures NothingStaged(CommitIndex(Stage(r, dir, index), dir, stamp))
  {
    CommitKeepsCheckouts(r, dir, index, stamp);
  }

  lemma AddKeepsNothingStaged(r: Repo, dir: Dir, branch: string)
    requires OnePerBranch(r) && NothingStaged(r) && CanAdd(r, dir, branch)
    ensures var s := WorktreeAdd(r, dir, branch, true).repo; OnePerBranch(s) && NothingStaged(s)
  {
  }

  predicate Tidy(r: Repo, op: Op) {
    OnePerBranch(r) && NothingStaged(r) && FreshTmp(r, op) && !Leaks(r, op) && !LeavesStaged(r, op)
  }

  lemma WriteLeavesNothingStaged(r: Repo, op: Op)
    requires op.Write? && Tidy(r, op)
    ensures NothingStaged(Apply(r, op).repo)
  {
    var Write(b, path, content, env) := op;
    var dir := if PersistentDir(b) in r.worktrees then PersistentDir(b) else Tmp(env.tmp);
    if dir in r.worktrees {
      if env.run.Written? { CommitClears(r, dir, r.worktrees[dir].index[path := content], env.run.stamp); }
    } else if UsesTemp(r, op) {
      AddKeepsNothingStaged(r, dir, b);
      var s := WorktreeAdd(r, dir, b, true).repo;
      if env.run.Written? { CommitClears(s, dir, s.worktrees[dir].index[path := content], env.run.stamp); }
    }
  }

  lemma RemoveLeavesNothingStaged(r: Repo, op: Op)
    requires op.Remove? && Tidy(r, op)
    ensures NothingStaged(Apply(r, op).repo)
  {
    var Remove(b, path, env) := op;
    var dir := if PersistentDir(b) in r.worktrees then PersistentDir(b) else Tmp(env.tmp);
    if dir in r.worktrees {
      if env.run.Removed? { CommitClears(r, dir, WithoutPath(r.worktrees[dir].index, path), env.run.stamp); }
    } else if UsesTemp(r, op) {
      AddKeepsNothingStaged(r, dir, b);
      var s := WorktreeAdd(r, dir, b, true).repo;
      if env.run.Removed? { CommitClears(s, dir, WithoutPath(s.worktrees[dir].index, path), env.run.stamp); }
    }
  }

  lemma EnsureLeavesNothingStaged(r: Repo, b: string, addOk: bool)
    requires OnePerBranch(r) && NothingStaged(r)
    ensures NothingStaged(EnsureWorktree(r, b, PersistentDir(b), addOk).repo)
  {
    if CanAdd(r, PersistentDir(b), b) {
      AddKeepsNothingStaged(r, PersistentDir(b), b);
    }
  }

  lemma CreateLeavesNothingStaged(r: Repo, b: string, env: CreateEnv)
    requires NothingStaged(r)
    ensures NothingStaged(CreateBranch(r, b, env).repo)
  {
  }

  lemma StepLeavesNothingStaged(r: Repo, op: Op)
    requires Tidy(r, op)
    ensures NothingStaged(Apply(r, op).repo)
  {
    match op
    case Write(_, _, _, _) => WriteLeavesNothingStaged(r, op);
    case Remove(_, _, _) => RemoveLeavesNothingStaged(r, op);
    case Create(b, env) => CreateLeavesNothingStaged(r, b, env);
    case Ensure(b, addOk) => EnsureLeavesNothingStaged(r, b, addOk);
  }

  /** In every sequence where no call leaks or stops between staging and committing, nothing stays staged,
      so each write changes exactly its own path. */
  lemma {:induction false} NothingStagedAlong(r: Repo, ops: seq<Op>)
    requires AtHome(r) && NothingStaged(r) && CleanAlong(r, ops)
    ensures AtHome(After(r, ops)) && NothingStaged(After(r, ops))
    decreases |ops|
  {
    if ops != [] {
      HomeMeansOne(r);
      HomeStep(r, ops[0]);
      StepLeavesNothingStaged(r, ops[0]);
      NothingStagedAlong(Apply(r, ops[0]).repo, ops[1..]);
    }
  }

  /** A write that returned an error after staging is committed by the next successful write to the same
      worktree, together with that write's own file. */
  lemma FailedWriteLandsLater(r: Repo, branch: string, p: string, x: string, q: string, y: string, env: WriteEnv)
    requires AtHome(r) && branch in r.tips && PersistentDir(branch) in r.worktrees && NothingStaged(r)
    requires Target(r, branch) == branch && Tmp(env.tmp) !in r.worktrees
    requires env.addOk && env.run.Written? && env.removeOk
    ensures var failed := WriteFileAs(r, branch, p, x, env.(run := NotCommitted));
            && !failed.ok && failed.repo.tips == r.tips
            && var later := WriteFileAs(failed.repo, branch, q, y, env);
               later.ok && later.repo.tips[branch].tree == r.tips[branch].tree[p := x][q := y]
  {
    var failed := WriteFileAs(r, branch, p, x, env.(run := NotCommitted));
    assert AtHome(failed.repo);
    WriteLands(failed.repo, branch, q, y, env);
  }

  // ------------------------------------------------------------------ a leak is for ever

  const ONE_BRANCH := Repo(map["b" := Root(map["p" := "x"])], map[], map[])

  /** From a clean repository: a write whose temporary worktree cannot be removed, and a removal whose commit
      cannot be spawned, each leave that worktree behind. */
  lemma LeakReached()
    ensures AtHome(ONE_BRANCH)
    ensures var did := WriteFileAs(ONE_BRANCH, "b", "q", "y", WriteEnv(0, true, Written(0), false));
            did.ok && !NoTemps(did.repo)
    ensures var did := RemovePath(ONE_BRANCH, "b", "p", RemoveEnv(0, true, CommitNotSpawned, true));
            !did.ok && !NoTemps(did.repo)
  {
    assert CanAdd(ONE_BRANCH, Tmp(0), "b");
    WriteWorktrees(ONE_BRANCH, "b", "q", "y", WriteEnv(0, true, Written(0), false));
    assert Tmp(0) in WriteFileAs(ONE_BRANCH, "b", "q", "y", WriteEnv(0, true, Written(0), false)).repo.worktrees;
    assert HasPath(ONE_BRANCH.tips["b"].tree, "p") by { assert Under("p", "p"); }
    RemoveWorktrees(ONE_BRANCH, "b", "p", RemoveEnv(0, true, CommitNotSpawned, true));
    assert Tmp(0) in RemovePath(ONE_BRANCH, "b", "p", RemoveEnv(0, true, CommitNotSpawned, true)).repo.worktrees;
  }

  predicate LeakedFor(r: Repo, tmp: nat, branch: string) {
    Tmp(tmp) in r.worktrees && r.worktrees[Tmp(tmp)].branch == branch && branch in r.tips
  }

  lemma LeakStaysCreate(r: Repo, tmp: nat, branch: string, b: string, env: CreateEnv)
    requires LeakedFor(r, tmp, branch)
    ensures LeakedFor(CreateBranch(r, b, env).repo, tmp, branch)
  {
    assert r.worktrees[Tmp(tmp)].branch == branch;
  }

  lemma LeakStays(r: Repo, tmp: nat, branch: string, op: Op)
    requires LeakedFor(r, tmp, branch)
    ensures LeakedFor(Apply(r, op).repo, tmp, branch)
  {
    match op
    case Write(b, path, content, env) => WriteWorktrees(r, b, path, content, env);
    case Remove(b, path, env) => RemoveWorktrees(r, b, path, env);
    case Create(b, env) => LeakStaysCreate(r, tmp, branch, b, env);
    case Ensure(_, _) =>
  }

  /** No later sequence of operations, on whatever branches, removes a leaked worktree, and by git's own rule it
      stays the only one its branch is checked out in. */
  lemma {:induction false} LeakStaysAlong(r: Repo, tmp: nat, branch: string, ops: seq<Op>)
    requires LeakedFor(r, tmp, branch) && OnePerBranch(r) && FreshAlong(r, ops)
    ensures LeakedFor(After(r, ops), tmp, branch) && OnePerBranch(After(r, ops))
    ensures forall d :: d in After(r, ops).worktrees && After(r, ops).worktrees[d].branch == branch ==> d == Tmp(tmp)
    decreases |ops|
  {
    if ops != [] {
      LeakStays(r, tmp, branch, ops[0]);
      OnePerBranchStep(r, ops[0]);
      LeakStaysAlong(Apply(r, ops[0]).repo, tmp, branch, ops[1..]);
    }
  }

  /** After a leak and any further operations whatever, an operation on the leaked branch that needs its worktree,
      or the branch anew, fails, as long as no other branch has taken the directory. */
  lemma LeakedBranchIsStuck(r: Repo, tmp: nat, ops: seq<Op>, op: Op)
    requires LeakedFor(r, tmp, op.branch) && OnePerBranch(r) && FreshAlong(r, ops)
    requires PersistentDir(op.branch) !in After(r, ops).worktrees
    ensures var s := After(r, ops);
            && op.branch in s.tips
            && (op.Ensure? || op.Write? ==> !Apply(s, op).ok)
            && (op.Remove? && HasPath(s.tips[op.branch].tree, op.path) ==> !Apply(s, op).ok)
            && (op.Create? && !op.creation.pr.Unknown? ==> !Apply(s, op).ok)
  {
    LeakStaysAlong(r, tmp, op.branch, ops);
    var s := After(r, ops);
    assert s.worktrees[Tmp(tmp)].branch == op.branch;
  }
}
