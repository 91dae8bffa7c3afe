/** The `/start` handler in its own form, refining one request's run of the saga. */
module StartHandler {
  import opened Text
  import opened GitRepo
  import opened StartSaga
  import opened StartOutcomes

  class ControlPlane {
    var rows: Rows
    const git: BareRepo

    constructor (git: BareRepo)
      ensures this.git == git && rows == map[]
    {
      this.git := git;
      rows := map[];
    }

    /** The state of one request and nothing else. */
    ghost function Alone(id: nat, request: Request, phase: Phase): System
      reads this, git
    {
      System(rows, git.View(), map[id := request], map[id := phase], map[])
    }

    method Start(id: nat, request: Request, a: Answers) returns (reply: Reply)
      modifies `rows, git
      ensures Alone(id, request, Replied(reply)) == RunAlone(old(Alone(id, request, Inserting)), id, a)
    {
      if !a.insertOk {
        return NotInserted;
      }
      if !Free(rows, request.branch) {
        return Conflict;
      }
      rows := rows[id := Row(request.branch, Pending, false, None)];
      assert Alone(id, request, Creating) == Next(old(Alone(id, request, Inserting)), id, a);
      reply := Branch(id, request, a);
    }

    /** Create the branch, commit an uploaded spec to it, record its SHA. */
    method Branch(id: nat, request: Request, a: Answers) returns (reply: Reply)
      modifies `rows, git
      ensures Alone(id, request, Replied(reply)) == RunAlone(old(Alone(id, request, Creating)), id, a)
    {
      var told := git.Create(request.branch, a.create);
      if told.None? {
        assert Alone(id, request, Failing) == Next(old(Alone(id, request, Creating)), id, a);
        MarkFailed(id, request, a);
        return Broken;
      }
      if request.spec.None? {
        assert Alone(id, request, Recording(told.value, false)) == Next(old(Alone(id, request, Creating)), id, a);
        reply := Record(id, request, told.value, false, a);
        return;
      }
      assert Alone(id, request, Committing) == Next(old(Alone(id, request, Creating)), id, a);
      var committed := CommitSpec(id, request, a);
      if committed.None? {
        Undo(id, request, true, a);
        return Broken;
      }
      reply := Record(id, request, committed.value, true, a);
    }

    method Record(id: nat, request: Request, sha: Commit, pushed: bool, a: Answers) returns (reply: Reply)
      modifies `rows, git
      ensures Alone(id, request, Replied(reply)) == RunAlone(old(Alone(id, request, Recording(sha, pushed))), id, a)
    {
      if !a.recordOk || id !in rows {
        assert Alone(id, request, DroppingLocal(pushed))
            == Next(old(Alone(id, request, Recording(sha, pushed))), id, a);
        Undo(id, request, pushed, a);
        return Broken;
      }
      rows := Update(rows, id, rows[id].(sha := Some(sha)));
      ghost var replying := Alone(id, request, Replying(sha));
      assert replying == Next(old(Alone(id, request, Recording(sha, pushed))), id, a);
      ReplyingAlone(replying, id, a);
      return Created;
    }

    /** Write, read back and push; on failure the caller compensates. */
    method CommitSpec(id: nat, request: Request, a: Answers) returns (sha: Option<Commit>)
      requires request.spec.Some?
      modifies git
      ensures RunAlone(old(Alone(id, request, Committing)), id, a)
           == RunAlone(Alone(id, request, if sha.Some? then Recording(sha.value, true) else DroppingLocal(true)), id, a)
    {
      if !a.credsOk {
        assert Alone(id, request, DroppingLocal(true)) == Next(old(Alone(id, request, Committing)), id, a);
        return None;
      }
      var wrote := git.WriteFile(request.branch, request.spec.value.path, request.spec.value.content, a.write);
      if !wrote {
        assert Alone(id, request, DroppingLocal(true)) == Next(old(Alone(id, request, Committing)), id, a);
        return None;
      }
      assert Alone(id, request, Reading) == Next(old(Alone(id, request, Committing)), id, a);
      sha := ReadAndPush(id, request, a);
    }

    method ReadAndPush(id: nat, request: Request, a: Answers) returns (sha: Option<Commit>)
      modifies git
      ensures RunAlone(old(Alone(id, request, Reading)), id, a)
           == RunAlone(Alone(id, request, if sha.Some? then Recording(sha.value, true) else DroppingLocal(true)), id, a)
    {
      if !a.readOk || request.branch !in git.tips {
        assert Alone(id, request, DroppingLocal(true)) == Next(old(Alone(id, request, Reading)), id, a);
        return None;
      }
      var tip := git.tips[request.branch];
      ghost var pushing := Alone(id, request, Pushing(tip));
      assert pushing == Next(old(Alone(id, request, Reading)), id, a);
      var ok := git.Push(request.branch, a.push);
      sha := if ok then Some(tip) else None;
      assert Alone(id, request, if ok then Recording(tip, true) else DroppingLocal(true)) == Next(pushing, id, a);
    }

    method Undo(id: nat, request: Request, remoteToo: bool, a: Answers)
      modifies `rows, git
      ensures Alone(id, request, Replied(Broken)) == RunAlone(old(Alone(id, request, DroppingLocal(remoteToo))), id, a)
    {
      ghost var dropping := Alone(id, request, DroppingLocal(remoteToo));
      git.DeleteLocal(request.branch, a.deleteOk);
      if remoteToo {
        assert Alone(id, request, DroppingRemote) == Next(dropping, id, a);
        ghost var remote := Alone(id, request, DroppingRemote);
        git.DeleteRemote(request.branch, a.remoteDeleteOk);
        assert Alone(id, request, Failing) == Next(remote, id, a);
      } else {
        assert Alone(id, request, Failing) == Next(dropping, id, a);
      }
      MarkFailed(id, request, a);
    }

    method MarkFailed(id: nat, request: Request, a: Answers)
      modifies `rows
      ensures Alone(id, request, Replied(Broken)) == RunAlone(old(Alone(id, request, Failing)), id, a)
    {
      ghost var failing := Alone(id, request, Failing);
      if a.failOk && id in rows {
        rows := Update(rows, id, rows[id].(state := Failed));
      }
      assert Alone(id, request, Replied(Broken)) == Next(failing, id, a);
    }
  }
}
