/** How long the SHA that `/start` records survives: whole-row updates by others carry the SHA of the copy they
    were made from. */
module RecordedSha {
  import opened Text
  import opened GitRepo
  import opened S = StartSaga

  /** The copies of row `i` in other hands that do not have this SHA. */
  function StaleCopies(s: System, i: nat, sha: Commit): set<nat> {
    set k | k in s.copies && s.copies[k].id == i && s.copies[k].sha != Some(sha)
  }

  /** A whole-row update of row `i` that the index lets through. */
  predicate Lands(s: System, e: Event, i: nat) {
    && e.Land? && e.k in s.copies && s.copies[e.k].id == i && i in s.rows
    && var row := Landed(s, e.k, e.state, e.moved);
       !(Holds(row) && !Holds(s.rows[i]) && !Free(s.rows, row.branch))
  }

  /** It brings another SHA: that of a copy in `stale`, or one its writer has resolved. */
  predicate Overwrites(s: System, e: Event, i: nat, sha: Commit, stale: set<nat>) {
    Lands(s, e, i) && if e.moved.Some? then e.moved != Some(sha) else e.k in stale
  }

  predicate NeverOverwritten(s: System, i: nat, sha: Commit, stale: set<nat>, events: seq<Event>)
    decreases |events|
  {
    events == []
    || (!Overwrites(s, events[0], i, sha, stale) && NeverOverwritten(Happen(s, events[0]), i, sha, stale, events[1..]))
  }

  predicate HasSha(s: System, i: nat, sha: Commit) { i in s.rows && s.rows[i].sha == Some(sha) }

  predicate AlwaysHasSha(s: System, i: nat, sha: Commit, events: seq<Event>)
    decreases |events|
  {
    HasSha(s, i, sha) && (events == [] || AlwaysHasSha(Happen(s, events[0]), i, sha, events[1..]))
  }

  predicate Recorded(phase: Phase) { phase.Replying? || phase.Replied? }

  /** The row has its SHA, and so has every copy of it but the stale ones. */
  ghost predicate Kept(s: System, i: nat, sha: Commit, stale: set<nat>) {
    && Known(s, i) && Recorded(s.phases[i]) && HasSha(s, i, sha) && stale <= s.copies.Keys
    && forall k :: k in s.copies && s.copies[k].id == i ==> (s.copies[k].sha == Some(sha) <==> k !in stale)
  }

  lemma RequestStepKeeps(s: System, j: nat, a: Answers, i: nat, sha: Commit, stale: set<nat>)
    requires Kept(s, i, sha, stale) && Known(s, j)
    ensures Kept(Next(s, j, a), i, sha, stale)
  {
    if i == j {
      assert Next(s, i, a).rows == s.rows && Next(s, i, a).copies == s.copies;
    } else {
      NextMovesOwnRowOnly(s, j, a);
    }
  }

  lemma OtherEventKeeps(s: System, e: Event, i: nat, sha: Commit, stale: set<nat>)
    requires Kept(s, i, sha, stale) && !e.Step?
    ensures if Overwrites(s, e, i, sha, stale) then !HasSha(Happen(s, e), i, sha) else Kept(Happen(s, e), i, sha, stale)
  {
    OtherEvents(s, e);
  }

  lemma {:induction false} KeptExactly(s: System, i: nat, sha: Commit, stale: set<nat>, events: seq<Event>)
    requires Kept(s, i, sha, stale)
    ensures AlwaysHasSha(s, i, sha, events) <==> NeverOverwritten(s, i, sha, stale, events)
    decreases |events|
  {
    if events != [] {
      var e := events[0];
      if e.Step? {
        if Known(s, e.i) { RequestStepKeeps(s, e.i, e.answers, i, sha, stale); }
        KeptExactly(Happen(s, e), i, sha, stale, events[1..]);
      } else {
        OtherEventKeeps(s, e, i, sha, stale);
        if !Overwrites(s, e, i, sha, stale) { KeptExactly(Happen(s, e), i, sha, stale, events[1..]); }
      }
    }
  }

  lemma RecordingKeeps(s: System, i: nat, a: Answers)
    requires Known(s, i) && s.phases[i].Recording? && a.recordOk && i in s.rows
    ensures Next(s, i, a).phases[i] == Replying(s.phases[i].sha)
    ensures Kept(Next(s, i, a), i, s.phases[i].sha, StaleCopies(s, i, s.phases[i].sha))
  {
    assert Next(s, i, a).copies == s.copies;
  }

  /** From the moment a SHA is recorded, in whatever state of the service, the row keeps it throughout, reply and
      all, if and only if no copy read before that moment with another SHA or none lands after it, and no other
      writer moves the SHA on. */
  lemma RecordedShaKeptExactly(s: System, i: nat, a: Answers, events: seq<Event>)
    requires Known(s, i) && s.phases[i].Recording? && a.recordOk && i in s.rows
    ensures var sha := s.phases[i].sha;
            AlwaysHasSha(Next(s, i, a), i, sha, events)
            <==> NeverOverwritten(Next(s, i, a), i, sha, StaleCopies(s, i, sha), events)
  {
    RecordingKeeps(s, i, a);
    KeptExactly(Next(s, i, a), i, s.phases[i].sha, StaleCopies(s, i, s.phases[i].sha), events);
  }

  /** Where nobody else resolves SHAs, every copy read before the SHA is recorded is stale. */
  lemma EveryEarlyCopyIsStale(s: System, before: seq<Event>, i: nat)
    requires Blank(s) && AllUnmoved(before)
    requires var u := S.After(s, before); Known(u, i) && u.phases[i].Recording?
    ensures var u := S.After(s, before);
            forall k :: k in StaleCopies(u, i, u.phases[i].sha) <==> k in u.copies && u.copies[k].id == i
  {
    BlankAlong(s, before);
    assert Unrecorded(S.After(s, before).phases[i]);
  }

  // ------------------------------------------------------------------ up to the reply

  lemma {:induction false} AlwaysHasShaEnds(s: System, i: nat, sha: Commit, events: seq<Event>)
    requires AlwaysHasSha(s, i, sha, events)
    ensures HasSha(S.After(s, events), i, sha)
    decreases |events|
  {
    if events != [] { AlwaysHasShaEnds(Happen(s, events[0]), i, sha, events[1..]); }
  }

  predicate ReplyingOrReplied(s: System, i: nat, sha: Commit) {
    Known(s, i) && (s.phases[i] == Replying(sha) || s.phases[i].Replied?)
  }

  lemma ReplyingStep(s: System, i: nat, sha: Commit, e: Event)
    requires ReplyingOrReplied(s, i, sha)
    ensures ReplyingOrReplied(Happen(s, e), i, sha)
  {
    if !e.Step? {
      OtherEvents(s, e);
    } else if Known(s, e.i) {
      NextMovesOwnRowOnly(s, e.i, e.answers);
    }
  }

  lemma {:induction false} ReplyingAlong(s: System, i: nat, sha: Commit, events: seq<Event>)
    requires ReplyingOrReplied(s, i, sha)
    ensures ReplyingOrReplied(S.After(s, events), i, sha)
    decreases |events|
  {
    if events != [] {
      ReplyingStep(s, i, sha, events[0]);
      ReplyingAlong(Happen(s, events[0]), i, sha, events[1..]);
    }
  }

  lemma {:induction false} RequestsStay(s: System, events: seq<Event>)
    ensures S.After(s, events).requests == s.requests
    decreases |events|
  {
    if events != [] {
      var e := events[0];
      if !e.Step? {
        OtherEvents(s, e);
      } else if Known(s, e.i) {
        NextMovesOwnRowOnly(s, e.i, e.answers);
      }
      RequestsStay(Happen(s, e), events[1..]);
    }
  }

  /** Created for an uploaded spec, in every interleaving of any number of starts and other writers that retires
      no row under its request.  When the request is about to reply, its row is active and its recorded commit is
      the local tip and the remote tip, with the spec at its path; and the row has held that SHA ever since it
      was recorded exactly when no copy stale at that moment has landed since. */
  lemma CreatedAgreesExactly(s: System, before: seq<Event>, i: nat, a: Answers, mid: seq<Event>)
    requires Sane(s) && Known(s, i) && AllSpare(s, before)
    requires var u := S.After(s, before);
             Known(u, i) && u.phases[i].Recording? && a.recordOk && AllSpare(Next(u, i, a), mid)
    requires var v := S.After(Next(S.After(s, before), i, a), mid); Known(v, i) && v.phases[i].Replying?
    ensures var u := S.After(s, before);
            var (w, v) := (Next(u, i, a), S.After(Next(u, i, a), mid));
            var (sha, request) := (u.phases[i].sha, s.requests[i]);
            && v.phases[i] == Replying(sha)
            && i in v.rows && v.rows[i].branch == request.branch && Holds(v.rows[i])
            && (request.spec.Some? ==>
                  && Holding(v.repo, request.branch, request.spec.value.path, request.spec.value.content)
                  && v.repo.tips[request.branch] == sha
                  && request.branch in v.repo.remote && v.repo.remote[request.branch] == sha)
            && (AlwaysHasSha(w, i, sha, mid) <==> NeverOverwritten(w, i, sha, StaleCopies(u, i, sha), mid))
            && (NeverOverwritten(w, i, sha, StaleCopies(u, i, sha), mid) ==> v.rows[i].sha == Some(sha))
  {
    RequestsStay(s, before);
    SaneAlong(s, before);
    var u := S.After(s, before);
    assert InFlight(u, i);
    RecordingKeeps(u, i, a);
    var w := Next(u, i, a);
    assert w == Happen(u, Step(i, a));
    SaneStepExactly(u, Step(i, a));
    SaneAlong(w, mid);
    ReplyingAlong(w, i, u.phases[i].sha, mid);
    var stale := StaleCopies(u, i, u.phases[i].sha);
    KeptExactly(w, i, u.phases[i].sha, stale, mid);
    var v := S.After(w, mid);
    NextMovesOwnRowOnly(u, i, a);
    RequestsStay(w, mid);
    assert InFlight(v, i) && Achieved(v, i);
    if NeverOverwritten(w, i, u.phases[i].sha, stale, mid) { AlwaysHasShaEnds(w, i, u.phases[i].sha, mid); }
  }
}
