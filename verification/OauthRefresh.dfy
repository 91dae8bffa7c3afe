/** The OAuth refresh cache of the model proxy: a cooldown, a failure streak, a degraded flag and a
    credential cache laid over a file, over whole sequential runs with arbitrary clock readings. */
module OauthRefresh {
  import opened Text

  const MARGIN_MS := 60_000
  const COOLDOWN_MS := 60_000
  const DEGRADED_THRESHOLD := 5
  const DEFAULT_LIFE_MS := 55 * 60 * 1000
  const U32_MAX := 0xFFFF_FFFF
  const I64_MAX := 0x7FFF_FFFF_FFFF_FFFF

  /** Millisecond clock readings.  chrono's own range lies well inside these bounds, so the plain i64
      sums and differences of the source cannot overflow. */
  type Clock = t: int | -0x4000_0000_0000_0000 < t < 0x4000_0000_0000_0000

  function Saturate(x: int): int {
    if x > I64_MAX then I64_MAX else if x < -I64_MAX - 1 then -I64_MAX - 1 else x
  }

  datatype Credential = Credential(access: string, refresh: string, expires: int, account: Option<string>)

  datatype FileCredential = ApiKey(key: string) | CodexOauth(oauth: Credential)

  datatype Failure = Failure(at: Clock, message: string)

  /** The cache behind the lock, and whether the flag file exists. */
  datatype State = State(credential: Option<Credential>, lastFailure: Option<Failure>, failures: nat, flag: bool)

  const FRESH := State(None, None, 0, false)

  /** How the token endpoint answers; `at` is the clock when a grant is parsed. */
  datatype Response =
    | Refused(message: string)
    | Granted(access: string, refresh: Option<string>, expires: Option<int>, expiresIn: Option<int>,
              account: Option<string>, at: Clock)

  /** One request: the credential file, the two clock readings, the answer a refresh would get and how
      the flag file operations would end. */
  datatype Request = Request(file: FileCredential, checkedAt: Clock, now: Clock, response: Response,
                             removeOk: bool, writeOk: bool)

  datatype Outcome =
    | Unchanged(kept: FileCredential)
    | CoolingDown(seconds: int, message: string)
    | Refreshed(credential: Credential)
    | RefreshFailed(message: string)

  /** What a request leaves behind, what it returns, and the refresh token it presented, if any. */
  datatype Served = Served(state: State, outcome: Outcome, presented: Option<string>)

  function NormalizeExpires(value: int): int {
    if value >= 10_000_000_000 then value
    else if value > 0 then Saturate(value * 1000)
    else 0
  }

  function GrantedCredential(prior: Credential, g: Response): Credential
    requires g.Granted?
  {
    var expires :=
      match g.expires
      case Some(v) => NormalizeExpires(v)
      case None =>
        match g.expiresIn
        case Some(v) => Saturate(g.at + Saturate(v * 1000))
        case None => Saturate(g.at + DEFAULT_LIFE_MS);
    Credential(g.access,
               if g.refresh.Some? then g.refresh.value else prior.refresh,
               expires,
               if g.account.Some? then g.account else prior.account)
  }

  /** A cached credential outranks the file's: same account and a later expiry. */
  predicate Outranks(cached: Credential, file: Credential) {
    cached.account == file.account && cached.expires > file.expires
  }

  function Effective(s: State, file: Credential): Credential {
    if s.credential.Some? && Outranks(s.credential.value, file) then s.credential.value else file
  }

  predicate NeedsRefresh(c: Credential, now: Clock) { c.expires <= now + MARGIN_MS }

  predicate Cooling(s: State, now: Clock) {
    s.lastFailure.Some? && Saturate(now - s.lastFailure.value.at) < COOLDOWN_MS
  }

  function Remaining(s: State, now: Clock): int
    requires s.lastFailure.Some?
  {
    var seconds := (COOLDOWN_MS - (now - s.lastFailure.value.at)) / 1000;
    if seconds < 1 then 1 else seconds
  }

  function OnGrant(s: State, c: Credential, removeOk: bool): State {
    State(Some(c), None, 0, s.flag && !removeOk)
  }

  function OnFailure(s: State, now: Clock, message: string, writeOk: bool): State {
    var n := if s.failures < U32_MAX then s.failures + 1 else U32_MAX;
    State(s.credential, Some(Failure(now, message)), n, s.flag || (n == DEGRADED_THRESHOLD && writeOk))
  }

  function Serve(s: State, r: Request): Served {
    match r.file
    case ApiKey(_) => Served(s, Unchanged(r.file), None)
    case CodexOauth(file) =>
      var c := Effective(s, file);
      if !NeedsRefresh(c, r.checkedAt) then Served(s, Unchanged(CodexOauth(c)), None)
      else if Cooling(s, r.now) then
        Served(s, CoolingDown(Remaining(s, r.now), s.lastFailure.value.message), None)
      else
        match r.response
        case Refused(m) => Served(OnFailure(s, r.now, m, r.writeOk), RefreshFailed(m), Some(c.refresh))
        case Granted(_, _, _, _, _, _) =>
          var g := GrantedCredential(c, r.response);
          Served(OnGrant(s, g, r.removeOk), Refreshed(g), Some(c.refresh))
  }

  /** The state behind the lock in the source's own form. */
  class OauthCache {
    var credential: Option<Credential>
    var lastFailure: Option<Failure>
    var consecutiveFailures: nat
    var flag: bool

    constructor ()
      ensures View() == FRESH
    {
      credential, lastFailure, consecutiveFailures, flag := None, None, 0, false;
    }

    function View(): State
      reads this
    {
      State(credential, lastFailure, consecutiveFailures, flag)
    }

    /** Cached or file credential, then a refresh if one is due and not in cooldown. */
    method EnsureFresh(r: Request) returns (outcome: Outcome, presented: Option<string>)
      modifies this
      ensures Served(View(), outcome, presented) == Serve(old(View()), r)
    {
      if r.file.ApiKey? {
        return Unchanged(r.file), None;
      }
      var oauth := r.file.oauth;
      if credential.Some? && Outranks(credential.value, oauth) {
        oauth := credential.value;
      }
      if !NeedsRefresh(oauth, r.checkedAt) {
        return Unchanged(CodexOauth(oauth)), None;
      }
      if lastFailure.Some? && Saturate(r.now - lastFailure.value.at) < COOLDOWN_MS {
        var remainingMs := COOLDOWN_MS - (r.now - lastFailure.value.at);
        var seconds := if remainingMs / 1000 < 1 then 1 else remainingMs / 1000;
        return CoolingDown(seconds, lastFailure.value.message), None;
      }
      match r.response {
        case Granted(_, _, _, _, _, _) =>
          var refreshed := GrantedCredential(oauth, r.response);
          credential := Some(refreshed);
          lastFailure := None;
          consecutiveFailures := 0;
          if r.removeOk {
            flag := false;
          }
          return Refreshed(refreshed), Some(oauth.refresh);
        case Refused(e) =>
          lastFailure := Some(Failure(r.now, e));
          consecutiveFailures := if consecutiveFailures < U32_MAX then consecutiveFailures + 1 else U32_MAX;
          if consecutiveFailures == DEGRADED_THRESHOLD && r.writeOk {
            flag := true;
          }
          return RefreshFailed(e), Some(oauth.refresh);
      }
    }
  }

  // ------------------------------------------------------------------ runs

  function After(s: State, rs: seq<Request>): State
    decreases |rs|
  {
    if rs == [] then s else After(Serve(s, rs[0]).state, rs[1..])
  }

  /** Clock readings recorded by the failures since the last success. */
  function Streak(s: State, streak: seq<int>, rs: seq<Request>): seq<int>
    decreases |rs|
  {
    if rs == [] then streak
    else Streak(Serve(s, rs[0]).state, StreakStep(s, streak, rs[0]), rs[1..])
  }

  function StreakStep(s: State, streak: seq<int>, r: Request): seq<int> {
    match Serve(s, r).outcome
    case Refreshed(_) => []
    case RefreshFailed(_) => streak + [r.now]
    case _ => streak
  }

  // ------------------------------------------------------------------ cooldown

  predicate Spaced(times: seq<int>) {
    forall i :: 0 <= i < |times| - 1 ==> times[i + 1] - times[i] >= COOLDOWN_MS
  }

  predicate StreakKept(s: State, streak: seq<int>) {
    && Spaced(streak)
    && (s.lastFailure.Some? <==> streak != [])
    && (streak != [] ==> s.lastFailure.value.at == streak[|streak| - 1])
    && s.failures == (if |streak| < U32_MAX then |streak| else U32_MAX)
  }

  lemma StreakKeptStep(s: State, streak: seq<int>, r: Request)
    requires StreakKept(s, streak)
    ensures StreakKept(Serve(s, r).state, StreakStep(s, streak, r))
  {
    if Serve(s, r).outcome.RefreshFailed? {
      var t := streak + [r.now];
      assert forall i :: 0 <= i < |streak| ==> t[i] == streak[i];
    }
  }

  lemma {:induction false} StreakKeptAlong(s: State, streak: seq<int>, rs: seq<Request>)
    requires StreakKept(s, streak)
    ensures StreakKept(After(s, rs), Streak(s, streak, rs))
    decreases |rs|
  {
    if rs != [] {
      StreakKeptStep(s, streak, rs[0]);
      StreakKeptAlong(Serve(s, rs[0]).state, StreakStep(s, streak, rs[0]), rs[1..]);
    }
  }

  lemma {:induction false} SpacedSpan(times: seq<int>, i: nat, j: nat)
    requires Spaced(times) && i <= j < |times|
    ensures times[j] - times[i] >= (j - i) * COOLDOWN_MS
  {
    if i < j {
      SpacedSpan(times, i, j - 1);
      assert times[j - 1 + 1] - times[j - 1] >= COOLDOWN_MS;
    }
  }

  /** Whatever the clock does, the recorded failures of a streak lie at least the cooldown apart, and
      the failure count is the length of the streak. */
  lemma FailuresAreSpaced(rs: seq<Request>)
    ensures var streak := Streak(FRESH, [], rs);
            && (forall i, j :: 0 <= i <= j < |streak| ==> streak[j] - streak[i] >= (j - i) * COOLDOWN_MS)
            && After(FRESH, rs).failures == (if |streak| < U32_MAX then |streak| else U32_MAX)
            && (After(FRESH, rs).lastFailure.Some? <==> After(FRESH, rs).failures > 0)
  {
    StreakKeptAlong(FRESH, [], rs);
    var streak := Streak(FRESH, [], rs);
    forall i, j | 0 <= i <= j < |streak| ensures streak[j] - streak[i] >= (j - i) * COOLDOWN_MS {
      SpacedSpan(streak, i, j);
    }
  }

  /** Over every run a refresh is attempted exactly when the credential in force ends within a minute of
      the first clock reading and the streak's last failure lies at least a minute back; what is handed
      out otherwise lasts longer than that. */
  lemma AttemptedExactly(rs: seq<Request>, r: Request)
    requires r.file.CodexOauth?
    ensures var (s, streak, served) := (After(FRESH, rs), Streak(FRESH, [], rs), Serve(After(FRESH, rs), r));
            && (served.presented.Some? <==>
                  && Effective(s, r.file.oauth).expires <= r.checkedAt + 60_000
                  && (streak == [] || r.now - streak[|streak| - 1] >= 60_000))
            && (served.outcome.Unchanged? ==>
                  served.outcome.kept.CodexOauth? && served.outcome.kept.oauth.expires > r.checkedAt + 60_000)
  {
    StreakKeptAlong(FRESH, [], rs);
  }

  // ------------------------------------------------------------------ degraded flag

  /** The file operation this request depends on, if any, succeeds: the write at the fifth failure, the
      removal when a success finds the flag. */
  predicate FlagOpOk(s: State, r: Request) {
    match Serve(s, r).outcome
    case RefreshFailed(_) => s.failures + 1 == DEGRADED_THRESHOLD ==> r.writeOk
    case Refreshed(_) => s.flag ==> r.removeOk
    case _ => true
  }

  predicate FlagExact(s: State) { s.flag <==> s.failures >= DEGRADED_THRESHOLD }

  lemma FlagStep(s: State, r: Request)
    requires FlagExact(s)
    ensures FlagExact(Serve(s, r).state) <==> FlagOpOk(s, r)
  {
  }

  predicate FlagOpsOk(s: State, rs: seq<Request>)
    decreases |rs|
  {
    rs == [] || (FlagOpOk(s, rs[0]) && FlagOpsOk(Serve(s, rs[0]).state, rs[1..]))
  }

  predicate AlwaysExact(s: State, rs: seq<Request>)
    decreases |rs|
  {
    FlagExact(s) && (rs == [] || AlwaysExact(Serve(s, rs[0]).state, rs[1..]))
  }

  /** Throughout a run the flag exists exactly when at least five refreshes have failed since the last
      success, if and only if every file operation that mattered succeeded. */
  lemma {:induction false} FlagExactAlong(s: State, rs: seq<Request>)
    requires FlagExact(s)
    ensures AlwaysExact(s, rs) <==> FlagOpsOk(s, rs)
    decreases |rs|
  {
    if rs != [] {
      FlagStep(s, rs[0]);
      if FlagOpOk(s, rs[0]) {
        FlagExactAlong(Serve(s, rs[0]).state, rs[1..]);
      }
    }
  }

  predicate NoSuccess(s: State, rs: seq<Request>)
    decreases |rs|
  {
    rs == [] || (!Serve(s, rs[0]).outcome.Refreshed? && NoSuccess(Serve(s, rs[0]).state, rs[1..]))
  }

  /** A flag write that failed is never tried again: the rest of the streak goes by without the flag. */
  lemma {:induction false} MissedFlagStaysMissing(s: State, rs: seq<Request>)
    requires !s.flag && s.failures >= DEGRADED_THRESHOLD && NoSuccess(s, rs)
    ensures !After(s, rs).flag && After(s, rs).failures >= DEGRADED_THRESHOLD
    decreases |rs|
  {
    if rs != [] { MissedFlagStaysMissing(Serve(s, rs[0]).state, rs[1..]); }
  }

  /** The request that raises the flag is the fifth failure of its streak and comes at least four
      cooldowns after the first. */
  lemma FlagComesLate(rs: seq<Request>, r: Request)
    requires !After(FRESH, rs).flag && Serve(After(FRESH, rs), r).state.flag
    ensures var streak := StreakStep(After(FRESH, rs), Streak(FRESH, [], rs), r);
            |streak| == DEGRADED_THRESHOLD && streak[4] == r.now && r.now - streak[0] >= 240_000
  {
    var s := After(FRESH, rs);
    StreakKeptAlong(FRESH, [], rs);
    StreakKeptStep(s, Streak(FRESH, [], rs), r);
    SpacedSpan(StreakStep(s, Streak(FRESH, [], rs), r), 0, 4);
  }

  // ------------------------------------------------------------------ refresh tokens

  /** The successive refresh tokens: the file's, then each different one a success brought. */
  function Chain(s: State, chain: seq<string>, rs: seq<Request>): seq<string>
    decreases |rs|
  {
    if rs == [] then chain else Chain(Serve(s, rs[0]).state, ChainStep(s, chain, rs[0]), rs[1..])
  }

  function ChainStep(s: State, chain: seq<string>, r: Request): seq<string> {
    match Serve(s, r).outcome
    case Refreshed(c) => if chain != [] && c.refresh == chain[|chain| - 1] then chain else chain + [c.refresh]
    case _ => chain
  }

  /** This request sees the same file, and a grant it gets outranks it. */
  predicate Trusted(s: State, file: Credential, r: Request) {
    && r.file == CodexOauth(file)
    && (Serve(s, r).outcome.Refreshed? ==> Outranks(Serve(s, r).outcome.credential, file))
  }

  predicate TrustedRun(s: State, file: Credential, rs: seq<Request>)
    decreases |rs|
  {
    rs == [] || (Trusted(s, file, rs[0]) && TrustedRun(Serve(s, rs[0]).state, file, rs[1..]))
  }

  /** The token the next attempt would present is the last of the chain. */
  predicate ChainKept(s: State, file: Credential, chain: seq<string>) {
    && chain != [] && Effective(s, file).refresh == chain[|chain| - 1]
    && (s.credential.Some? ==> Outranks(s.credential.value, file))
  }

  lemma {:induction false} ChainKeptAlong(s: State, file: Credential, chain: seq<string>, rs: seq<Request>)
    requires ChainKept(s, file, chain) && TrustedRun(s, file, rs)
    ensures ChainKept(After(s, rs), file, Chain(s, chain, rs))
    decreases |rs|
  {
    if rs != [] {
      ChainKeptAlong(Serve(s, rs[0]).state, file, ChainStep(s, chain, rs[0]), rs[1..]);
    }
  }

  predicate Distinct(chain: seq<string>) {
    forall i, j :: 0 <= i < j < |chain| ==> chain[i] != chain[j]
  }

  /** Every attempt presents the token of the most recent success; so when the server never reissues a
      token, no replaced token is ever presented again. */
  lemma LatestTokenPresented(file: Credential, rs: seq<Request>, r: Request)
    requires TrustedRun(FRESH, file, rs) && r.file == CodexOauth(file)
    requires Serve(After(FRESH, rs), r).presented.Some?
    ensures var chain := Chain(FRESH, [file.refresh], rs);
            var token := Serve(After(FRESH, rs), r).presented.value;
            && chain != [] && token == chain[|chain| - 1]
            && (After(FRESH, rs).credential.Some? ==> token == After(FRESH, rs).credential.value.refresh)
            && (Distinct(chain) ==> token !in chain[..|chain| - 1])
  {
    ChainKeptAlong(FRESH, file, [file.refresh], rs);
  }

  /** The attempt that follows a success under the same file presents the granted token exactly when the
      grant outranks the file; otherwise it goes back to the file's token, consumed or not. */
  lemma NextTokenExactly(s: State, file: Credential, r: Request, next: Request)
    requires r.file == next.file == CodexOauth(file) && Serve(s, r).outcome.Refreshed?
    requires Serve(Serve(s, r).state, next).presented.Some?
    ensures var grant := Serve(s, r).outcome.credential;
            Serve(Serve(s, r).state, next).presented.value ==
            if Outranks(grant, file) then grant.refresh else file.refresh
  {
  }

  /** A grant with a relative lifetime over a minute, or none stated, outranks the file by itself when
      the clock does not go back during the call and the server names no other account. */
  lemma RelativeGrantOutranks(s: State, file: Credential, r: Request)
    requires r.file == CodexOauth(file) && Serve(s, r).outcome.Refreshed?
    requires r.response.expires.None? && r.response.at >= r.checkedAt
    requires r.response.expiresIn.Some? ==> r.response.expiresIn.value > 60
    requires r.response.account.Some? ==> r.response.account == file.account
    ensures Outranks(Serve(s, r).outcome.credential, file)
  {
  }

  // ------------------------------------------------------------------ the latest token over a run

  /** The token of the most recent success, or the file's. */
  function Latest(last: Option<Credential>, file: Credential): string {
    if last.Some? then last.value.refresh else file.refresh
  }

  function LastStep(s: State, last: Option<Credential>, r: Request): Option<Credential> {
    match Serve(s, r).outcome
    case Refreshed(c) => Some(c)
    case _ => last
  }

  predicate SameFile(file: Credential, rs: seq<Request>) {
    forall i :: 0 <= i < |rs| ==> rs[i].file == CodexOauth(file)
  }

  /** Every attempt of the run presents the latest token. */
  predicate AlwaysLatest(s: State, last: Option<Credential>, file: Credential, rs: seq<Request>)
    decreases |rs|
  {
    rs == []
    || (&& (Serve(s, rs[0]).presented.Some? ==> Serve(s, rs[0]).presented.value == Latest(last, file))
        && AlwaysLatest(Serve(s, rs[0]).state, LastStep(s, last, rs[0]), file, rs[1..]))
  }

  /** Every grant that is followed by another attempt outranks the file, or has left the token as it was. */
  predicate GrantsCount(s: State, last: Option<Credential>, file: Credential, rs: seq<Request>)
    decreases |rs|
  {
    rs == []
    || (&& (Serve(s, rs[0]).presented.Some? && last.Some? ==>
              Outranks(last.value, file) || last.value.refresh == file.refresh)
        && GrantsCount(Serve(s, rs[0]).state, LastStep(s, last, rs[0]), file, rs[1..]))
  }

  lemma {:induction false} AlwaysLatestFrom(s: State, last: Option<Credential>, file: Credential, rs: seq<Request>)
    requires SameFile(file, rs) && s.credential == last
    ensures AlwaysLatest(s, last, file, rs) <==> GrantsCount(s, last, file, rs)
    decreases |rs|
  {
    if rs != [] {
      assert rs[0].file == CodexOauth(file);
      assert forall i :: 0 <= i < |rs[1..]| ==> rs[1..][i] == rs[i + 1];
      AlwaysLatestFrom(Serve(s, rs[0]).state, LastStep(s, last, rs[0]), file, rs[1..]);
    }
  }

  /** Over any run under one credential file, every attempt presents the token of the most recent success if and
      only if every grant followed by another attempt outranks the file or kept its token. */
  lemma LatestTokenExactly(file: Credential, rs: seq<Request>)
    requires SameFile(file, rs)
    ensures AlwaysLatest(FRESH, None, file, rs) <==> GrantsCount(FRESH, None, file, rs)
  {
    AlwaysLatestFrom(FRESH, None, file, rs);
  }

  const OLD_FILE := Credential("a0", "r0", 1_000, None)
  const NOW := 2_000_000_000_000

  /** A server that answers with an absolute expiry in the past. */
  const BAD_GRANT :=
    Request(CodexOauth(OLD_FILE), NOW, NOW, Granted("a1", Some("r1"), Some(0), None, None, NOW), true, true)

  /** Its grant does not outrank the file, so the consumed token goes out a second time. */
  lemma ConsumedTokenReplayed()
    ensures Serve(FRESH, BAD_GRANT).outcome.Refreshed?
    ensures Serve(FRESH, BAD_GRANT).outcome.credential.refresh == "r1"
    ensures Serve(FRESH, BAD_GRANT).presented == Some("r0")
    ensures Serve(Serve(FRESH, BAD_GRANT).state, BAD_GRANT).presented == Some("r0")
  {
  }

  // ------------------------------------------------------------------ a missed flag

  /** Failures a minute apart under the old file; the write of the flag fails. */
  function Failing(n: nat): seq<Request>
    requires n <= 5
  {
    if n == 0 then []
    else Failing(n - 1) + [Request(CodexOauth(OLD_FILE), NOW, NOW + n * COOLDOWN_MS, Refused("expired"), true, false)]
  }

  lemma {:induction false} AfterOneMore(s: State, rs: seq<Request>, r: Request)
    ensures After(s, rs + [r]) == Serve(After(s, rs), r).state
    decreases |rs|
  {
    if rs == [] {
      assert [] + [r] == [r] && [r][1..] == [];
    } else {
      assert (rs + [r])[1..] == rs[1..] + [r];
      AfterOneMore(Serve(s, rs[0]).state, rs[1..], r);
    }
  }

  lemma {:induction false} FailingFails(n: nat)
    requires n <= 5
    ensures var s := After(FRESH, Failing(n));
            && s.failures == n && !s.flag && s.credential == None
            && (s.lastFailure.Some? <==> n > 0) && (n > 0 ==> s.lastFailure.value.at == NOW + n * COOLDOWN_MS)
  {
    if n > 0 {
      FailingFails(n - 1);
      AfterOneMore(FRESH, Failing(n - 1), Failing(n)[|Failing(n)| - 1]);
    }
  }

  /** Five failures in a row and no flag: the one write there is has failed. */
  lemma MissedFlagReached()
    ensures After(FRESH, Failing(5)).failures == DEGRADED_THRESHOLD && !After(FRESH, Failing(5)).flag
  {
    FailingFails(5);
  }
}
