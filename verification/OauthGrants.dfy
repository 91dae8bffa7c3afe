/** What a grant of the token endpoint becomes, and what later requests are handed out for it. */
module OauthGrants {
  import opened Text
  import opened OauthRefresh

  // ------------------------------------------------------------------ the credential of a grant

  function Clamp(x: int): int {
    if x < -0x8000_0000_0000_0000 then -0x8000_0000_0000_0000
    else if x > 0x7FFF_FFFF_FFFF_FFFF then 0x7FFF_FFFF_FFFF_FFFF
    else x
  }

  /** The expiry a grant states: absolute, in milliseconds from 2001 or 1970 on and else in seconds, or relative in
      seconds, or 55 minutes when it states none. */
  predicate ExpiresAsStated(g: Response, expires: int)
    requires g.Granted?
  {
    && (g.expires.Some? && g.expires.value >= 10_000_000_000 ==> expires == g.expires.value)
    && (g.expires.Some? && 0 < g.expires.value < 10_000_000_000 ==> expires == 1000 * g.expires.value)
    && (g.expires.Some? && g.expires.value <= 0 ==> expires == 0)
    && (g.expires.None? && g.expiresIn.Some? ==> expires == Clamp(g.at + Clamp(1000 * g.expiresIn.value)))
    && (g.expires.None? && g.expiresIn.None? ==> expires == g.at + 3_300_000)
  }

  /** A request is answered with a fresh credential exactly when it presented a refresh token and the endpoint
      granted; the credential then has the grant's own access token, its refresh token or else the presented one,
      its account or else the one before, and the expiry it states. */
  lemma RefreshedExactly(s: State, r: Request)
    ensures var served := Serve(s, r);
            && (served.outcome.Refreshed? <==> served.presented.Some? && r.response.Granted?)
            && (served.outcome.RefreshFailed? <==> served.presented.Some? && r.response.Refused?)
            && (served.outcome.Refreshed? ==>
                  var c := served.outcome.credential;
                  && r.file.CodexOauth?
                  && c.access == r.response.access
                  && Some(c.refresh) == (if r.response.refresh.Some? then r.response.refresh else served.presented)
                  && c.account == (if r.response.account.Some? then r.response.account
                                   else Effective(s, r.file.oauth).account)
                  && ExpiresAsStated(r.response, c.expires))
            && (served.outcome.Refreshed? ==>
                  served.state.credential == Some(served.outcome.credential)
                  && served.state.lastFailure.None? && served.state.failures == 0)
            && (served.outcome.RefreshFailed? ==>
                  && served.outcome.message == r.response.message
                  && served.state.credential == s.credential
                  && served.state.lastFailure == Some(Failure(r.now, r.response.message)))
  {
  }

  // ------------------------------------------------------------------ what is handed out later

  function At(rs: seq<Request>, k: nat): Served
    requires k < |rs|
  {
    Serve(After(FRESH, rs[..k]), rs[k])
  }

  /** Request `k` is the last of the run that got a grant. */
  predicate LastGrant(rs: seq<Request>, k: nat) {
    && k < |rs| && At(rs, k).outcome.Refreshed?
    && forall j :: k < j < |rs| ==> !At(rs, j).outcome.Refreshed?
  }

  lemma OneLastGrant(rs: seq<Request>, j: nat, k: nat)
    requires LastGrant(rs, j) && LastGrant(rs, k)
    ensures j == k
  {
  }

  predicate NoGrant(rs: seq<Request>) { forall k :: 0 <= k < |rs| ==> !At(rs, k).outcome.Refreshed? }

  /** The cache holds the credential of the last grant, and nothing before the first. */
  ghost predicate Remembers(rs: seq<Request>, cached: Option<Credential>) {
    if cached.None? then NoGrant(rs)
    else exists k: nat :: LastGrant(rs, k) && At(rs, k).outcome == Refreshed(cached.value)
  }

  lemma AtPrefix(rs: seq<Request>, r: Request, k: nat)
    requires k <= |rs|
    ensures At(rs + [r], k) == if k < |rs| then At(rs, k) else Serve(After(FRESH, rs), r)
  {
    assert (rs + [r])[..k] == rs[..k];
    if k == |rs| { assert rs[..k] == rs; }
  }

  lemma RemembersSnoc(rs: seq<Request>, r: Request, cached: Option<Credential>)
    requires Remembers(rs, cached)
    ensures Remembers(rs + [r], match Serve(After(FRESH, rs), r).outcome case Refreshed(c) => Some(c) case _ => cached)
  {
    var t := rs + [r];
    forall k | 0 <= k <= |rs| ensures At(t, k) == if k < |rs| then At(rs, k) else Serve(After(FRESH, rs), r) {
      AtPrefix(rs, r, k);
    }
    if At(t, |rs|).outcome.Refreshed? {
      assert LastGrant(t, |rs|);
    } else if cached.Some? {
      var k: nat :| LastGrant(rs, k) && At(rs, k).outcome == Refreshed(cached.value);
      assert LastGrant(t, k);
    }
  }

  lemma CachedAfter(s: State, r: Request)
    ensures Serve(s, r).state.credential ==
            match Serve(s, r).outcome case Refreshed(c) => Some(c) case _ => s.credential
  {
  }

  lemma {:induction false} RemembersAlong(rs: seq<Request>)
    ensures Remembers(rs, After(FRESH, rs).credential)
    decreases |rs|
  {
    if rs != [] {
      var (init, last) := (rs[..|rs| - 1], rs[|rs| - 1]);
      assert rs == init + [last];
      RemembersAlong(init);
      AfterOneMore(FRESH, init, last);
      RemembersSnoc(init, last, After(FRESH, init).credential);
      CachedAfter(After(FRESH, init), last);
    }
  }

  /** The credential of the last grant, of the file's account and ending later. */
  predicate Preferred(rs: seq<Request>, k: nat, file: Credential) {
    && LastGrant(rs, k)
    && At(rs, k).outcome.credential.account == file.account
    && At(rs, k).outcome.credential.expires > file.expires
  }

  lemma ServedFromCache(s: State, r: Request)
    requires Serve(s, r).outcome.Unchanged? && r.file.CodexOauth?
    ensures Serve(s, r).outcome.kept ==
            match s.credential
            case Some(c) =>
              if c.account == r.file.oauth.account && c.expires > r.file.oauth.expires then CodexOauth(c) else r.file
            case None => r.file
  {
  }

  /** Over every run, under changing files and clocks: a credential handed out without a refresh is that of the last
      grant, with the access token of that grant, when it is of the file's account and ends later than the file's;
      otherwise it is the file's own. */
  lemma HandedOutExactly(rs: seq<Request>, r: Request)
    requires Serve(After(FRESH, rs), r).outcome.Unchanged? && r.file.CodexOauth?
    ensures forall k: nat :: Preferred(rs, k, r.file.oauth) ==>
              && rs[k].response.Granted?
              && Serve(After(FRESH, rs), r).outcome.kept == CodexOauth(At(rs, k).outcome.credential)
              && Serve(After(FRESH, rs), r).outcome.kept.oauth.access == rs[k].response.access
    ensures (forall k: nat :: !Preferred(rs, k, r.file.oauth)) ==> Serve(After(FRESH, rs), r).outcome.kept == r.file
  {
    var s := After(FRESH, rs);
    RemembersAlong(rs);
    ServedFromCache(s, r);
    if s.credential.Some? {
      var k: nat :| LastGrant(rs, k) && At(rs, k).outcome == Refreshed(s.credential.value);
      RefreshedExactly(After(FRESH, rs[..k]), rs[k]);
      forall j: nat | LastGrant(rs, j) ensures j == k { OneLastGrant(rs, j, k); }
      assert Preferred(rs, k, r.file.oauth) <==> s.credential.value.account == r.file.oauth.account
                                                 && s.credential.value.expires > r.file.oauth.expires;
    }
  }

  /** An API key is handed out as it is and leaves the cache alone; a request in cooldown is told the failure that
      began it and how many whole seconds are left, at least one. */
  lemma OtherAnswers(s: State, r: Request)
    ensures r.file.ApiKey? ==> Serve(s, r) == Served(s, Unchanged(r.file), None)
    ensures Serve(s, r).outcome.Unchanged? ==> Serve(s, r).state == s
    ensures var served := Serve(s, r);
            served.outcome.CoolingDown? ==>
              && served.state == s && s.lastFailure.Some? && served.outcome.message == s.lastFailure.value.message
              && var left := s.lastFailure.value.at + 60_000 - r.now;
                 && served.outcome.seconds >= 1
                 && (left >= 1000 ==> served.outcome.seconds * 1000 <= left < served.outcome.seconds * 1000 + 1000)
                 && (left < 1000 ==> served.outcome.seconds == 1)
  {
  }
}
