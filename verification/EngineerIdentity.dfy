/** The identity a spec is committed with: the loop over an engineer's stored credentials. */
module EngineerIdentity {
  import opened Text

  datatype Credential = Credential(provider: string, value: string, valid: bool, updatedAt: int)

  predicate Eligible(c: Credential, provider: string) { c.valid && c.provider == provider }

  /** The most recently updated valid entry; the first of equals. */
  predicate Newest(creds: seq<Credential>, provider: string, k: int) {
    && 0 <= k < |creds| && Eligible(creds[k], provider)
    && forall j :: 0 <= j < |creds| && j != k && Eligible(creds[j], provider) ==>
         if j < k then creds[j].updatedAt < creds[k].updatedAt else creds[j].updatedAt <= creds[k].updatedAt
  }

  method PickIdentity(creds: seq<Credential>, engineer: string) returns (name: string, email: string)
    ensures forall k :: Newest(creds, "_name", k) ==> name == creds[k].value
    ensures (forall k :: 0 <= k < |creds| ==> !Eligible(creds[k], "_name")) ==> name == engineer
    ensures forall k :: Newest(creds, "_email", k) ==> email == creds[k].value
    ensures (forall k :: 0 <= k < |creds| ==> !Eligible(creds[k], "_email")) ==> email == engineer + "@nautiloop.dev"
  {
    var bestName: Option<Credential>, bestEmail: Option<Credential> := None, None;
    for i := 0 to |creds|
      invariant Best(creds[..i], "_name", bestName)
      invariant Best(creds[..i], "_email", bestEmail)
    {
      var c := creds[i];
      assert creds[..i + 1] == creds[..i] + [c];
      BestSnoc(creds[..i], "_name", bestName, c);
      BestSnoc(creds[..i], "_email", bestEmail, c);
      if c.valid {
        if c.provider == "_name" && (bestName.None? || c.updatedAt > bestName.value.updatedAt) {
          bestName := Some(c);
        }
        if c.provider == "_email" && (bestEmail.None? || c.updatedAt > bestEmail.value.updatedAt) {
          bestEmail := Some(c);
        }
      }
    }
    assert creds[..|creds|] == creds;
    name := if bestName.Some? then bestName.value.value else engineer;
    email := if bestEmail.Some? then bestEmail.value.value else engineer + "@nautiloop.dev";
  }

  ghost predicate Best(creds: seq<Credential>, provider: string, best: Option<Credential>) {
    if best.None? then forall k :: 0 <= k < |creds| ==> !Eligible(creds[k], provider)
    else exists k :: Newest(creds, provider, k) && creds[k] == best.value
  }

  /** Whether a new entry takes over. */
  predicate Beats(c: Credential, provider: string, best: Option<Credential>) {
    Eligible(c, provider) && (best.None? || c.updatedAt > best.value.updatedAt)
  }

  lemma BestSnoc(creds: seq<Credential>, provider: string, best: Option<Credential>, c: Credential)
    requires Best(creds, provider, best)
    ensures Best(creds + [c], provider, if Beats(c, provider, best) then Some(c) else best)
  {
    var all := creds + [c];
    if Beats(c, provider, best) {
      if best.Some? {
        var k :| Newest(creds, provider, k) && creds[k] == best.value;
        assert forall j :: 0 <= j < |creds| && Eligible(creds[j], provider) ==>
          creds[j].updatedAt <= creds[k].updatedAt;
      }
      assert forall j :: 0 <= j < |all| && j != |creds| ==> all[j] == creds[j];
      assert Newest(all, provider, |creds|) && all[|creds|] == c;
    } else if best.Some? {
      var k :| Newest(creds, provider, k) && creds[k] == best.value;
      assert forall j :: 0 <= j < |all| && j != |creds| ==> all[j] == creds[j];
      assert Newest(all, provider, k) && all[k] == best.value;
    }
  }

  /** A newest entry exists as soon as an eligible one does, so the two clauses of PickIdentity decide it. */
  lemma {:induction false} NewestExists(creds: seq<Credential>, provider: string, i: nat)
    requires i < |creds| && Eligible(creds[i], provider)
    ensures exists k :: Newest(creds, provider, k)
    decreases |creds|
  {
    var front, c := creds[..|creds| - 1], creds[|creds| - 1];
    assert creds == front + [c];
    if j :| 0 <= j < |front| && Eligible(front[j], provider) {
      NewestExists(front, provider, j);
      var k :| Newest(front, provider, k);
      BestSnoc(front, provider, Some(front[k]), c);
    } else {
      BestSnoc(front, provider, None, c);
    }
  }
}
