/** Two classifications of a local and a remote tip over the commit graph, and how runs of commits and
    pushes move between the classes. */
module Divergence {

  /** Commit `i` has parents `g[i]`, all older than itself: hashing makes every git history of this form. */
  type Graph = seq<set<nat>>

  predicate Dag(g: Graph) {
    forall i, p :: 0 <= i < |g| && p in g[i] ==> p < i
  }

  /** `a` is `c` or an ancestor of it. */
  predicate Reaches(g: Graph, a: nat, c: nat)
    requires Dag(g)
    decreases c
  {
    c < |g| && (a == c || exists p :: p in g[c] && Reaches(g, a, p))
  }

  /** `git merge-base --is-ancestor`: an unknown commit makes the command fail, which reads as "no". */
  predicate IsAncestor(g: Graph, a: nat, c: nat)
    requires Dag(g)
  {
    a < |g| && c < |g| && Reaches(g, a, c)
  }

  /** `git rev-parse` of a ref. */
  datatype Lookup = Found(sha: nat) | NoSuchRef | Broken(message: string)

  datatype DivergenceResult =
    | LocalAhead
    | RemoteAhead(localSha: nat, remoteSha: nat)
    | ForceDeviated(localSha: nat, remoteSha: nat)
    | RemoteGone

  datatype Result<+T> = Ok(value: T) | Err(message: string)

  function DetectDivergence(g: Graph, local: Lookup, remote: Lookup): DivergenceResult
    requires Dag(g)
  {
    if !local.Found? then RemoteGone
    else if !remote.Found? then RemoteGone
    else if local.sha == remote.sha then LocalAhead
    else if IsAncestor(g, local.sha, remote.sha) then RemoteAhead(local.sha, remote.sha)
    else if IsAncestor(g, remote.sha, local.sha) then LocalAhead
    else ForceDeviated(local.sha, remote.sha)
  }

  /** Against the remote ref as fetched; only a missing ref counts as "not diverged". */
  function HasDiverged(g: Graph, remote: Lookup, expected: nat): Result<bool>
    requires Dag(g)
  {
    match remote
    case Broken(m) => Err(m)
    case NoSuchRef => Ok(false)
    case Found(tip) =>
      if tip == expected then Ok(false)
      else if IsAncestor(g, expected, tip) then Ok(false)
      else Ok(!IsAncestor(g, tip, expected))
  }

  // ------------------------------------------------------------------ the ancestry order

  lemma {:induction false} AncestorsAreOlder(g: Graph, a: nat, c: nat)
    requires Dag(g) && Reaches(g, a, c)
    ensures a <= c < |g|
    decreases c
  {
    if a != c {
      var p :| p in g[c] && Reaches(g, a, p);
      AncestorsAreOlder(g, a, p);
    }
  }

  /** Adding a commit leaves the ancestry of the older ones alone. */
  lemma {:induction false} ReachesGrow(g: Graph, parents: set<nat>, a: nat, c: nat)
    requires Dag(g) && Dag(g + [parents]) && c < |g|
    ensures Reaches(g + [parents], a, c) <==> Reaches(g, a, c)
    decreases c
  {
    var h := g + [parents];
    assert h[c] == g[c];
    forall p | p in g[c] ensures Reaches(h, a, p) <==> Reaches(g, a, p) {
      assert p < c;
      ReachesGrow(g, parents, a, p);
    }
  }

  /** The ancestors of a new commit are itself and those of its parents. */
  lemma ReachesNew(g: Graph, parents: set<nat>, a: nat)
    requires Dag(g) && Dag(g + [parents])
    ensures Reaches(g + [parents], a, |g|) <==> a == |g| || exists p :: p in parents && Reaches(g, a, p)
  {
    var h := g + [parents];
    assert h[|g|] == parents;
    forall p | p in parents ensures Reaches(h, a, p) <==> Reaches(g, a, p) {
      assert p in h[|g|] && p < |g|;
      ReachesGrow(g, parents, a, p);
    }
  }

  // ------------------------------------------------------------------ the classification

  predicate Known(g: Graph, l: Lookup) { l.Found? && l.sha < |g| }

  /** With both refs present the result is the ancestry order: remote below local, local strictly below
      remote, or incomparable. */
  lemma DetectIsAncestryOrder(g: Graph, local: Lookup, remote: Lookup)
    requires Dag(g) && Known(g, local) && Known(g, remote)
    ensures var d := DetectDivergence(g, local, remote);
            && (d.LocalAhead? <==> Reaches(g, remote.sha, local.sha))
            && (d.RemoteAhead? <==> Reaches(g, local.sha, remote.sha) && local.sha != remote.sha)
            && (d.ForceDeviated? <==> !Reaches(g, remote.sha, local.sha) && !Reaches(g, local.sha, remote.sha))
            && !d.RemoteGone?
            && (d.RemoteAhead? || d.ForceDeviated? ==> d.localSha == local.sha && d.remoteSha == remote.sha)
  {
    if Reaches(g, local.sha, remote.sha) && Reaches(g, remote.sha, local.sha) {
      AncestorsAreOlder(g, local.sha, remote.sha);
      AncestorsAreOlder(g, remote.sha, local.sha);
    }
  }

  /** The two implementations agree when the expected commit is the local tip; they differ on missing
      and broken refs only in how they report them. */
  lemma ImplementationsAgree(g: Graph, local: Lookup, remote: Lookup)
    requires Dag(g) && Known(g, local)
    ensures remote.Found? ==> HasDiverged(g, remote, local.sha) == Ok(DetectDivergence(g, local, remote).ForceDeviated?)
    ensures DetectDivergence(g, local, remote).RemoteGone? <==> !remote.Found?
    ensures HasDiverged(g, remote, local.sha).Err? <==> remote.Broken?
  {
  }

  /** Whatever the refs resolve to: the branch is gone exactly when one of them does not resolve, and a remote tip
      that is neither the expected commit nor comparable with it is the one thing called diverged. */
  lemma MissingRefsExactly(g: Graph, local: Lookup, remote: Lookup, expected: nat)
    requires Dag(g)
    ensures DetectDivergence(g, local, remote).RemoteGone? <==> !local.Found? || !remote.Found?
    ensures HasDiverged(g, remote, expected) ==
            match remote
            case Broken(m) => Err(m)
            case NoSuchRef => Ok(false)
            case Found(tip) => Ok(tip != expected && !Comparable(g, tip, expected))
  {
  }

  /** Both commits are known and one is an ancestor of the other. */
  predicate Comparable(g: Graph, a: nat, c: nat)
    requires Dag(g)
  {
    a < |g| && c < |g| && (Reaches(g, a, c) || Reaches(g, c, a))
  }

  /** An expected commit the repository does not know counts as diverged from every existing tip but
      itself. */
  lemma UnknownExpected(g: Graph, remote: Lookup, expected: nat)
    requires Dag(g) && remote.Found? && expected >= |g|
    ensures HasDiverged(g, remote, expected) == Ok(remote.sha != expected)
  {
  }

  // ------------------------------------------------------------------ runs

  /** One branch in the bare repository and on the remote. */
  datatype Branch = Branch(g: Graph, local: nat, remote: nat)

  predicate Sound(b: Branch) { Dag(b.g) && b.local < |b.g| && b.remote < |b.g| }

  datatype Step =
    | LocalCommit
    | Push
    | EngineerPush
    | FastForward
    | MergeRemote
    | ForcePush(commit: nat)

  predicate Enabled(b: Branch, step: Step)
    requires Sound(b)
  {
    match step
    case LocalCommit => true
    case Push => Reaches(b.g, b.remote, b.local)
    case EngineerPush => true
    case FastForward => Reaches(b.g, b.local, b.remote)
    case MergeRemote => true
    case ForcePush(c) => c < |b.g|
  }

  function Apply(b: Branch, step: Step): (t: Branch)
    requires Sound(b) && Enabled(b, step)
    ensures Sound(t)
  {
    match step
    case LocalCommit => Branch(b.g + [{b.local}], |b.g|, b.remote)
    case Push => b.(remote := b.local)
    case EngineerPush => Branch(b.g + [{b.remote}], b.local, |b.g|)
    case FastForward => b.(local := b.remote)
    case MergeRemote => Branch(b.g + [{b.local, b.remote}], |b.g|, b.remote)
    case ForcePush(c) => b.(remote := c)
  }

  function Classify(b: Branch): DivergenceResult
    requires Sound(b)
  {
    DetectDivergence(b.g, Found(b.local), Found(b.remote))
  }

  predicate Deviated(b: Branch)
    requires Sound(b)
  {
    Classify(b).ForceDeviated?
  }

  lemma CommitOn(g: Graph, base: nat, other: nat)
    requires Dag(g) && base < |g| && other < |g|
    ensures var h := g + [{base}];
            && Dag(h) && !Reaches(h, |g|, other)
            && (Reaches(h, other, |g|) <==> Reaches(g, other, base))
  {
    var h := g + [{base}];
    assert Dag(h);
    ReachesNew(g, {base}, other);
    ReachesGrow(g, {base}, |g|, other);
    if Reaches(g, |g|, other) { AncestorsAreOlder(g, |g|, other); }
  }

  /** The steps that fork a branch: a local commit while the engineer is ahead, an engineer's push while
      local commits are unpushed, or a force push to an incomparable commit. */
  predicate Forks(b: Branch, step: Step)
    requires Sound(b)
  {
    match step
    case LocalCommit => Classify(b).RemoteAhead?
    case EngineerPush => Classify(b).LocalAhead? && b.local != b.remote
    case ForcePush(c) => c < |b.g| && !Reaches(b.g, c, b.local) && !Reaches(b.g, b.local, c)
    case _ => false
  }

  lemma LocalCommitClass(b: Branch)
    requires Sound(b)
    ensures Deviated(Apply(b, LocalCommit)) <==> Deviated(b) || Forks(b, LocalCommit)
  {
    var t := Apply(b, LocalCommit);
    CommitOn(b.g, b.local, b.remote);
    DetectIsAncestryOrder(b.g, Found(b.local), Found(b.remote));
    DetectIsAncestryOrder(t.g, Found(t.local), Found(t.remote));
  }

  lemma EngineerPushClass(b: Branch)
    requires Sound(b)
    ensures Deviated(Apply(b, EngineerPush)) <==> Deviated(b) || Forks(b, EngineerPush)
  {
    var t := Apply(b, EngineerPush);
    CommitOn(b.g, b.remote, b.local);
    DetectIsAncestryOrder(b.g, Found(b.local), Found(b.remote));
    DetectIsAncestryOrder(t.g, Found(t.local), Found(t.remote));
  }

  lemma MergeHeals(b: Branch)
    requires Sound(b)
    ensures Classify(Apply(b, MergeRemote)).LocalAhead?
  {
    var t := Apply(b, MergeRemote);
    ReachesNew(b.g, {b.local, b.remote}, b.remote);
    assert Reaches(b.g, b.remote, b.remote);
    DetectIsAncestryOrder(t.g, Found(t.local), Found(t.remote));
  }

  /** A step makes a branch deviate exactly when it is one of the forking ones; a deviated branch admits
      no plain push and no fast-forward, and only a merge or another force push heals it. */
  lemma DeviatesExactly(b: Branch, step: Step)
    requires Sound(b) && Enabled(b, step)
    ensures Deviated(Apply(b, step)) <==>
            match step
            case MergeRemote => false
            case ForcePush(_) => Forks(b, step)
            case _ => Deviated(b) || Forks(b, step)
    ensures Deviated(b) ==> step != Push && step != FastForward
  {
    DetectIsAncestryOrder(b.g, Found(b.local), Found(b.remote));
    match step
    case LocalCommit => LocalCommitClass(b);
    case EngineerPush => EngineerPushClass(b);
    case MergeRemote => MergeHeals(b);
    case ForcePush(c) => DetectIsAncestryOrder(b.g, Found(b.local), Found(c));
    case _ =>
  }

  predicate Valid(b: Branch, steps: seq<Step>)
    requires Sound(b)
    decreases |steps|
  {
    steps == [] || (Enabled(b, steps[0]) && Valid(Apply(b, steps[0]), steps[1..]))
  }

  function After(b: Branch, steps: seq<Step>): (t: Branch)
    requires Sound(b) && Valid(b, steps)
    ensures Sound(t)
    decreases |steps|
  {
    if steps == [] then b else After(Apply(b, steps[0]), steps[1..])
  }

  predicate AgentOnly(steps: seq<Step>) {
    forall i :: 0 <= i < |steps| ==> steps[i] == LocalCommit || steps[i] == Push || steps[i] == FastForward
  }

  /** Without engineer's pushes and force pushes the remote stays behind or at the local tip. */
  lemma {:induction false} AgentNeverDeviates(b: Branch, steps: seq<Step>)
    requires Sound(b) && Valid(b, steps) && AgentOnly(steps) && Classify(b).LocalAhead?
    ensures Classify(After(b, steps)).LocalAhead?
    decreases |steps|
  {
    if steps != [] {
      var t := Apply(b, steps[0]);
      DetectIsAncestryOrder(b.g, Found(b.local), Found(b.remote));
      DetectIsAncestryOrder(t.g, Found(t.local), Found(t.remote));
      if steps[0] == LocalCommit {
        CommitOn(b.g, b.local, b.remote);
      }
      AgentNeverDeviates(t, steps[1..]);
    }
  }

  predicate Forkless(b: Branch, steps: seq<Step>)
    requires Sound(b) && Valid(b, steps)
    decreases |steps|
  {
    steps == [] || (!Forks(b, steps[0]) && Forkless(Apply(b, steps[0]), steps[1..]))
  }

  predicate NeverDeviated(b: Branch, steps: seq<Step>)
    requires Sound(b) && Valid(b, steps)
    decreases |steps|
  {
    !Deviated(b) && (steps == [] || NeverDeviated(Apply(b, steps[0]), steps[1..]))
  }

  /** A run from an undeviated branch never deviates on its way if and only if none of its steps forks. */
  lemma {:induction false} ForklessExactly(b: Branch, steps: seq<Step>)
    requires Sound(b) && Valid(b, steps) && !Deviated(b)
    ensures NeverDeviated(b, steps) <==> Forkless(b, steps)
    decreases |steps|
  {
    if steps != [] {
      var t := Apply(b, steps[0]);
      DeviatesExactly(b, steps[0]);
      if !Deviated(t) { ForklessExactly(t, steps[1..]); }
    }
  }

  const SHARED := Branch([{}], 0, 0)

  /** No force push is needed: an unpushed local commit and an ordinary engineer's push suffice. */
  lemma ForkWithoutForcePush()
    ensures Sound(SHARED) && Classify(SHARED).LocalAhead?
    ensures Valid(SHARED, [LocalCommit, EngineerPush]) && Deviated(After(SHARED, [LocalCommit, EngineerPush]))
  {
    var b := Apply(SHARED, LocalCommit);
    CommitOn(SHARED.g, 0, 0);
    assert Reaches(SHARED.g, 0, 0);
    DetectIsAncestryOrder(b.g, Found(b.local), Found(b.remote));
    EngineerPushClass(b);
    assert [LocalCommit, EngineerPush][1..] == [EngineerPush] && [EngineerPush][1..] == [];
  }
}
