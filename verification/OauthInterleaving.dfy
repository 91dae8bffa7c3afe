/** Refreshes of concurrent requests: the lock is released around the token exchange and before the
    flag is written.  What still holds, and a run that shows what does not. */
module OauthInterleaving {
  import opened Text
  import opened OauthRefresh

  /** A request that passed the cooldown test at `now`, or one that still owes the flag file a write. */
  datatype Task = Exchanging(now: Clock) | WritingFlag

  datatype World = World(cache: State, tasks: map<nat, Task>)

  const QUIET := World(FRESH, map[])

  datatype Step =
    | Begin(id: nat, now: Clock)
    | Succeed(id: nat, credential: Credential, removeOk: bool)
    | Fail(id: nat, message: string)
    | WriteFlag(id: nat, ok: bool)

  predicate Enabled(w: World, step: Step) {
    match step
    case Begin(id, _) => id !in w.tasks
    case Succeed(id, _, _) => id in w.tasks && w.tasks[id].Exchanging?
    case Fail(id, _) => id in w.tasks && w.tasks[id].Exchanging?
    case WriteFlag(id, _) => id in w.tasks && w.tasks[id].WritingFlag?
  }

  /** Each step is one stretch of code under the lock, or the write outside it. */
  function Apply(w: World, step: Step): World
    requires Enabled(w, step)
  {
    match step
    case Begin(id, now) =>
      if Cooling(w.cache, now) then w else w.(tasks := w.tasks[id := Exchanging(now)])
    case Succeed(id, c, removeOk) => World(OnGrant(w.cache, c, removeOk), w.tasks - {id})
    case Fail(id, message) =>
      var cache := OnFailure(w.cache, w.tasks[id].now, message, false);
      World(cache, if cache.failures == DEGRADED_THRESHOLD then w.tasks[id := WritingFlag] else w.tasks - {id})
    case WriteFlag(id, ok) => World(w.cache.(flag := w.cache.flag || ok), w.tasks - {id})
  }

  predicate Valid(w: World, steps: seq<Step>)
    decreases |steps|
  {
    steps == [] || (Enabled(w, steps[0]) && Valid(Apply(w, steps[0]), steps[1..]))
  }

  function After(w: World, steps: seq<Step>): World
    requires Valid(w, steps)
    decreases |steps|
  {
    if steps == [] then w else After(Apply(w, steps[0]), steps[1..])
  }

  /** A failure is on record exactly while the streak is positive. */
  predicate RecordKept(c: State) {
    c.lastFailure.Some? <==> c.failures > 0
  }

  lemma {:induction false} RecordKeptAlong(w: World, steps: seq<Step>)
    requires Valid(w, steps) && RecordKept(w.cache)
    ensures RecordKept(After(w, steps).cache)
    decreases |steps|
  {
    if steps != [] { RecordKeptAlong(Apply(w, steps[0]), steps[1..]); }
  }

  /** In every interleaving a failure is recorded exactly when the streak count is positive. */
  lemma RecordMatchesStreak(steps: seq<Step>)
    requires Valid(QUIET, steps)
    ensures RecordKept(After(QUIET, steps).cache)
  {
    RecordKeptAlong(QUIET, steps);
  }

  /** A write of the flag that succeeds, and no removal by a later success. */
  predicate FlagLeft(steps: seq<Step>)
    decreases |steps|
  {
    steps != [] &&
    var (front, last) := (steps[..|steps| - 1], steps[|steps| - 1]);
    match last
    case WriteFlag(_, ok) => ok || FlagLeft(front)
    case Succeed(_, _, removeOk) => !removeOk && FlagLeft(front)
    case _ => FlagLeft(front)
  }

  lemma FlagStep(w: World, step: Step)
    requires Enabled(w, step)
    ensures Apply(w, step).cache.flag <==>
            match step
            case WriteFlag(_, ok) => ok || w.cache.flag
            case Succeed(_, _, removeOk) => !removeOk && w.cache.flag
            case _ => w.cache.flag
  {
  }

  lemma {:induction false} Before(w: World, steps: seq<Step>)
    requires Valid(w, steps) && steps != []
    ensures var (front, last) := (steps[..|steps| - 1], steps[|steps| - 1]);
            Valid(w, front) && Enabled(After(w, front), last) && After(w, steps) == Apply(After(w, front), last)
    decreases |steps|
  {
    var front := steps[..|steps| - 1];
    if |steps| == 1 {
      assert front == [] && steps[1..] == [];
    } else {
      Before(Apply(w, steps[0]), steps[1..]);
      assert steps[1..][..|steps| - 2] == front[1..];
    }
  }

  /** In every interleaving the flag exists exactly when a write of it has succeeded that no later success has
      removed, however the failure counts stood in between. */
  lemma {:induction false} FlagIsLastWrite(steps: seq<Step>)
    requires Valid(QUIET, steps)
    ensures After(QUIET, steps).cache.flag <==> FlagLeft(steps)
    decreases |steps|
  {
    if steps != [] {
      var front := steps[..|steps| - 1];
      Before(QUIET, steps);
      FlagStep(After(QUIET, front), steps[|steps| - 1]);
      FlagIsLastWrite(front);
    }
  }

  lemma Then(w: World, steps: seq<Step>, step: Step)
    requires Valid(w, steps) && Enabled(After(w, steps), step)
    ensures Valid(w, steps + [step]) && After(w, steps + [step]) == Apply(After(w, steps), step)
    decreases |steps|
  {
    if steps == [] {
      assert [step][1..] == [] && [] + [step] == [step];
    } else {
      Then(Apply(w, steps[0]), steps[1..], step);
      assert (steps + [step])[1..] == steps[1..] + [step];
    }
  }

  ghost predicate InFlight(tasks: map<nat, Task>, k: nat, n: nat) {
    && (forall id: nat :: id in tasks <==> k <= id < n)
    && (forall id: nat :: id in tasks ==> tasks[id] == Exchanging(0))
  }

  /** Requests 0 .. n all pass the cooldown test before any of them fails. */
  lemma {:induction false} BeginAll(n: nat) returns (steps: seq<Step>)
    ensures Valid(QUIET, steps)
    ensures After(QUIET, steps).cache == FRESH && InFlight(After(QUIET, steps).tasks, 0, n)
  {
    if n == 0 {
      steps := [];
    } else {
      steps := BeginAll(n - 1);
      Then(QUIET, steps, Begin(n - 1, 0));
      steps := steps + [Begin(n - 1, 0)];
    }
  }

  lemma {:induction false} FailSome(k: nat) returns (steps: seq<Step>)
    requires k < DEGRADED_THRESHOLD
    ensures Valid(QUIET, steps) && InFlight(After(QUIET, steps).tasks, k, 6)
    ensures After(QUIET, steps).cache.failures == k && !After(QUIET, steps).cache.flag
  {
    if k == 0 {
      steps := BeginAll(6);
    } else {
      steps := FailSome(k - 1);
      Then(QUIET, steps, Fail(k - 1, ""));
      steps := steps + [Fail(k - 1, "")];
    }
  }

  /** Six overlapping requests: the fifth failure owes the flag, the sixth succeeds and clears the
      streak, then the owed write lands.  The flag exists although the last refresh succeeded. */
  lemma StaleFlagReached(c: Credential) returns (steps: seq<Step>)
    ensures Valid(QUIET, steps)
    ensures After(QUIET, steps).cache.flag && After(QUIET, steps).cache.failures == 0
    ensures After(QUIET, steps).cache.credential == Some(c) && After(QUIET, steps).tasks == map[]
  {
    steps := FailSome(4);
    Then(QUIET, steps, Fail(4, ""));
    steps := steps + [Fail(4, "")];
    Then(QUIET, steps, Succeed(5, c, true));
    steps := steps + [Succeed(5, c, true)];
    Then(QUIET, steps, WriteFlag(4, true));
    steps := steps + [WriteFlag(4, true)];
  }
}
