/** The sidecar's drain counter: guards that count themselves in and out of an atomic word, and waiters that
    re-check it whenever they are woken.  Atomic accesses, notifications and timeouts interleave freely. */
module DrainTracker {
  const WORD := 0x1_0000_0000_0000_0000

  /** Where a call of `wait_for_drain` stands: before its first load, before a load of the loop, between a
      load that saw guards and its registration, registered, or back. */
  datatype Waiter = Entering | Checking | Unregistered | Registered | Returned(drained: bool)

  /** `live` are the guards alive; `notifying` those that have decremented but not yet notified. */
  datatype State = State(active: nat, live: set<nat>, notifying: set<nat>, waiters: map<nat, Waiter>)

  const IDLE := State(0, {}, {}, map[])

  datatype Event =
    | Track(g: nat)
    | Sub(g: nat)
    | Notify(g: nat)
    | Enter(w: nat)
    | Load(w: nat)
    | Check(w: nat)
    | Register(w: nat)
    | Timeout(w: nat)

  predicate At(s: State, w: nat, phase: Waiter) { w in s.waiters && s.waiters[w] == phase }

  predicate Enabled(s: State, e: Event) {
    match e
    case Track(g) => g !in s.live && g !in s.notifying
    case Sub(g) => g in s.live
    case Notify(g) => g in s.notifying
    case Enter(w) => w !in s.waiters
    case Load(w) => At(s, w, Entering)
    case Check(w) => At(s, w, Checking)
    case Register(w) => At(s, w, Unregistered)
    case Timeout(w) => At(s, w, Registered)
  }

  /** The word wraps at both ends. */
  function Up(n: nat): nat { if n + 1 == WORD then 0 else n + 1 }

  function Down(n: nat): nat { if n == 0 then WORD - 1 else n - 1 }

  function Woken(waiters: map<nat, Waiter>): map<nat, Waiter> {
    map w | w in waiters :: if waiters[w].Registered? then Checking else waiters[w]
  }

  function Apply(s: State, e: Event): State
    requires Enabled(s, e)
  {
    match e
    case Track(g) => s.(active := Up(s.active), live := s.live + {g})
    case Sub(g) => s.(active := Down(s.active), live := s.live - {g}, notifying := s.notifying + {g})
    case Notify(g) => s.(notifying := s.notifying - {g}, waiters := Woken(s.waiters))
    case Enter(w) => s.(waiters := s.waiters[w := Entering])
    case Load(w) => s.(waiters := s.waiters[w := if s.active == 0 then Returned(true) else Checking])
    case Check(w) => s.(waiters := s.waiters[w := if s.active == 0 then Returned(true) else Unregistered])
    case Register(w) => s.(waiters := s.waiters[w := Registered])
    case Timeout(w) => s.(waiters := s.waiters[w := Returned(false)])
  }

  predicate Run(s: State, events: seq<Event>)
    decreases |events|
  {
    events == [] || (Enabled(s, events[0]) && Run(Apply(s, events[0]), events[1..]))
  }

  function After(s: State, events: seq<Event>): State
    requires Run(s, events)
    decreases |events|
  {
    if events == [] then s else After(Apply(s, events[0]), events[1..])
  }

  // ------------------------------------------------------------------ the counter

  predicate Counts(s: State) { s.active == |s.live| % WORD && s.live * s.notifying == {} }

  lemma WrapsAround(n: nat)
    ensures Up(n % WORD) == (n + 1) % WORD
    ensures n > 0 ==> Down(n % WORD) == (n - 1) % WORD
  {
  }

  lemma TrackCounts(s: State, g: nat)
    requires Counts(s) && Enabled(s, Track(g))
    ensures Counts(Apply(s, Track(g)))
  {
    WrapsAround(|s.live|);
    assert |s.live + {g}| == |s.live| + 1;
  }

  lemma SubCounts(s: State, g: nat)
    requires Counts(s) && Enabled(s, Sub(g))
    ensures Counts(Apply(s, Sub(g)))
  {
    WrapsAround(|s.live|);
    assert |s.live - {g}| == |s.live| - 1;
  }

  lemma CountsStep(s: State, e: Event)
    requires Counts(s) && Enabled(s, e)
    ensures Counts(Apply(s, e))
  {
    match e
    case Track(g) => TrackCounts(s, g);
    case Sub(g) => SubCounts(s, g);
    case _ =>
  }

  /** The counter is the number of live guards, and dropping one takes it down by one. */
  predicate Exact(s: State) {
    s.active == |s.live| && forall g :: g in s.live ==> 0 < s.active && Apply(s, Sub(g)).active == s.active - 1
  }

  lemma CountsExactly(s: State)
    requires Counts(s) && |s.live| < WORD
    ensures Exact(s)
  {
    assert |s.live| % WORD == |s.live|;
    forall g | g in s.live ensures 0 < |s.live| { assert s.live - {g} + {g} == s.live; }
  }

  lemma {:induction false} CountsAlong(s: State, events: seq<Event>)
    requires Counts(s) && Run(s, events)
    ensures Counts(After(s, events))
    decreases |events|
  {
    if events != [] {
      CountsStep(s, events[0]);
      CountsAlong(Apply(s, events[0]), events[1..]);
    }
  }

  /** In every interleaving, while there are fewer guards than the word can count, the counter is exact. */
  lemma CounterIsLiveGuards(s: State, events: seq<Event>)
    requires Counts(s) && Run(s, events) && |After(s, events).live| < WORD
    ensures Exact(After(s, events))
  {
    CountsAlong(s, events);
    CountsExactly(After(s, events));
  }

  // ------------------------------------------------------------------ what a waiter returns

  predicate InCall(s: State, w: nat) { w in s.waiters && !s.waiters[w].Returned? }

  /** A call returns true only if the counter was zero at some moment inside the call. */
  lemma {:induction false} TrueMeansSeenZero(s: State, events: seq<Event>, w: nat) returns (k: nat)
    requires Run(s, events) && !At(s, w, Returned(true)) && At(After(s, events), w, Returned(true))
    ensures k < |events| && Run(s, events[..k])
    ensures InCall(After(s, events[..k]), w) && After(s, events[..k]).active == 0
    decreases |events|
  {
    var t := Apply(s, events[0]);
    if At(t, w, Returned(true)) {
      k := 0;
    } else {
      var j := TrueMeansSeenZero(t, events[1..], w);
      k := j + 1;
      assert events[1..][..j] == events[..k][1..];
      assert events[..k][0] == events[0];
    }
  }

  /** A waiter nobody will wake any more: registered, with no guard alive and no notification under way. */
  predicate Stuck(s: State, w: nat) { At(s, w, Registered) && s.live == {} && s.notifying == {} }

  /** A wakeup is lost exactly when the waiter registers after the last guard's notification, having seen
      guards in its last load; no drop loses one. */
  lemma LostExactly(s: State, e: Event, w: nat)
    requires Enabled(s, e) && !Stuck(s, w)
    ensures Stuck(Apply(s, e), w) <==> e == Register(w) && s.live == {} && s.notifying == {}
  {
  }

  predicate RegistersInTime(s: State, events: seq<Event>, w: nat)
    requires Run(s, events)
    decreases |events|
  {
    events == []
    || ((events[0] == Register(w) ==> s.live != {} || s.notifying != {})
        && RegistersInTime(Apply(s, events[0]), events[1..], w))
  }

  /** A waiter that always registers while a guard is alive or notifying is never stuck. */
  lemma {:induction false} NeverStuck(s: State, events: seq<Event>, w: nat)
    requires Run(s, events) && !Stuck(s, w) && RegistersInTime(s, events, w)
    ensures !Stuck(After(s, events), w)
    decreases |events|
  {
    if events != [] {
      LostExactly(s, events[0], w);
      NeverStuck(Apply(s, events[0]), events[1..], w);
    }
  }

  predicate NewGuard(events: seq<Event>) { exists i :: 0 <= i < |events| && events[i].Track? }

  /** A waiter registered before the last guard's notification is woken by it and, unless a new guard
      appears, returns true at its next load. */
  lemma WokenByLastDrop(s: State, g: nat, w: nat)
    requires Counts(s) && s.live == {} && s.notifying == {g} && At(s, w, Registered)
    ensures Enabled(s, Notify(g)) && At(Apply(s, Notify(g)), w, Checking)
    ensures At(Apply(Apply(s, Notify(g)), Check(w)), w, Returned(true))
  {
  }

  /** A stuck waiter stays so until its timeout, and then returns false, with no guard alive all along. */
  lemma {:induction false} StuckTimesOut(s: State, events: seq<Event>, w: nat)
    requires Run(s, events) && Counts(s) && !NewGuard(events)
    requires Stuck(s, w) || (At(s, w, Returned(false)) && s.live == {} && s.notifying == {})
    ensures After(s, events).live == {} && After(s, events).active == 0
    ensures At(After(s, events), w, Registered) || At(After(s, events), w, Returned(false))
    decreases |events|
  {
    if events != [] {
      assert !events[0].Track?;
      CountsStep(s, events[0]);
      assert forall i :: 0 <= i < |events[1..]| ==> events[1..][i] == events[i + 1];
      StuckTimesOut(Apply(s, events[0]), events[1..], w);
    }
  }

  // ------------------------------------------------------------------ false on a drained tracker

  /** A timeout returns false on a counter at zero if and only if the waiter is stuck, or the last guard has
      decremented and not yet notified. */
  lemma TimeoutAtZeroExactly(s: State, w: nat)
    requires Counts(s) && |s.live| < WORD && Enabled(s, Timeout(w))
    ensures s.active == 0 <==> Stuck(s, w) || (s.live == {} && s.notifying != {})
  {
    assert |s.live| % WORD == |s.live|;
  }

  predicate FewGuards(s: State, events: seq<Event>)
    requires Run(s, events)
    decreases |events|
  {
    |s.live| < WORD && (events == [] || FewGuards(Apply(s, events[0]), events[1..]))
  }

  /** Somewhere in the run a call of `w` returns false although the counter is zero. */
  predicate FalseAtZero(s: State, events: seq<Event>, w: nat)
    requires Run(s, events)
    decreases |events|
  {
    events != []
    && ((events[0] == Timeout(w) && s.active == 0) || FalseAtZero(Apply(s, events[0]), events[1..], w))
  }

  predicate Drained(s: State) { s.live == {} && s.notifying == {} }

  /** Whether the waiter's last registration came with nothing left to wake it, and no guard has come since. */
  function LateAfter(s: State, late: bool, e: Event, w: nat): bool {
    if e == Register(w) then Drained(s) else late && !e.Track?
  }

  /** The two unlucky timers: one that ends a late registration, and one that fires between the last decrement
      and its notification. */
  predicate Unlucky(s: State, late: bool, events: seq<Event>, w: nat)
    requires Run(s, events)
    decreases |events|
  {
    events != []
    && ((events[0] == Timeout(w) && (late || (s.live == {} && s.notifying != {})))
        || Unlucky(Apply(s, events[0]), LateAfter(s, late, events[0], w), events[1..], w))
  }

  lemma LateStep(s: State, late: bool, e: Event, w: nat)
    requires Enabled(s, e) && (At(s, w, Registered) ==> (late <==> Drained(s)))
    ensures At(Apply(s, e), w, Registered) ==> (LateAfter(s, late, e, w) <==> Drained(Apply(s, e)))
  {
  }

  lemma {:induction false} FalseAtZeroFrom(s: State, late: bool, events: seq<Event>, w: nat)
    requires Run(s, events) && Counts(s) && FewGuards(s, events)
    requires At(s, w, Registered) ==> (late <==> Drained(s))
    ensures FalseAtZero(s, events, w) <==> Unlucky(s, late, events, w)
    decreases |events|
  {
    if events != [] {
      var e := events[0];
      CountsStep(s, e);
      LateStep(s, late, e, w);
      if e == Timeout(w) { TimeoutAtZeroExactly(s, w); }
      FalseAtZeroFrom(Apply(s, e), LateAfter(s, late, e, w), events[1..], w);
    }
  }

  /** Over every run from an idle tracker: a call returns false on a drained tracker if and only if its timer ends
      a late registration or fires between the last guard's decrement and notification. */
  lemma FalseAtZeroExactly(events: seq<Event>, w: nat)
    requires Run(IDLE, events) && FewGuards(IDLE, events)
    ensures FalseAtZero(IDLE, events, w) <==> Unlucky(IDLE, false, events, w)
  {
    FalseAtZeroFrom(IDLE, false, events, w);
  }

  const MISSING: seq<Event> := [Sub(0), Notify(0), Register(1), Timeout(1)]

  const LOSING: seq<Event> := [Track(0), Enter(1), Load(1), Check(1), Sub(0), Notify(0), Register(1), Timeout(1)]

  const SEEN := State(1, {0}, {}, map[1 := Unregistered])

  lemma SeesAGuard()
    ensures var s2 := Apply(Apply(IDLE, Track(0)), Enter(1));
            Enabled(s2, Load(1)) && Enabled(Apply(s2, Load(1)), Check(1)) && Apply(Apply(s2, Load(1)), Check(1)) == SEEN
  {
  }

  lemma MissesTheDrop()
    ensures Run(SEEN, MISSING) && After(SEEN, MISSING) == State(0, {}, {}, map[1 := Returned(false)])
  {
    assert Woken(SEEN.waiters) == SEEN.waiters;
    var s6 := State(0, {}, {}, map[1 := Unregistered]);
    assert Apply(Apply(SEEN, MISSING[0]), MISSING[1]) == s6;
    RunTwo(SEEN, MISSING);
    RunTwo(s6, MISSING[2..]);
    assert MISSING[2..][2..] == [];
  }

  /** The drop falls between the load and the registration: the call returns false on a drained tracker. */
  lemma LostWakeupReached()
    ensures Run(IDLE, LOSING)
    ensures At(After(IDLE, LOSING), 1, Returned(false)) && After(IDLE, LOSING).active == 0
    ensures After(IDLE, LOSING).live == {}
  {
    SeesAGuard();
    var s2 := Apply(Apply(IDLE, Track(0)), Enter(1));
    RunTwo(IDLE, LOSING);
    assert LOSING[2..][0] == Load(1) && LOSING[2..][1] == Check(1);
    RunTwo(s2, LOSING[2..]);
    assert LOSING[2..][2..] == MISSING;
    MissesTheDrop();
  }

  const EARLY: seq<Event> := [Track(0), Enter(1), Load(1), Check(1), Register(1), Sub(0), Timeout(1)]

  const HASTY: seq<Event> := [Register(1), Sub(0), Timeout(1)]

  lemma TimerIsEarly()
    ensures Run(SEEN, HASTY) && After(SEEN, HASTY) == State(0, {}, {0}, map[1 := Returned(false)])
    ensures FalseAtZero(SEEN, HASTY, 1)
  {
    var s := State(0, {}, {0}, map[1 := Registered]);
    assert Apply(Apply(SEEN, HASTY[0]), HASTY[1]) == s;
    RunTwo(SEEN, HASTY);
    assert HASTY[2..] == [Timeout(1)] && [Timeout(1)][1..] == [];
    assert HASTY[1..][1..] == HASTY[2..];
    assert FalseAtZero(s, [Timeout(1)], 1);
  }

  /** The timer of a waiter registered in time fires between the last decrement and its notification. */
  lemma EarlyTimerReached()
    ensures Run(IDLE, EARLY) && RegistersInTime(IDLE, EARLY, 1)
    ensures At(After(IDLE, EARLY), 1, Returned(false)) && After(IDLE, EARLY).active == 0
  {
    SeesAGuard();
    var s2 := Apply(Apply(IDLE, Track(0)), Enter(1));
    RunTwo(IDLE, EARLY);
    assert EARLY[2..][0] == Load(1) && EARLY[2..][1] == Check(1);
    RunTwo(s2, EARLY[2..]);
    assert EARLY[2..][2..] == HASTY;
    TimerIsEarly();
    InTimeTwo(IDLE, EARLY);
    InTimeTwo(s2, EARLY[2..]);
    InTimeTwo(SEEN, HASTY);
    assert HASTY[2..] == [Timeout(1)] && [Timeout(1)][1..] == [];
  }

  lemma InTimeTwo(s: State, events: seq<Event>)
    requires |events| >= 2 && Run(s, events)
    requires forall i :: 0 <= i < 2 && events[i] == Register(1) ==> s.live != {} && i == 0
    ensures Enabled(s, events[0]) && Enabled(Apply(s, events[0]), events[1])
    ensures var t := Apply(Apply(s, events[0]), events[1]);
            Run(t, events[2..]) && (RegistersInTime(s, events, 1) <==> RegistersInTime(t, events[2..], 1))
  {
    assert events[1..][1..] == events[2..];
  }

  lemma RunTwo(s: State, events: seq<Event>)
    requires |events| >= 2 && Enabled(s, events[0]) && Enabled(Apply(s, events[0]), events[1])
    ensures var t := Apply(Apply(s, events[0]), events[1]);
            && (Run(t, events[2..]) <==> Run(s, events))
            && (Run(s, events) ==> After(s, events) == After(t, events[2..]))
  {
    assert events[1..][1..] == events[2..];
  }

  // ------------------------------------------------------------------ the source's own form

  class ConnectionTracker {
    var active: nat
    var waiters: map<nat, Waiter>
    ghost var live: set<nat>
    ghost var notifying: set<nat>

    constructor ()
      ensures View() == IDLE
    {
      active, waiters, live, notifying := 0, map[], {}, {};
    }

    ghost function View(): State
      reads this
    {
      State(active, live, notifying, waiters)
    }

    ghost predicate Valid()
      reads this
    {
      Counts(View())
    }

    method TrackGuard(ghost g: nat)
      requires Valid() && Enabled(View(), Track(g))
      modifies `active, `live
      ensures Valid() && View() == Apply(old(View()), Track(g))
    {
      CountsStep(View(), Track(g));
      active := Up(active);
      live := live + {g};
    }

    /** The two halves of dropping a guard. */
    method FetchSub(ghost g: nat) returns (previous: nat)
      requires Valid() && Enabled(View(), Sub(g))
      modifies `active, `live, `notifying
      ensures Valid() && View() == Apply(old(View()), Sub(g))
      ensures previous == old(|live|) % WORD
    {
      CountsStep(View(), Sub(g));
      previous := active;
      active := Down(active);
      live, notifying := live - {g}, notifying + {g};
    }

    method NotifyWaiters(ghost g: nat)
      requires Valid() && Enabled(View(), Notify(g))
      modifies `waiters, `notifying
      ensures Valid() && View() == Apply(old(View()), Notify(g))
    {
      CountsStep(View(), Notify(g));
      waiters := map w | w in waiters :: if waiters[w].Registered? then Checking else waiters[w];
      notifying := notifying - {g};
    }

    /** A turn of the waiter: the load that opens the call, or one of the loop with the registration apart. */
    method WaitTurn(w: nat)
      requires Valid() && InCall(View(), w) && waiters[w] != Registered
      modifies `waiters
      ensures Valid()
      ensures View() == Apply(old(View()), if old(waiters[w]) == Entering then Load(w)
                                           else if old(waiters[w]) == Checking then Check(w)
                                           else Register(w))
    {
      var phase := waiters[w];
      if phase == Unregistered {
        waiters := waiters[w := Registered];
      } else if active == 0 {
        waiters := waiters[w := Returned(true)];
      } else {
        waiters := waiters[w := if phase == Entering then Checking else Unregistered];
      }
    }
  }
}
