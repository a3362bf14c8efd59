/**
 A deadline that any number of tasks set and any number await.

 `reached` registers for a wakeup before it reads the deadline, sleeps until it,
 and clears it under the lock if it is still the one it slept for. Setting stores
 under the lock and notifies after letting it go, so another task can run in
 between. `State` and `Do` give every interleaving of those halves, on one clock
 that never runs backwards.
 */
module CoordinationDeadline {
  import opened Options

  type Time = int
  type WaiterId = nat

  // ------------------------------------------------------------ the shared cell

  /** The cell behind the lock. `Set` says whether the caller must now notify. */
  class CoordinationDeadline {
    var at: Option<Time>

    constructor ()
      ensures at.None?
    {
      at := None;
    }

    method Set(value: Option<Time>) returns (announce: bool)
      modifies this
      ensures at == value && announce == (old(at) != value)
    {
      announce := at != value;
      if announce {
        at := value;
      }
    }

    /** A deadline fires once: only the task that finds it still current clears it. */
    method Spend(slept: Time) returns (fired: bool)
      modifies this
      ensures fired == (old(at) == Some(slept))
      ensures at == if fired then None else old(at)
    {
      fired := at == Some(slept);
      if fired {
        at := None;
      }
    }
  }

  // --------------------------------------------------------- the interleavings

  /**
   Where one call of `reached` stands. Every state but the first holds a
   registration, which `notified` says has been woken.
   */
  datatype Waiter =
    | NotWaiting
    | Registered(notified: bool)
    | ParkedEmpty(notified: bool)
    | ParkedUntil(at: Time, due: Time, notified: bool)
  {
    predicate Parked() { ParkedEmpty? || ParkedUntil? }

    function Observed(): Option<Time>
      requires Parked()
    {
      if ParkedEmpty? then None else Some(at)
    }
  }

  /** `unannounced` counts the setters that stored and have not yet notified. */
  datatype State = State(
    at: Option<Time>, clock: Time, unannounced: nat, waiters: map<WaiterId, Waiter>,
    stores: nat, fired: nat)

  datatype Step =
    | Store(value: Option<Time>)
    | NotifyWaiters
    | Advance(clock: Time)
    | Call(waiter: WaiterId)
    | Read(waiter: WaiterId)
    | Wake(waiter: WaiterId)
    | Fire(waiter: WaiterId)
    | Cancel(waiter: WaiterId)

  function Max(a: int, b: int): int {
    if a < b then b else a
  }

  function Start(waiters: set<WaiterId>, clock: Time): State {
    State(None, clock, 0, map i | i in waiters :: NotWaiting, 0, 0)
  }

  predicate Enabled(s: State, step: Step) {
    match step
    case Store(_) => true
    case NotifyWaiters => s.unannounced > 0
    case Advance(t) => s.clock <= t
    case Call(i) => i in s.waiters && s.waiters[i].NotWaiting?
    case Read(i) => i in s.waiters && s.waiters[i].Registered?
    case Wake(i) => i in s.waiters && s.waiters[i].Parked() && s.waiters[i].notified
    case Fire(i) => i in s.waiters && s.waiters[i].ParkedUntil? && s.waiters[i].due <= s.clock
    case Cancel(i) => i in s.waiters
  }

  function Woken(w: Waiter): Waiter {
    if w.NotWaiting? then w else w.(notified := true)
  }

  /** Whether this step is a call of `reached` returning. */
  predicate Returns(s: State, step: Step) {
    step.Fire? && Enabled(s, step) && s.at == Some(s.waiters[step.waiter].at)
  }

  function Apply(s: State, step: Step): State
    requires Enabled(s, step)
  {
    match step
    case Store(value) =>
      if s.at == value then s
      else s.(at := value, unannounced := s.unannounced + 1,
              stores := s.stores + (if value.Some? then 1 else 0))
    case NotifyWaiters =>
      s.(unannounced := s.unannounced - 1, waiters := map i | i in s.waiters :: Woken(s.waiters[i]))
    case Advance(t) => s.(clock := t)
    case Call(i) => s.(waiters := s.waiters[i := Registered(false)])
    case Read(i) =>
      var notified := s.waiters[i].notified;
      s.(waiters := s.waiters[i :=
        if s.at.None? then ParkedEmpty(notified)
        else ParkedUntil(s.at.value, s.clock + Max(s.at.value - s.clock, 0), notified)])
    case Wake(i) => s.(waiters := s.waiters[i := Registered(false)])
    case Fire(i) =>
      if Returns(s, step)
      then s.(at := None, waiters := s.waiters[i := NotWaiting], fired := s.fired + 1)
      else s.(waiters := s.waiters[i := Registered(false)])
    case Cancel(i) => s.(waiters := s.waiters[i := NotWaiting])
  }

  /** One step of a schedule. A step that cannot happen now changes nothing. */
  function Do(s: State, step: Step): State {
    if Enabled(s, step) then Apply(s, step) else s
  }

  function After(s: State, steps: seq<Step>): State
    decreases |steps|
  {
    if steps == [] then s else After(Do(s, steps[0]), steps[1..])
  }

  // -------------------------------------------------------------- the invariant

  /**
   A sleeper with no wakeup on its way has observed the deadline in force. The
   exceptions are a setter that has stored and not yet notified, and a deadline
   that another waiter has spent, since spending it notifies nobody.
   */
  ghost predicate Informed(s: State, i: WaiterId)
    requires i in s.waiters
  {
    var w := s.waiters[i];
    w.Parked() && !w.notified ==>
      || w.Observed() == s.at
      || s.unannounced > 0
      || (s.at.None? && exists j :: j in s.waiters && j != i)
  }

  ghost predicate Inv(s: State) {
    && (forall i :: i in s.waiters ==> Informed(s, i))
    && (forall i :: i in s.waiters && s.waiters[i].ParkedUntil? ==>
          s.waiters[i].at <= s.waiters[i].due <= Max(s.clock, s.waiters[i].at))
    && s.fired + (if s.at.Some? then 1 else 0) <= s.stores
  }

  lemma StepKeepsInv(s: State, step: Step)
    requires Inv(s) && Enabled(s, step)
    ensures Inv(Apply(s, step))
  {
    var t := Apply(s, step);
    assert t.waiters.Keys == s.waiters.Keys;
    forall i | i in t.waiters
      ensures Informed(t, i)
    {
      assert Informed(s, i);
    }
  }

  lemma {:induction false} ScheduleKeepsInv(s: State, steps: seq<Step>)
    requires Inv(s)
    ensures Inv(After(s, steps))
    decreases |steps|
  {
    if steps != [] {
      if Enabled(s, steps[0]) {
        StepKeepsInv(s, steps[0]);
      }
      ScheduleKeepsInv(Do(s, steps[0]), steps[1..]);
    }
  }

  // --------------------------------------------------------------- the promises

  /** In every interleaving, no sleeper misses the deadline in force. */
  lemma NoWakeupIsLost(waiters: set<WaiterId>, clock: Time, steps: seq<Step>, i: WaiterId)
    requires var s := After(Start(waiters, clock), steps);
             i in s.waiters && s.waiters[i].Parked() && !s.waiters[i].notified && s.unannounced == 0
    ensures var s := After(Start(waiters, clock), steps);
            s.waiters[i].Observed() == s.at || (s.at.None? && exists j :: j in s.waiters && j != i)
  {
    ScheduleKeepsInv(Start(waiters, clock), steps);
    assert Informed(After(Start(waiters, clock), steps), i);
  }

  /**
   `reached` returns only for a deadline that is still in force and already past,
   and returning leaves no deadline for anyone else to return for.
   */
  lemma ReturnsOnlyWhenDue(waiters: set<WaiterId>, clock: Time, steps: seq<Step>, i: WaiterId)
    requires Returns(After(Start(waiters, clock), steps), Fire(i))
    ensures var s := After(Start(waiters, clock), steps);
            s.at.Some? && s.at.value <= s.clock && Apply(s, Fire(i)).at.None?
  {
    ScheduleKeepsInv(Start(waiters, clock), steps);
  }

  /** This step is the waiter waking up past the very deadline in force. */
  ghost predicate Spends(s: State, step: Step, i: WaiterId) {
    && step == Fire(i) && i in s.waiters && s.waiters[i].ParkedUntil?
    && s.at == Some(s.waiters[i].at) && s.waiters[i].due <= s.clock
  }

  /**
   Over every reachable state and step: the deadline in force changes only by a value
   stored or by a waiter that slept until it, when it is past. A call that has begun
   ends only by that or by being dropped, and while it sleeps only a notification wakes
   it before its time; so a waiter that slept until a deadline since
   replaced leaves the new one alone and looks again.
   */
  lemma OnlyTheDeadlineInForceIsSpent(waiters: set<WaiterId>, clock: Time, steps: seq<Step>, step: Step)
    ensures var s := After(Start(waiters, clock), steps);
            var t := Do(s, step);
            && (t.at != s.at <==> (step.Store? && step.value != s.at) || exists i :: Spends(s, step, i))
            && (t.at != s.at ==> t.at == if step.Store? then step.value else None)
            && (forall i :: Spends(s, step, i) ==> s.at.value <= s.clock)
            && t.waiters.Keys == s.waiters.Keys
            && (forall i :: i in s.waiters && !s.waiters[i].NotWaiting? ==>
                  (t.waiters[i].NotWaiting? <==> step == Cancel(i) || Spends(s, step, i)))
            && (forall i :: i in s.waiters && s.waiters[i].Parked() && !s.waiters[i].notified
                            && t.waiters[i] != s.waiters[i]
                  ==> step in {NotifyWaiters, Fire(i), Cancel(i)})
            && (forall i :: i in s.waiters && step == Fire(i) && Enabled(s, step) && !Spends(s, step, i) ==>
                  t == s.(waiters := s.waiters[i := t.waiters[i]]) && t.waiters[i] == Registered(false))
  {
    ScheduleKeepsInv(Start(waiters, clock), steps);
    var s := After(Start(waiters, clock), steps);
    hide After;
    if step.Fire? {
      assert Spends(s, step, step.waiter) <==> Enabled(s, step) && Returns(s, step);
    }
  }

  /** A waiter falls asleep on one deadline and finds, when that is past, that it was replaced. */
  function Overtaken(earlier: Time, later: Time, i: WaiterId): seq<Step> {
    [Store(Some(earlier)), NotifyWaiters, Call(i), Read(i)] + [Store(Some(later)), Advance(earlier), Fire(i)]
  }

  /** From the start, for any two deadlines to come: the later one stays, and is the one the call ends at. */
  lemma OvertakenSleeperLooksAgain(waiters: set<WaiterId>, clock: Time, earlier: Time, later: Time, i: WaiterId)
    requires i in waiters && clock <= earlier < later
    ensures var s := After(Start(waiters, clock), Overtaken(earlier, later, i));
            && s.at == Some(later) && s.clock == earlier && i in s.waiters && s.waiters[i].Registered?
    ensures var t := After(Start(waiters, clock), Overtaken(earlier, later, i) + [Read(i), Advance(later), Fire(i)]);
            && t.at.None? && t.clock == later && t.fired == 1 && t.stores == 2
            && i in t.waiters && t.waiters[i].NotWaiting?
  {
    var s0 := Start(waiters, clock);
    var first := [Store(Some(earlier)), NotifyWaiters, Call(i), Read(i)];
    var swap := [Store(Some(later)), Advance(earlier), Fire(i)];
    var last := [Read(i), Advance(later), Fire(i)];
    Four(s0, first[0], first[1], first[2], first[3]);
    var s1 := After(s0, first);
    assert s1.waiters[i] == ParkedUntil(earlier, earlier, false);
    ThreeSteps(s1, swap[0], swap[1], swap[2]);
    var s2 := After(s1, swap);
    ThreeSteps(s2, last[0], last[1], last[2]);
    AfterBoth(s0, first, swap);
    AfterBoth(s0, first + swap, last);
  }

  lemma {:induction false} AfterBoth(s: State, a: seq<Step>, b: seq<Step>)
    ensures After(s, a + b) == After(After(s, a), b)
    decreases |a|
  {
    if a == [] {
      assert a + b == b;
    } else {
      hide Do;
      AfterBoth(Do(s, a[0]), a[1..], b);
      assert (a + b)[1..] == a[1..] + b;
    }
  }

  lemma ThreeSteps(s: State, a: Step, b: Step, c: Step)
    ensures After(s, [a, b, c]) == Do(Do(Do(s, a), b), c)
  {
    hide Do;
    Pair(s, [a, b, c]);
    assert [a, b, c][2..] == [c];
    Last(Do(Do(s, a), b), c);
  }

  lemma Four(s: State, a: Step, b: Step, c: Step, d: Step)
    ensures After(s, [a, b, c, d]) == Do(Do(Do(Do(s, a), b), c), d)
  {
    hide Do;
    Pair(s, [a, b, c, d]);
    assert [a, b, c, d][2..] == [c, d];
    Pair(Do(Do(s, a), b), [c, d]);
    assert [c, d][2..] == [];
  }

  /** Over any run, with any number of waiters, returns never outnumber the values stored. */
  lemma ReturnsNeverOutnumberStores(waiters: set<WaiterId>, clock: Time, steps: seq<Step>)
    ensures var s := After(Start(waiters, clock), steps);
            s.fired <= s.stores && (s.at.Some? ==> s.fired < s.stores)
  {
    ScheduleKeepsInv(Start(waiters, clock), steps);
  }

  /** Any idle waiter that calls `reached` while a deadline is in force falls asleep on it. */
  lemma CallFallsAsleep(s: State, i: WaiterId)
    requires i in s.waiters && s.waiters[i].NotWaiting? && s.at.Some?
    ensures var due := s.clock + Max(s.at.value - s.clock, 0);
            Do(Do(s, Call(i)), Read(i)) == s.(waiters := s.waiters[i := ParkedUntil(s.at.value, due, false)])
  {
    var due := s.clock + Max(s.at.value - s.clock, 0);
    assert s.waiters[i := Registered(false)][i := ParkedUntil(s.at.value, due, false)]
        == s.waiters[i := ParkedUntil(s.at.value, due, false)];
  }

  /** With no setter in between, every sleeper with no wakeup coming knows the deadline in force. */
  ghost predicate AllInformed(s: State) {
    s.unannounced == 0 ==>
      forall i :: i in s.waiters && s.waiters[i].Parked() && !s.waiters[i].notified
                  ==> s.waiters[i].Observed() == s.at
  }

  /** Two waiters fall asleep on one deadline, and the first to find it due spends it. */
  function TwoSleepers(due: Time, i: WaiterId, j: WaiterId): seq<Step> {
    [Store(Some(due)), NotifyWaiters, Call(i), Read(i), Call(j), Read(j), Fire(i)]
  }

  /**
   Over all runs of these waiters, every sleeper knows the deadline in force exactly
   when there is at most one of them. With two, one may spend the deadline and leave
   the other asleep over an empty cell: spending it notifies nobody.
   */
  lemma SleepersKnowExactlyWhenAlone(waiters: set<WaiterId>, clock: Time)
    ensures (forall steps :: AllInformed(After(Start(waiters, clock), steps))) <==> |waiters| <= 1
  {
    if |waiters| <= 1 {
      forall steps
        ensures AllInformed(After(Start(waiters, clock), steps))
      {
        AloneIsInformed(waiters, clock, steps);
      }
    } else {
      var i :| i in waiters;
      AnotherMember(waiters, i);
      var j :| j in waiters - {i};
      SpendingNotifiesNobody(waiters, clock, i, j);
    }
  }

  lemma AloneIsInformed(waiters: set<WaiterId>, clock: Time, steps: seq<Step>)
    requires |waiters| <= 1
    ensures AllInformed(After(Start(waiters, clock), steps))
  {
    ScheduleKeepsInv(Start(waiters, clock), steps);
    KeepsWaiters(Start(waiters, clock), steps);
    var s := After(Start(waiters, clock), steps);
    forall i, j | i in s.waiters && j in s.waiters
      ensures i == j
    {
      if i != j {
        TwoMembers(waiters, i, j);
      }
    }
    assert forall i :: i in s.waiters ==> Informed(s, i);
  }

  lemma AnotherMember(members: set<WaiterId>, i: WaiterId)
    requires |members| > 1 && i in members
    ensures members - {i} != {}
  {
    assert members == {i} + (members - {i});
  }

  lemma TwoMembers(members: set<WaiterId>, i: WaiterId, j: WaiterId)
    requires i in members && j in members && i != j
    ensures |members| > 1
  {
    assert members == {i, j} + (members - {i, j});
  }

  lemma {:induction false} KeepsWaiters(s: State, steps: seq<Step>)
    ensures After(s, steps).waiters.Keys == s.waiters.Keys
    decreases |steps|
  {
    if steps != [] {
      OneStepKeepsWaiters(s, steps[0]);
      KeepsWaiters(Do(s, steps[0]), steps[1..]);
    }
  }

  lemma OneStepKeepsWaiters(s: State, step: Step)
    ensures Do(s, step).waiters.Keys == s.waiters.Keys
  {
  }

  /** For any two waiters, seven steps from the start end with one asleep and uninformed. */
  lemma SpendingNotifiesNobody(waiters: set<WaiterId>, clock: Time, i: WaiterId, j: WaiterId)
    requires i in waiters && j in waiters && i != j
    ensures var s := After(Start(waiters, clock), TwoSleepers(clock, i, j));
            && s.unannounced == 0 && s.at.None? && j in s.waiters
            && s.waiters[j] == ParkedUntil(clock, clock, false)
            && !AllInformed(s)
  {
    var s0 := Start(waiters, clock);
    var s1 := Do(Do(s0, Store(Some(clock))), NotifyWaiters);
    Idle(waiters, clock, s1);
    CallFallsAsleep(s1, i);
    var s2 := Do(Do(s1, Call(i)), Read(i));
    CallFallsAsleep(s2, j);
    var s3 := Do(Do(s2, Call(j)), Read(j));
    Three(s0, [Store(Some(clock)), NotifyWaiters], [Call(i), Read(i)], [Call(j), Read(j)], Fire(i));
    assert [Store(Some(clock)), NotifyWaiters] + [Call(i), Read(i)] + [Call(j), Read(j)] + [Fire(i)]
        == TwoSleepers(clock, i, j);
    var s := Do(s3, Fire(i));
    assert Returns(s3, Fire(i));
    assert s.waiters[j] == ParkedUntil(clock, clock, false);
  }

  lemma Idle(waiters: set<WaiterId>, clock: Time, s: State)
    requires s == Do(Do(Start(waiters, clock), Store(Some(clock))), NotifyWaiters)
    ensures s.at == Some(clock) && s.clock == clock && s.unannounced == 0
    ensures s.waiters.Keys == waiters && forall i :: i in waiters ==> s.waiters[i].NotWaiting?
  {
  }

  lemma Three(s: State, a: seq<Step>, b: seq<Step>, c: seq<Step>, last: Step)
    requires |a| == 2 && |b| == 2 && |c| == 2
    ensures After(s, a + b + c + [last])
         == Do(Do(Do(Do(Do(Do(Do(s, a[0]), a[1]), b[0]), b[1]), c[0]), c[1]), last)
  {
    hide Do, After;
    var steps := a + b + c + [last];
    Pair(s, steps);
    assert steps[2..] == b + c + [last];
    var s1 := Do(Do(s, a[0]), a[1]);
    Pair(s1, steps[2..]);
    assert steps[2..][2..] == c + [last];
    var s2 := Do(Do(s1, b[0]), b[1]);
    Pair(s2, c + [last]);
    assert (c + [last])[2..] == [last];
    Last(Do(Do(s2, c[0]), c[1]), last);
  }

  lemma Pair(s: State, steps: seq<Step>)
    requires |steps| >= 2
    ensures After(s, steps) == After(Do(Do(s, steps[0]), steps[1]), steps[2..])
  {
    assert steps[1..][1..] == steps[2..];
  }

  lemma Last(s: State, step: Step)
    ensures After(s, [step]) == Do(s, step)
  {
    assert [step][1..] == [];
  }

  // ------------------------------------------------------------------- progress

  /** What a waiter left to itself does next, given a deadline that is due. */
  function OwnStep(s: State, i: WaiterId): Step
    requires i in s.waiters
  {
    match s.waiters[i]
    case NotWaiting => Call(i)
    case Registered(_) => Read(i)
    case ParkedEmpty(_) => Wake(i)
    case ParkedUntil(_, _, notified) => if notified then Wake(i) else Fire(i)
  }

  /** How far a waiter is from returning for a deadline that is due. */
  function Distance(w: Waiter): nat {
    match w
    case NotWaiting => 3
    case Registered(notified) => if notified then 4 else 2
    case ParkedEmpty(_) => 3
    case ParkedUntil(_, _, notified) => if notified then 3 else 1
  }

  ghost predicate Due(s: State) {
    s.at.Some? && s.at.value <= s.clock && s.unannounced == 0
  }

  /**
   A due deadline that nobody is in the middle of setting is spent by any waiter
   left to itself: each of its steps can happen and brings it nearer, and the
   last one returns. `Distance` bounds the steps by four.
   */
  lemma DueDeadlineIsNeverSleptThrough(s: State, i: WaiterId)
    requires Inv(s) && Due(s) && i in s.waiters
    ensures Enabled(s, OwnStep(s, i))
    ensures var t := Apply(s, OwnStep(s, i));
            Inv(t) &&
            if Distance(s.waiters[i]) == 1 then Returns(s, OwnStep(s, i)) && t.fired == s.fired + 1
            else Due(t) && t.at == s.at && Distance(t.waiters[i]) < Distance(s.waiters[i]) <= 4
  {
    assert Informed(s, i);
    StepKeepsInv(s, OwnStep(s, i));
  }
}
