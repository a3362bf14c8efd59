/**
 Periodic services that own their passes: a wakeup, a tick or a reached deadline
 starts one, stop admits no more, and shutdown joins what is running.

 The model composes every service's loop with the deadline's own interleavings,
 so a service that awaits the deadline is a waiter of `CoordinationDeadline`. The
 instants between reading the stop flag and acting on it are separate steps.
 */
module BackgroundServices {
  import opened Options
  import D = CoordinationDeadline

  const MAX_SERVICES: nat := 11

  type ServiceId = nat

  /** What ended one wait of a service. */
  datatype Cause = Wakeup | Deadline | Tick

  datatype Tally = Tally(wakeups: nat, deadlines: nat, ticks: nat)
  {
    function Of(cause: Cause): nat {
      match cause
      case Wakeup => wakeups
      case Deadline => deadlines
      case Tick => ticks
    }

    function Plus(cause: Cause): Tally {
      match cause
      case Wakeup => this.(wakeups := wakeups + 1)
      case Deadline => this.(deadlines := deadlines + 1)
      case Tick => this.(ticks := ticks + 1)
    }
  }

  const NOTHING := Tally(0, 0, 0)

  /** Where a service's loop stands. */
  datatype Position =
    | AtTop
    | Selecting
    | Chosen(cause: Cause)
    | Cleared(cause: Cause)
    | Passing(cause: Cause)
    | Ended
    | Aborted(during: bool)

  /**
   `permit` is the one stored wakeup, `ticked` the one tick a skipping interval
   holds ready. The rest is history: requests made and ticks, passes started and
   finished, those started after stop was written, and for each cause how often it was taken, turned into
   a pass, and given up because the service was stopped.
   */
  datatype Service = Service(
    position: Position, awaitsDeadline: bool, permit: bool, ticked: bool,
    notifies: nat, ticks: nat, started: nat, finished: nat, late: nat,
    taken: Tally, served: Tally, forfeited: Tally)

  /** What one service does between two of its awaits, or has done to it. */
  datatype Move =
    | Notified
    | Ticks
    | ReadsStopAtTop
    | SeesStop
    | Takes(cause: Cause)
    | ReadsStopAgain
    | Starts
    | Finishes

  predicate CanMove(service: Service, move: Move, stop: bool) {
    match move
    case Notified => true
    case Ticks => true
    case ReadsStopAtTop => service.position.AtTop?
    case SeesStop => service.position.Selecting? && stop
    case Takes(cause) =>
      service.position.Selecting?
      && (match cause
          case Wakeup => service.permit
          case Deadline => service.awaitsDeadline
          case Tick => service.ticked)
    case ReadsStopAgain => service.position.Chosen?
    case Starts => service.position.Cleared?
    case Finishes => service.position.Passing?
  }

  function Moved(service: Service, move: Move, stop: bool): Service
    requires CanMove(service, move, stop)
  {
    match move
    case Notified => service.(permit := true, notifies := service.notifies + 1)
    case Ticks => service.(ticked := true, ticks := service.ticks + 1)
    case ReadsStopAtTop => service.(position := if stop then Ended else Selecting)
    case SeesStop => service.(position := Ended)
    case Takes(cause) =>
      service.(position := Chosen(cause), taken := service.taken.Plus(cause),
               permit := service.permit && cause != Wakeup, ticked := service.ticked && cause != Tick)
    case ReadsStopAgain =>
      if stop
      then service.(position := Ended, forfeited := service.forfeited.Plus(service.position.cause))
      else service.(position := Cleared(service.position.cause))
    case Starts =>
      service.(position := Passing(service.position.cause), started := service.started + 1,
               served := service.served.Plus(service.position.cause),
               late := service.late + (if stop then 1 else 0))
    case Finishes => service.(position := AtTop, finished := service.finished + 1)
  }

  /** Aborting a task drops it wherever it is awaiting. */
  function Abort(service: Service): Service {
    match service.position
    case Ended => service
    case Aborted(_) => service
    case Chosen(cause) => service.(position := Aborted(false), forfeited := service.forfeited.Plus(cause))
    case Cleared(cause) => service.(position := Aborted(false), forfeited := service.forfeited.Plus(cause))
    case Passing(_) => service.(position := Aborted(true))
    case _ => service.(position := Aborted(false))
  }

  datatype Shutdown = NotBegun | Joining | BudgetSpent

  datatype State = State(
    deadline: D.State, stop: bool, shutdown: Shutdown, services: map<ServiceId, Service>)

  /** A service's move, a poll of its own `reached` that does not return, or a step of the rest. */
  datatype Step =
    | SetDeadline(value: Option<D.Time>)
    | AnnounceDeadline
    | Advance(clock: D.Time)
    | WriteStop
    | BeginShutdown
    | BudgetExpires
    | Poll(service: ServiceId, inner: D.Step)
    | Runs(service: ServiceId, move: Move)

  function Fresh(awaitsDeadline: bool): Service {
    Service(AtTop, awaitsDeadline, false, false, 0, 0, 0, 0, 0, NOTHING, NOTHING, NOTHING)
  }

  /** Every service is owned before it runs, and at most MAX_SERVICES are. */
  function Start(awaits: map<ServiceId, bool>, clock: D.Time): State
    requires |awaits| <= MAX_SERVICES
  {
    State(D.Start(awaits.Keys, clock), false, NotBegun, map i | i in awaits :: Fresh(awaits[i]))
  }

  predicate OwnPoll(step: D.Step, i: ServiceId) {
    step == D.Call(i) || step == D.Read(i) || step == D.Wake(i) || step == D.Fire(i)
  }

  predicate Enabled(s: State, step: Step) {
    match step
    case SetDeadline(_) => true
    case AnnounceDeadline => s.deadline.unannounced > 0
    case Advance(t) => s.deadline.clock <= t
    case WriteStop => true
    case BeginShutdown => s.shutdown == NotBegun
    case BudgetExpires => s.shutdown == Joining
    case Poll(i, inner) =>
      i in s.services && s.services[i].position.Selecting? && s.services[i].awaitsDeadline
      && OwnPoll(inner, i) && D.Enabled(s.deadline, inner) && !D.Returns(s.deadline, inner)
    case Runs(i, move) =>
      i in s.services && CanMove(s.services[i], move, s.stop)
      && (move == Takes(Deadline) ==> D.Returns(s.deadline, D.Fire(i)))
  }

  /** A service's move as the deadline sees it: leaving `select!` drops the registration. */
  function DeadlineAfter(d: D.State, i: ServiceId, move: Move): D.State {
    match move
    case SeesStop => D.Do(d, D.Cancel(i))
    case Takes(cause) => D.Do(d, if cause == Deadline then D.Fire(i) else D.Cancel(i))
    case _ => d
  }

  function DropAll(d: D.State): D.State {
    d.(waiters := map i | i in d.waiters :: D.NotWaiting)
  }

  function Apply(s: State, step: Step): State
    requires Enabled(s, step)
  {
    match step
    case SetDeadline(value) => s.(deadline := D.Do(s.deadline, D.Store(value)))
    case AnnounceDeadline => s.(deadline := D.Do(s.deadline, D.NotifyWaiters))
    case Advance(t) => s.(deadline := D.Do(s.deadline, D.Advance(t)))
    case WriteStop => s.(stop := true)
    case BeginShutdown => s.(stop := true, shutdown := Joining)
    case BudgetExpires =>
      s.(shutdown := BudgetSpent, deadline := DropAll(s.deadline),
         services := map i | i in s.services :: Abort(s.services[i]))
    case Poll(i, inner) => s.(deadline := D.Do(s.deadline, inner))
    case Runs(i, move) =>
      s.(deadline := DeadlineAfter(s.deadline, i, move),
         services := s.services[i := Moved(s.services[i], move, s.stop)])
  }

  /** One step of a schedule. A step that cannot happen now changes nothing. */
  function Do(s: State, step: Step): State {
    if Enabled(s, step) then Apply(s, step) else s
  }

  function After(s: State, steps: seq<Step>): State
    decreases |steps|
  {
    if steps == [] then s else After(Do(s, steps[0]), steps[1..])
  }

  // -------------------------------------------------------------- the invariant

  /** One taken cause is between being taken and becoming a pass. */
  function InFlight(p: Position, cause: Cause): nat {
    if (p.Chosen? || p.Cleared?) && p.cause == cause then 1 else 0
  }

  predicate Over(p: Position) {
    p.Ended? || p.Aborted?
  }

  /** Every cause taken becomes a pass, is about to, or was given up by a stopped service. */
  ghost predicate CauseOk(service: Service, cause: Cause, stop: bool) {
    && service.taken.Of(cause)
       == service.served.Of(cause) + InFlight(service.position, cause) + service.forfeited.Of(cause)
    && (service.forfeited.Of(cause) > 0 ==>
          service.forfeited.Of(cause) == 1 && stop && Over(service.position))
  }

  ghost predicate ServiceOk(service: Service, stop: bool, shutdown: Shutdown) {
    var p := service.position;
    // Passes are one at a time.
    && service.started == service.finished + (if p.Passing? || p == Aborted(true) then 1 else 0)
    // At most one pass starts after stop, and the service ends after it.
    && (service.late > 0 ==> service.late == 1 && stop && (p.AtTop? || p.Passing? || Over(p)))
    && (forall cause :: CauseOk(service, cause, stop))
    && service.started == service.served.wakeups + service.served.deadlines + service.served.ticks
    // A wakeup is taken at most once per request, and a tick at most once.
    && service.taken.wakeups + (if service.permit then 1 else 0) <= service.notifies
    && service.taken.ticks + (if service.ticked then 1 else 0) <= service.ticks
    // A loop ends by itself only once stopped.
    && (p.Ended? ==> stop)
    // Nothing is aborted before the shutdown budget runs out.
    && (p.Aborted? ==> shutdown == BudgetSpent)
    && (shutdown == BudgetSpent ==> Over(p))
  }

  ghost predicate Inv(s: State) {
    && D.Inv(s.deadline)
    && s.deadline.waiters.Keys == s.services.Keys
    && (s.shutdown != NotBegun ==> s.stop)
    && (forall i :: i in s.services ==> ServiceOk(s.services[i], s.stop, s.shutdown))
  }

  lemma StartIsInv(awaits: map<ServiceId, bool>, clock: D.Time)
    requires |awaits| <= MAX_SERVICES
    ensures Inv(Start(awaits, clock))
  {
    hide ServiceOk;
    var s := Start(awaits, clock);
    forall i | i in s.services
      ensures ServiceOk(s.services[i], s.stop, s.shutdown)
    {
      FreshIsOk(awaits[i]);
    }
    assert s.deadline.waiters.Keys == s.services.Keys;
  }

  lemma FreshIsOk(awaitsDeadline: bool)
    ensures ServiceOk(Fresh(awaitsDeadline), false, NotBegun)
  {
  }

  lemma MoveKeepsService(service: Service, move: Move, stop: bool, shutdown: Shutdown)
    requires ServiceOk(service, stop, shutdown) && CanMove(service, move, stop)
    ensures ServiceOk(Moved(service, move, stop), stop, shutdown)
  {
    forall cause
      ensures CauseOk(Moved(service, move, stop), cause, stop)
    {
      assert CauseOk(service, cause, stop);
      hide Moved;
      MoveKeepsCause(service, move, cause, stop);
    }
    hide CauseOk, Tally.Of;
  }

  lemma MoveKeepsCause(service: Service, move: Move, cause: Cause, stop: bool)
    requires CauseOk(service, cause, stop) && CanMove(service, move, stop)
    ensures CauseOk(Moved(service, move, stop), cause, stop)
  {
  }

  lemma StopKeepsService(service: Service, shutdown: Shutdown, shutdown': Shutdown)
    requires ServiceOk(service, false, shutdown) || ServiceOk(service, true, shutdown)
    requires shutdown' == BudgetSpent <==> shutdown == BudgetSpent
    ensures ServiceOk(service, true, shutdown')
  {
    forall cause
      ensures CauseOk(service, cause, true)
    {
      assert CauseOk(service, cause, false) || CauseOk(service, cause, true);
    }
  }

  lemma AbortKeepsService(service: Service, stop: bool)
    requires ServiceOk(service, stop, Joining) && stop
    ensures ServiceOk(Abort(service), stop, BudgetSpent)
  {
    hide CauseOk;
    forall cause
      ensures CauseOk(Abort(service), cause, stop)
    {
      AbortKeepsCause(service, cause, stop);
    }
  }

  lemma AbortKeepsCause(service: Service, cause: Cause, stop: bool)
    requires CauseOk(service, cause, stop) && stop
    ensures CauseOk(Abort(service), cause, stop)
  {
  }

  lemma DeadlineStepKeepsInv(d: D.State, step: D.Step)
    requires D.Inv(d)
    ensures D.Inv(D.Do(d, step)) && D.Do(d, step).waiters.Keys == d.waiters.Keys
  {
    if D.Enabled(d, step) {
      D.StepKeepsInv(d, step);
    }
  }

  /** A step keeps the deadline's own invariant and its roster of waiters. */
  lemma StepKeepsDeadline(s: State, step: Step)
    requires Inv(s) && Enabled(s, step)
    ensures D.Inv(Apply(s, step).deadline)
    ensures Apply(s, step).deadline.waiters.Keys == s.deadline.waiters.Keys
  {
    match step {
      case SetDeadline(value) => DeadlineStepKeepsInv(s.deadline, D.Store(value));
      case AnnounceDeadline => DeadlineStepKeepsInv(s.deadline, D.NotifyWaiters);
      case Advance(t) => DeadlineStepKeepsInv(s.deadline, D.Advance(t));
      case Poll(i, inner) => DeadlineStepKeepsInv(s.deadline, inner);
      case Runs(i, move) =>
        DeadlineStepKeepsInv(s.deadline, D.Cancel(i));
        DeadlineStepKeepsInv(s.deadline, D.Fire(i));
      case _ =>
    }
  }

  lemma StepKeepsService(s: State, step: Step, i: ServiceId)
    requires Inv(s) && Enabled(s, step) && i in s.services
    ensures var t := Apply(s, step); i in t.services && ServiceOk(t.services[i], t.stop, t.shutdown)
  {
    assert ServiceOk(s.services[i], s.stop, s.shutdown);
    match step {
      case Runs(j, move) => if j == i { MoveKeepsService(s.services[i], move, s.stop, s.shutdown); }
      case BudgetExpires => AbortKeepsService(s.services[i], s.stop);
      case WriteStop => StopKeepsService(s.services[i], s.shutdown, s.shutdown);
      case BeginShutdown => StopKeepsService(s.services[i], s.shutdown, Joining);
      case _ =>
    }
  }

  /** Every step of every party keeps the invariant. */
  lemma StepKeepsInv(s: State, step: Step)
    requires Inv(s) && Enabled(s, step)
    ensures Inv(Apply(s, step))
  {
    hide D.Inv, ServiceOk, D.Do, D.Returns;
    var t := Apply(s, step);
    StepKeepsDeadline(s, step);
    assert t.services.Keys == s.services.Keys;
    forall i | i in t.services
      ensures ServiceOk(t.services[i], t.stop, t.shutdown)
    {
      StepKeepsService(s, step, i);
    }
  }

  lemma {:induction false} ScheduleKeepsInv(s: State, steps: seq<Step>)
    requires Inv(s)
    ensures Inv(After(s, steps))
    decreases |steps|
  {
    if steps != [] {
      if Enabled(s, steps[0]) {
        StepKeepsInv(s, steps[0]);
      }
      ScheduleKeepsInv(Do(s, steps[0]), steps[1..]);
    }
  }

  // --------------------------------------------------------------- the promises

  /**
   Over every schedule: a service's passes never overlap, at most one of them starts
   after stop is written, a pass is cut short only by an expired shutdown budget, and
   no loop ends before it is stopped.
   */
  lemma PassesAreOwned(awaits: map<ServiceId, bool>, clock: D.Time, steps: seq<Step>, i: ServiceId)
    requires |awaits| <= MAX_SERVICES && i in After(Start(awaits, clock), steps).services
    ensures var s := After(Start(awaits, clock), steps);
            var service := s.services[i];
            && service.finished <= service.started <= service.finished + 1
            && (service.started == service.finished + 1 <==>
                  service.position.Passing? || service.position == Aborted(true))
            && service.late <= 1
            && (service.late == 1 ==> s.stop && !service.position.Selecting?)
            && (service.position.Aborted? ==> s.stop && s.shutdown == BudgetSpent)
            && (service.position.Ended? ==> s.stop)
  {
    StartIsInv(awaits, clock);
    ScheduleKeepsInv(Start(awaits, clock), steps);
    var s := After(Start(awaits, clock), steps);
    assert ServiceOk(s.services[i], s.stop, s.shutdown);
  }

  /**
   Over every schedule, nothing that ended a wait is lost: each wakeup taken, tick
   taken or deadline spent by a service has started a pass of its own, is about to,
   or was the one given up because the service was stopped. No more wakeups are taken
   than were asked for, and no more ticks than there were.
   */
  lemma EveryCauseIsServed(
      awaits: map<ServiceId, bool>, clock: D.Time, steps: seq<Step>, i: ServiceId, cause: Cause)
    requires |awaits| <= MAX_SERVICES && i in After(Start(awaits, clock), steps).services
    ensures var s := After(Start(awaits, clock), steps);
            var service := s.services[i];
            && service.served.Of(cause) <= service.taken.Of(cause) <= service.served.Of(cause) + 1
            && (service.taken.Of(cause) == service.served.Of(cause) + 1 ==>
                  || service.position == Chosen(cause)
                  || service.position == Cleared(cause)
                  || (s.stop && Over(service.position)))
            && service.started == service.served.wakeups + service.served.deadlines + service.served.ticks
            && service.taken.wakeups <= Count(steps, Runs(i, Notified))
            && service.taken.ticks <= Count(steps, Runs(i, Ticks))
  {
    StartIsInv(awaits, clock);
    ScheduleKeepsInv(Start(awaits, clock), steps);
    KeepsServices(Start(awaits, clock), steps);
    StartsUnasked(awaits, clock, i);
    AsksAndTicksAreCounted(Start(awaits, clock), steps, i);
    var s := After(Start(awaits, clock), steps);
    hide After, Start, Count;
    CauseIsServed(s, i, cause);
    hide Inv;
  }

  lemma StartsUnasked(awaits: map<ServiceId, bool>, clock: D.Time, i: ServiceId)
    requires |awaits| <= MAX_SERVICES && i in Start(awaits, clock).services
    ensures Start(awaits, clock).services[i].notifies == 0 && Start(awaits, clock).services[i].ticks == 0
  {
  }

  lemma CauseIsServed(s: State, i: ServiceId, cause: Cause)
    requires Inv(s) && i in s.services
    ensures var service := s.services[i];
            && service.served.Of(cause) <= service.taken.Of(cause) <= service.served.Of(cause) + 1
            && (service.taken.Of(cause) == service.served.Of(cause) + 1 ==>
                  || service.position == Chosen(cause)
                  || service.position == Cleared(cause)
                  || (s.stop && Over(service.position)))
            && service.started == service.served.wakeups + service.served.deadlines + service.served.ticks
            && service.taken.wakeups <= service.notifies && service.taken.ticks <= service.ticks
  {
    assert ServiceOk(s.services[i], s.stop, s.shutdown);
    assert CauseOk(s.services[i], cause, s.stop);
  }

  function Count(steps: seq<Step>, step: Step): nat {
    if steps == [] then 0 else (if steps[0] == step then 1 else 0) + Count(steps[1..], step)
  }

  lemma {:induction false} KeepsServices(s: State, steps: seq<Step>)
    ensures After(s, steps).services.Keys == s.services.Keys
    decreases |steps|
  {
    if steps != [] {
      StepKeepsServices(s, steps[0]);
      hide Do;
      KeepsServices(Do(s, steps[0]), steps[1..]);
    }
  }

  lemma StepKeepsServices(s: State, step: Step)
    ensures Do(s, step).services.Keys == s.services.Keys
  {
    hide D.Do;
  }

  lemma {:induction false} AsksAndTicksAreCounted(s: State, steps: seq<Step>, i: ServiceId)
    requires i in s.services && i in After(s, steps).services
    ensures var t := After(s, steps);
            && t.services[i].notifies == s.services[i].notifies + Count(steps, Runs(i, Notified))
            && t.services[i].ticks == s.services[i].ticks + Count(steps, Runs(i, Ticks))
    decreases |steps|
  {
    if steps != [] {
      StepIsCounted(s, steps[0], i);
      StepKeepsServices(s, steps[0]);
      hide Do;
      AsksAndTicksAreCounted(Do(s, steps[0]), steps[1..], i);
    }
  }

  lemma StepIsCounted(s: State, step: Step, i: ServiceId)
    requires i in s.services
    ensures var t := Do(s, step);
            && i in t.services
            && t.services[i].notifies == s.services[i].notifies + (if step == Runs(i, Notified) then 1 else 0)
            && t.services[i].ticks == s.services[i].ticks + (if step == Runs(i, Ticks) then 1 else 0)
  {
    hide D.Do, D.Enabled, D.Returns;
  }

  // ------------------------------------------- a service and its registration

  /** A service is registered for the deadline only while it awaits it in its `select!`. */
  ghost predicate Registers(s: State) {
    && s.deadline.waiters.Keys == s.services.Keys
    && forall i :: i in s.services && !s.deadline.waiters[i].NotWaiting? ==>
         s.services[i].position.Selecting? && s.services[i].awaitsDeadline
  }

  /** What the rest of the world does to the deadline registers nobody and drops nobody. */
  lemma OthersRegisterNobody(d: D.State, inner: D.Step)
    requires inner.Store? || inner.NotifyWaiters? || inner.Advance?
    ensures var e := D.Do(d, inner);
            e.waiters.Keys == d.waiters.Keys
            && forall i :: i in d.waiters ==> (e.waiters[i].NotWaiting? <==> d.waiters[i].NotWaiting?)
  {
  }

  /** Each own step of a service makes of the state this and nothing else. */
  lemma OwnStepMakes(s: State, step: Step, i: ServiceId)
    requires IsOwn(step, i) && Enabled(s, step)
    ensures Do(s, step)
            == if step.Poll? then s.(deadline := D.Do(s.deadline, step.inner))
               else s.(deadline := DeadlineAfter(s.deadline, i, step.move),
                       services := s.services[i := Moved(s.services[i], step.move, s.stop)])
    ensures i in s.services
    ensures step.Poll? ==> OwnPoll(step.inner, i) && !D.Returns(s.deadline, step.inner)
                           && s.services[i].position.Selecting? && s.services[i].awaitsDeadline
    ensures step.Runs? ==> CanMove(s.services[i], step.move, s.stop)
                           && (step.move == Takes(Deadline) ==> D.Returns(s.deadline, D.Fire(i)))
  {
  }

  lemma StepKeepsRegisters(s: State, step: Step)
    requires Registers(s)
    ensures Registers(Do(s, step))
  {
    StepKeepsServices(s, step);
    OthersRegisterNobody(s.deadline, D.NotifyWaiters);
    match step {
      case SetDeadline(value) => OthersRegisterNobody(s.deadline, D.Store(value)); hide D.Do;
      case AnnounceDeadline => hide D.Do;
      case Advance(t) => OthersRegisterNobody(s.deadline, D.Advance(t)); hide D.Do;
      case Poll(i, _) => if Enabled(s, step) { OwnStepKeepsRegisters(s, step, i); } else { hide Enabled; }
      case Runs(i, _) => if Enabled(s, step) { OwnStepKeepsRegisters(s, step, i); } else { hide Enabled; }
      case _ => hide D.Do, D.Enabled;
    }
  }

  lemma OwnStepKeepsRegisters(s: State, step: Step, i: ServiceId)
    requires Registers(s) && IsOwn(step, i) && Enabled(s, step)
    ensures Registers(Do(s, step))
  {
    OwnStepMakes(s, step, i);
    hide Do, Enabled;
    if step.Poll? {
      OwnDeadlineStep(s.deadline, step.inner, i);
      hide D.Do;
    } else {
      OwnDeadlineAfter(s.deadline, i, step.move);
      hide D.Do, DeadlineAfter;
    }
  }

  lemma {:induction false} RunKeepsRegisters(s: State, steps: seq<Step>)
    requires Registers(s)
    ensures Registers(After(s, steps))
    decreases |steps|
  {
    if steps != [] {
      hide Registers, Do;
      StepKeepsRegisters(s, steps[0]);
      RunKeepsRegisters(Do(s, steps[0]), steps[1..]);
    }
  }

  /** This step is of one service and touches no other. */
  predicate IsOwn(step: Step, i: ServiceId) {
    (step.Poll? || step.Runs?) && step.service == i
  }

  /**
   Over every schedule, a service is registered for the deadline only while it waits and
   only if it awaits it. What it does by itself leaves every other service, its
   registration and the clock as they are, and it touches the deadline only to spend it:
   for the pass it is about to start, when that deadline is in force and past.
   */
  lemma ServicesKeepToThemselves(
      awaits: map<ServiceId, bool>, clock: D.Time, steps: seq<Step>, step: Step, i: ServiceId)
    requires |awaits| <= MAX_SERVICES
    requires var s := After(Start(awaits, clock), steps); i in s.services && IsOwn(step, i)
    ensures var s := After(Start(awaits, clock), steps);
            Registers(s) && OwnStepOnly(s, Do(s, step), step, i)
  {
    StartIsInv(awaits, clock);
    ScheduleKeepsInv(Start(awaits, clock), steps);
    StartRegisters(awaits, clock);
    RunKeepsRegisters(Start(awaits, clock), steps);
    OwnStepIsIts(After(Start(awaits, clock), steps), step, i);
  }

  ghost predicate OwnStepOnly(s: State, t: State, step: Step, i: ServiceId)
  {
    && t.services.Keys == s.services.Keys && t.deadline.waiters.Keys == s.deadline.waiters.Keys
    && (forall j :: j in s.services && j != i ==> t.services[j] == s.services[j])
    && (forall j :: j in s.deadline.waiters && j != i ==> t.deadline.waiters[j] == s.deadline.waiters[j])
    && t.stop == s.stop && t.shutdown == s.shutdown && t.deadline.clock == s.deadline.clock
    && t.deadline.unannounced == s.deadline.unannounced && t.deadline.stores == s.deadline.stores
    && (if step == Runs(i, Takes(Deadline)) && Enabled(s, step)
        then t.deadline.fired == s.deadline.fired + 1 && t.deadline.at.None?
             && s.deadline.at.Some? && s.deadline.at.value <= s.deadline.clock
        else t.deadline.fired == s.deadline.fired && t.deadline.at == s.deadline.at)
  }

  lemma OwnStepIsIts(s: State, step: Step, i: ServiceId)
    requires Inv(s) && i in s.services && IsOwn(step, i)
    ensures OwnStepOnly(s, Do(s, step), step, i)
  {
    DeadlineIsInv(s);
    assert i in s.deadline.waiters;
    if Enabled(s, step) {
      OwnStepMakes(s, step, i);
      hide Inv, Enabled, Do, D.Do, D.Inv, D.Enabled, Moved, DeadlineAfter, CanMove;
      DueWhenReturned(s.deadline, i);
      if step.Poll? {
        OwnDeadlineStep(s.deadline, step.inner, i);
      } else {
        OwnDeadlineAfter(s.deadline, i, step.move);
      }
    } else {
      hide Inv, Enabled, D.Inv;
    }
  }

  lemma DueWhenReturned(d: D.State, i: ServiceId)
    requires D.Inv(d) && i in d.waiters
    ensures D.Returns(d, D.Fire(i)) ==> d.at.Some? && d.at.value <= d.clock
  {
  }

  /** A service's own poll, or leaving its `select!`, touches nothing of the deadline but its registration. */
  lemma OwnDeadlineStep(d: D.State, inner: D.Step, i: ServiceId)
    requires i in d.waiters && (OwnPoll(inner, i) || inner == D.Cancel(i))
    ensures var e := D.Do(d, inner);
            && e.waiters.Keys == d.waiters.Keys
            && (forall j :: j in d.waiters && j != i ==> e.waiters[j] == d.waiters[j])
            && e.clock == d.clock && e.unannounced == d.unannounced && e.stores == d.stores
            && (if D.Returns(d, inner) then e.fired == d.fired + 1 && e.at.None? && e.waiters[i].NotWaiting?
                else e.fired == d.fired && e.at == d.at)
            && (inner == D.Cancel(i) ==> e.waiters[i].NotWaiting?)
  {
  }

  lemma OwnDeadlineAfter(d: D.State, i: ServiceId, move: Move)
    requires i in d.waiters && (move == Takes(Deadline) ==> D.Returns(d, D.Fire(i)))
    ensures var e := DeadlineAfter(d, i, move);
            && e.waiters.Keys == d.waiters.Keys
            && (forall j :: j in d.waiters && j != i ==> e.waiters[j] == d.waiters[j])
            && e.clock == d.clock && e.unannounced == d.unannounced && e.stores == d.stores
            && (if move == Takes(Deadline) then e.fired == d.fired + 1 && e.at.None?
                else e.fired == d.fired && e.at == d.at)
            && (if move.SeesStop? || move.Takes? then e.waiters[i].NotWaiting? else e.waiters == d.waiters)
  {
    OwnDeadlineStep(d, D.Fire(i), i);
    OwnDeadlineStep(d, D.Cancel(i), i);
    hide D.Do;
  }

  lemma StartRegisters(awaits: map<ServiceId, bool>, clock: D.Time)
    requires |awaits| <= MAX_SERVICES
    ensures Registers(Start(awaits, clock))
  {
    assert Start(awaits, clock).deadline.waiters.Keys == awaits.Keys;
  }

  // ------------------------------------------------------------------- progress

  /** What a service left to itself does next when it has this cause to run a pass. */
  function OwnStep(s: State, i: ServiceId, cause: Cause): Step
    requires i in s.services && i in s.deadline.waiters
  {
    match s.services[i].position
    case AtTop => Runs(i, ReadsStopAtTop)
    case Selecting =>
      if cause != Deadline || D.Returns(s.deadline, D.Fire(i)) then Runs(i, Takes(cause))
      else Poll(i, D.OwnStep(s.deadline, i))
    case Chosen(_) => Runs(i, ReadsStopAgain)
    case Cleared(_) => Runs(i, Starts)
    case _ => Runs(i, Finishes)
  }

  /** How far a service is from taking this cause once it waits. */
  function SelectDistance(s: State, i: ServiceId, cause: Cause): nat
    requires i in s.deadline.waiters
  {
    if cause == Deadline then D.Distance(s.deadline.waiters[i]) + 2 else 3
  }

  /** How far a service is from starting a pass for this cause; another one taken goes first. */
  function Distance(s: State, i: ServiceId, cause: Cause): nat
    requires i in s.services && i in s.deadline.waiters
  {
    var p := s.services[i].position;
    if p == Cleared(cause) then 1
    else if p == Chosen(cause) then 2
    else
      SelectDistance(s, i, cause)
      + match p
        case Selecting => 0
        case AtTop => 1
        case Passing(_) => 2
        case Cleared(_) => 3
        case _ => 4
  }

  /** This cause is there to be taken. */
  ghost predicate Ready(s: State, i: ServiceId, cause: Cause)
    requires i in s.services
  {
    match cause
    case Wakeup => s.services[i].permit
    case Tick => s.services[i].ticked
    case Deadline => s.services[i].awaitsDeadline && D.Due(s.deadline)
  }

  /** Nothing has stopped this service, and this cause for a pass is there or already taken. */
  ghost predicate Owes(s: State, i: ServiceId, cause: Cause) {
    && i in s.services && i in s.deadline.waiters && !s.stop
    && (s.services[i].position == Chosen(cause) || s.services[i].position == Cleared(cause) || Ready(s, i, cause))
  }

  /** A step this service takes by itself. */
  predicate OwnMove(step: Step, i: ServiceId) {
    (step.Poll? && step.service == i)
    || (step.Runs? && step.service == i && !step.move.Notified? && !step.move.Ticks?)
  }

  /** Each own step of a service that owes a cause its pass can happen, and is nearer or starts it. */
  lemma OwedPassIsNearer(s: State, i: ServiceId, cause: Cause)
    requires Inv(s) && Owes(s, i, cause)
    ensures Enabled(s, OwnStep(s, i, cause)) && 0 < Distance(s, i, cause) <= 10
    ensures var t := Apply(s, OwnStep(s, i, cause));
            Inv(t) && i in t.services &&
            if Distance(s, i, cause) == 1
            then t.services[i].position == Passing(cause)
                 && t.services[i].served.Of(cause) == s.services[i].served.Of(cause) + 1
            else Owes(t, i, cause) && Distance(t, i, cause) < Distance(s, i, cause)
                 && t.services[i].served.Of(cause) == s.services[i].served.Of(cause)
  {
    OwnStepIsEnabled(s, i, cause);
    StepKeepsInv(s, OwnStep(s, i, cause));
    DeadlineIsInv(s);
    NotOver(s, i);
    if s.services[i].position.Selecting? && cause == Deadline {
      hide *;
      PollIsNearer(s, i);
    } else {
      hide *;
      MoveIsNearer(s, i, cause);
    }
  }

  lemma DeadlineIsInv(s: State)
    requires Inv(s)
    ensures D.Inv(s.deadline)
  {
  }

  lemma MoveIsNearer(s: State, i: ServiceId, cause: Cause)
    requires Owes(s, i, cause) && !Over(s.services[i].position)
    requires !(s.services[i].position.Selecting? && cause == Deadline)
    requires Enabled(s, OwnStep(s, i, cause))
    ensures 0 < Distance(s, i, cause) <= 10
    ensures var t := Apply(s, OwnStep(s, i, cause));
            && i in t.services
            && if Distance(s, i, cause) == 1
               then t.services[i].position == Passing(cause)
                    && t.services[i].served.Of(cause) == s.services[i].served.Of(cause) + 1
               else Owes(t, i, cause) && Distance(t, i, cause) < Distance(s, i, cause)
                    && t.services[i].served.Of(cause) == s.services[i].served.Of(cause)
  {
    hide D.Do, D.Distance, D.Returns, D.Enabled, D.OwnStep, D.Inv;
    BoundedWait(s.deadline.waiters[i]);
    if s.services[i].position.Selecting? {
      D.OneStepKeepsWaiters(s.deadline, D.Cancel(i));
      hide D.Due;
    } else {
      assert Apply(s, OwnStep(s, i, cause)).deadline == s.deadline;
      hide D.Due;
    }
  }

  lemma NotOver(s: State, i: ServiceId)
    requires Inv(s) && i in s.services && !s.stop
    ensures !Over(s.services[i].position)
  {
    assert ServiceOk(s.services[i], s.stop, s.shutdown);
  }

  lemma BoundedWait(w: D.Waiter)
    ensures 1 <= D.Distance(w) <= 4
  {
  }

  lemma OwnStepIsEnabled(s: State, i: ServiceId, cause: Cause)
    requires Inv(s) && Owes(s, i, cause)
    ensures Enabled(s, OwnStep(s, i, cause)) && OwnMove(OwnStep(s, i, cause), i)
  {
    NotOver(s, i);
    DeadlineIsInv(s);
    if s.services[i].position.Selecting? && cause == Deadline {
      hide *;
      PollIsEnabled(s, i);
    } else {
      hide Inv, D.Inv, D.Enabled, D.Returns, D.OwnStep, D.Due;
    }
  }

  lemma PollIsEnabled(s: State, i: ServiceId)
    requires D.Inv(s.deadline) && Owes(s, i, Deadline) && s.services[i].position.Selecting?
    ensures Enabled(s, OwnStep(s, i, Deadline)) && OwnMove(OwnStep(s, i, Deadline), i)
  {
    D.DueDeadlineIsNeverSleptThrough(s.deadline, i);
    hide D.Inv;
  }

  /** Each poll of a due deadline leaves it due and its waiter nearer, and the last spends it. */
  lemma PollIsNearer(s: State, i: ServiceId)
    requires D.Inv(s.deadline) && Owes(s, i, Deadline) && s.services[i].position.Selecting?
    requires Enabled(s, OwnStep(s, i, Deadline))
    ensures 0 < Distance(s, i, Deadline) <= 10
    ensures var t := Apply(s, OwnStep(s, i, Deadline));
            && i in t.services && Owes(t, i, Deadline) && Distance(t, i, Deadline) < Distance(s, i, Deadline)
            && t.services[i].served == s.services[i].served
  {
    D.DueDeadlineIsNeverSleptThrough(s.deadline, i);
    BoundedWait(s.deadline.waiters[i]);
    hide D.Inv;
  }

  /** These steps, each its own and each able to happen, end with the service in a pass of this cause. */
  ghost predicate LeadsToAPass(s: State, i: ServiceId, cause: Cause, steps: seq<Step>) {
    var t := After(s, steps);
    && AllOwn(s, i, steps)
    && i in s.services && i in t.services
    && t.services[i].position == Passing(cause)
    && t.services[i].served.Of(cause) == s.services[i].served.Of(cause) + 1
  }

  predicate AllOwn(s: State, i: ServiceId, steps: seq<Step>)
    decreases |steps|
  {
    steps == [] || (OwnMove(steps[0], i) && Enabled(s, steps[0]) && AllOwn(Do(s, steps[0]), i, steps[1..]))
  }

  /**
   Whatever a service is doing, a request it holds, a tick that is ready or a deadline
   that is due becomes a pass of its own: from any reachable state without stop, at
   most ten of the service's own steps start it.
   */
  lemma {:induction false} ReadyCauseBecomesAPass(s: State, i: ServiceId, cause: Cause)
    requires Inv(s) && Owes(s, i, cause)
    ensures exists steps :: |steps| <= Distance(s, i, cause) <= 10 && LeadsToAPass(s, i, cause, steps)
    decreases Distance(s, i, cause)
  {
    var step := OwnStep(s, i, cause);
    OwedPassIsNearer(s, i, cause);
    OwnStepIsEnabled(s, i, cause);
    var t := Apply(s, step);
    if Distance(s, i, cause) == 1 {
      LastStep(s, i, cause, step);
      assert |[step]| == 1;
    } else {
      StaysOwned(s, i, cause);
      hide Inv, Apply, Enabled, Owes, Distance, OwnMove, LeadsToAPass;
      ReadyCauseBecomesAPass(t, i, cause);
      var rest :| |rest| <= Distance(t, i, cause) && LeadsToAPass(t, i, cause, rest);
      StepThenRest(s, i, cause, step, rest);
      assert |[step] + rest| <= Distance(s, i, cause);
    }
  }

  lemma StaysOwned(s: State, i: ServiceId, cause: Cause)
    requires Inv(s) && Owes(s, i, cause)
    ensures i in s.services && i in s.deadline.waiters
  {
  }

  lemma LastStep(s: State, i: ServiceId, cause: Cause, step: Step)
    requires OwnMove(step, i) && Enabled(s, step) && i in s.services
    requires var t := Apply(s, step);
             && i in t.services && t.services[i].position == Passing(cause)
             && t.services[i].served.Of(cause) == s.services[i].served.Of(cause) + 1
    ensures LeadsToAPass(s, i, cause, [step])
  {
    OneStep(s, i, step, []);
    assert [step] + [] == [step];
    hide Apply, Enabled, OwnMove;
  }

  lemma StepThenRest(s: State, i: ServiceId, cause: Cause, step: Step, rest: seq<Step>)
    requires OwnMove(step, i) && Enabled(s, step) && i in s.services
    requires var t := Apply(s, step);
             && i in t.services && t.services[i].served.Of(cause) == s.services[i].served.Of(cause)
             && LeadsToAPass(t, i, cause, rest)
    ensures LeadsToAPass(s, i, cause, [step] + rest)
  {
    hide Apply, Enabled, OwnMove, After, AllOwn;
    OneStep(s, i, step, rest);
  }

  lemma OneStep(s: State, i: ServiceId, step: Step, rest: seq<Step>)
    ensures After(s, [step] + rest) == After(Do(s, step), rest)
    ensures AllOwn(s, i, [step] + rest) <==> OwnMove(step, i) && Enabled(s, step) && AllOwn(Do(s, step), i, rest)
  {
    assert ([step] + rest)[1..] == rest;
  }

  /** A request made or a tick come to a service that nothing has stopped becomes a pass of its own. */
  lemma AskedIsServed(s: State, i: ServiceId, cause: Cause)
    requires Inv(s) && i in s.services && !s.stop && cause != Deadline
    ensures var step := Runs(i, if cause == Wakeup then Notified else Ticks);
            Enabled(s, step)
            && exists steps :: |steps| <= 10 && LeadsToAPass(Apply(s, step), i, cause, steps)
  {
    var step := Runs(i, if cause == Wakeup then Notified else Ticks);
    StepKeepsInv(s, step);
    var t := Apply(s, step);
    assert Owes(t, i, cause);
    hide Inv, Apply, Owes, Enabled, LeadsToAPass;
    ReadyCauseBecomesAPass(t, i, cause);
    var steps :| |steps| <= Distance(t, i, cause) && LeadsToAPass(t, i, cause, steps);
    assert |steps| <= 10;
  }

  /** A deadline set, announced and come due becomes a pass of every service that awaits it. */
  lemma NewDeadlineIsServed(s: State, i: ServiceId, value: D.Time)
    requires Inv(s) && i in s.services && !s.stop && s.services[i].awaitsDeadline && s.deadline.unannounced == 0
    ensures var told := Do(Do(s, SetDeadline(Some(value))), AnnounceDeadline);
            var due := Do(told, Advance(D.Max(s.deadline.clock, value)));
            && due.deadline.at == Some(value) && due.deadline.clock == D.Max(s.deadline.clock, value)
            && exists steps :: |steps| <= 10 && LeadsToAPass(due, i, Deadline, steps)
  {
    var first, second, third :=
      SetDeadline(Some(value)), AnnounceDeadline, Advance(D.Max(s.deadline.clock, value));
    DeadlineComesDue(s, value);
    DoKeepsInv(s, first);
    DoKeepsInv(Do(s, first), second);
    DoKeepsInv(Do(Do(s, first), second), third);
    var due := Do(Do(Do(s, first), second), third);
    assert Owes(due, i, Deadline);
    hide Inv, Do, Owes, LeadsToAPass;
    ReadyCauseBecomesAPass(due, i, Deadline);
    var steps :| |steps| <= Distance(due, i, Deadline) && LeadsToAPass(due, i, Deadline, steps);
    assert |steps| <= 10;
  }

  lemma DoKeepsInv(s: State, step: Step)
    requires Inv(s)
    ensures Inv(Do(s, step))
  {
    if Enabled(s, step) {
      StepKeepsInv(s, step);
    }
  }

  lemma DeadlineComesDue(s: State, value: D.Time)
    requires s.deadline.unannounced == 0
    ensures var told := Do(Do(s, SetDeadline(Some(value))), AnnounceDeadline);
            var due := Do(told, Advance(D.Max(s.deadline.clock, value)));
            && due.deadline.at == Some(value) && due.deadline.clock == D.Max(s.deadline.clock, value)
            && D.Due(due.deadline) && due.services == s.services && due.stop == s.stop
            && due.deadline.waiters.Keys == s.deadline.waiters.Keys
  {
  }

  /** Every service is over and none is registered; those that were in a pass were cut short in it. */
  ghost predicate AllOver(s: State, t: State) {
    && t.stop && t.shutdown == BudgetSpent && t.services.Keys == s.services.Keys
    && t.deadline.waiters.Keys == s.services.Keys
    && (forall i :: i in s.services ==> Over(t.services[i].position) && t.deadline.waiters[i].NotWaiting?)
    && (forall i :: i in s.services ==>
          (t.services[i].position == Aborted(true) <==>
             s.services[i].position.Passing? || s.services[i].position == Aborted(true)))
  }

  /** Once shutdown has begun and its budget is spent, nothing runs and nothing waits. */
  lemma ShutdownEndsEverything(s: State)
    requires Inv(s) && s.shutdown == NotBegun
    ensures AllOver(s, Do(Do(s, BeginShutdown), BudgetExpires))
  {
    assert s.deadline.waiters.Keys == s.services.Keys;
    ShutdownBegins(s);
    ShutdownExpires(Do(s, BeginShutdown));
    hide *;
    ExpiredIsOver(s);
  }

  lemma ExpiredIsOver(s: State)
    requires s.deadline.waiters.Keys == s.services.Keys
    ensures AllOver(s, s.(stop := true, shutdown := BudgetSpent, deadline := DropAll(s.deadline),
                          services := map i | i in s.services :: Abort(s.services[i])))
  {
  }

  lemma ShutdownBegins(s: State)
    requires s.shutdown == NotBegun
    ensures Do(s, BeginShutdown) == s.(stop := true, shutdown := Joining)
  {
  }

  lemma ShutdownExpires(s: State)
    requires s.shutdown == Joining
    ensures Do(s, BudgetExpires)
         == s.(shutdown := BudgetSpent, deadline := DropAll(s.deadline),
               services := map i | i in s.services :: Abort(s.services[i]))
  {
  }

  /** What a service does next once stop is written. */
  function StopMove(p: Position): Move
    requires !Over(p)
  {
    match p
    case AtTop => ReadsStopAtTop
    case Selecting => SeesStop
    case Chosen(_) => ReadsStopAgain
    case Cleared(_) => Starts
    case Passing(_) => Finishes
  }

  function StopDistance(p: Position): nat {
    match p
    case AtTop => 1
    case Selecting => 1
    case Chosen(_) => 1
    case Cleared(_) => 3
    case Passing(_) => 2
    case _ => 0
  }

  /** Each own move of a stopped service can happen, and is nearer its end. */
  lemma StoppedServiceIsNearer(s: State, i: ServiceId)
    requires s.stop && i in s.services && !Over(s.services[i].position)
    ensures Enabled(s, Runs(i, StopMove(s.services[i].position)))
    ensures var t := Apply(s, Runs(i, StopMove(s.services[i].position)));
            && t.stop
            && StopDistance(t.services[i].position) < StopDistance(s.services[i].position) <= 3
            && (StopDistance(t.services[i].position) == 0 ==> t.services[i].position.Ended?)
            && (t.services[i].started > s.services[i].started ==> s.services[i].position.Cleared?)
  {
  }

  ghost predicate LeadsToItsEnd(s: State, i: ServiceId, steps: seq<Step>) {
    var t := After(s, steps);
    && AllOwn(s, i, steps)
    && i in s.services && i in t.services
    && (if Over(s.services[i].position) then t.services[i] == s.services[i] else t.services[i].position.Ended?)
    && t.services[i].started == s.services[i].started + (if s.services[i].position.Cleared? then 1 else 0)
  }

  /**
   A stopped service ends by its own moves alone, in at most three, and starts a
   pass on the way exactly if it had already read the flag as clear.
   */
  lemma {:induction false} StoppedServiceEnds(s: State, i: ServiceId)
    requires s.stop && i in s.services
    ensures exists steps :: |steps| <= StopDistance(s.services[i].position) <= 3 && LeadsToItsEnd(s, i, steps)
    decreases StopDistance(s.services[i].position)
  {
    if Over(s.services[i].position) {
      assert After(s, []) == s;
      assert LeadsToItsEnd(s, i, []);
    } else {
      var step := Runs(i, StopMove(s.services[i].position));
      StoppedServiceIsNearer(s, i);
      var t := Apply(s, step);
      StoppedServiceEnds(t, i);
      var rest :| |rest| <= StopDistance(t.services[i].position) && LeadsToItsEnd(t, i, rest);
      OneStep(s, i, step, rest);
      assert LeadsToItsEnd(s, i, [step] + rest);
    }
  }

  /** Writing stop ends every service that is running, each by at most three moves of its own. */
  lemma StopEndsAService(s: State, i: ServiceId)
    requires i in s.services && !Over(s.services[i].position)
    ensures var t := Do(s, WriteStop);
            && t.stop && t.services == s.services
            && exists steps :: |steps| <= 3 && LeadsToItsEnd(t, i, steps) && After(t, steps).services[i].position.Ended?
  {
    var t := Do(s, WriteStop);
    StoppedServiceEnds(t, i);
    var steps :| |steps| <= StopDistance(t.services[i].position) && LeadsToItsEnd(t, i, steps);
    assert |steps| <= 3;
  }

  // ----------------------------------------------------------------- coalescing

  /** `asks` calls of `notify_one` in a row. */
  function Asks(i: ServiceId, asks: nat): seq<Step> {
    if asks == 0 then [] else [Runs(i, Notified)] + Asks(i, asks - 1)
  }

  lemma {:induction false} AsksOnlySetThePermit(s: State, i: ServiceId, asks: nat)
    requires i in s.services
    ensures var t := After(s, Asks(i, asks));
            && t.stop == s.stop && t.deadline == s.deadline && i in t.services
            && t.services[i] == s.services[i].(permit := s.services[i].permit || asks > 0,
                                               notifies := s.services[i].notifies + asks)
    decreases asks
  {
    if asks > 0 {
      assert Asks(i, asks)[1..] == Asks(i, asks - 1);
      AsksOnlySetThePermit(Do(s, Runs(i, Notified)), i, asks - 1);
    }
  }

  predicate StopsNothing(step: Step) {
    !step.WriteStop? && !step.BeginShutdown? && !step.BudgetExpires?
  }

  /**
   Any schedule without stop in which this service is asked for a pass only while its
   pass of the moment runs, the one with this many finished before it. Everything
   else may happen: its ticks, the deadline, the clock and every other service.
   */
  predicate AskedOnlyDuring(s: State, i: ServiceId, steps: seq<Step>, finished: nat)
    decreases |steps|
  {
    steps == []
    || (&& StopsNothing(steps[0])
        && (steps[0] == Runs(i, Notified) ==> i in s.services && s.services[i].finished == finished)
        && AskedOnlyDuring(Do(s, steps[0]), i, steps[1..], finished))
  }

  predicate WakeupTaken(p: Position) {
    p == Chosen(Wakeup) || p == Cleared(Wakeup)
  }

  /** How requests made during one pass stand: not served, about to be, or served once. */
  ghost predicate AtMostOneMore(service: Service, was: Service) {
    var asked := service.notifies > was.notifies;
    && service.notifies >= was.notifies && service.finished >= was.finished
    && service.awaitsDeadline == was.awaitsDeadline
    && (service.finished == was.finished ==>
          service.position.Passing? && service.started == was.started
          && service.permit == asked && service.served == was.served)
    && (service.finished > was.finished ==>
          if service.permit || WakeupTaken(service.position)
          then asked && !(service.permit && WakeupTaken(service.position))
               && service.served.wakeups == was.served.wakeups
          else service.served.wakeups == was.served.wakeups + (if asked then 1 else 0))
  }

  ghost predicate Counts(service: Service) {
    service.started == service.served.wakeups + service.served.deadlines + service.served.ticks
  }

  lemma MoveKeepsOneMore(service: Service, move: Move, was: Service)
    requires CanMove(service, move, false) && Counts(service) && AtMostOneMore(service, was)
    requires move == Notified ==> service.finished == was.finished
    ensures var next := Moved(service, move, false); Counts(next) && AtMostOneMore(next, was)
  {
  }

  /** A step that is neither this service's nor stops anything leaves it as it is. */
  lemma OthersLeaveService(s: State, i: ServiceId, step: Step)
    requires i in s.services && !s.stop && StopsNothing(step)
    ensures var t := Do(s, step);
            && i in t.services && !t.stop
            && t.services[i] == if step.Runs? && step.service == i && Enabled(s, step)
                                then Moved(s.services[i], step.move, false) else s.services[i]
  {
  }

  lemma AnyStepKeepsOneMore(s: State, i: ServiceId, step: Step, was: Service)
    requires i in s.services && !s.stop && Counts(s.services[i]) && AtMostOneMore(s.services[i], was)
    requires StopsNothing(step) && (step == Runs(i, Notified) ==> s.services[i].finished == was.finished)
    ensures var t := Do(s, step);
            i in t.services && !t.stop && Counts(t.services[i]) && AtMostOneMore(t.services[i], was)
  {
    OthersLeaveService(s, i, step);
    if step.Runs? && step.service == i && Enabled(s, step) {
      MoveKeepsOneMore(s.services[i], step.move, was);
    }
    hide AtMostOneMore, Counts, Do, Moved;
  }

  lemma {:induction false} AnyRunKeepsOneMore(s: State, i: ServiceId, steps: seq<Step>, was: Service)
    requires i in s.services && !s.stop && Counts(s.services[i]) && AtMostOneMore(s.services[i], was)
    requires AskedOnlyDuring(s, i, steps, was.finished)
    ensures var t := After(s, steps);
            i in t.services && !t.stop && Counts(t.services[i]) && AtMostOneMore(t.services[i], was)
    decreases |steps|
  {
    if steps != [] {
      hide AtMostOneMore, Do, Counts;
      AnyStepKeepsOneMore(s, i, steps[0], was);
      AnyRunKeepsOneMore(Do(s, steps[0]), i, steps[1..], was);
    }
  }

  /** Without a deadline to await or a tick, every pass is one a request caused. */
  ghost predicate OnlyRequests(service: Service, was: Service) {
    && !service.awaitsDeadline && !service.ticked
    && service.served.deadlines == was.served.deadlines && service.served.ticks == was.served.ticks
    && (service.position.Chosen? || service.position.Cleared? ==> service.position.cause == Wakeup)
  }

  lemma {:induction false} OnlyRequestsRun(s: State, i: ServiceId, steps: seq<Step>, was: Service)
    requires i in s.services && OnlyRequests(s.services[i], was)
    requires forall k :: 0 <= k < |steps| ==> steps[k] != Runs(i, Ticks) && StopsNothing(steps[k])
    ensures var t := After(s, steps); i in t.services && OnlyRequests(t.services[i], was)
    decreases |steps|
  {
    if steps != [] {
      OnlyRequestsStep(s, i, steps[0], was);
      hide OnlyRequests, Do;
      OnlyRequestsRun(Do(s, steps[0]), i, steps[1..], was);
    }
  }

  lemma OnlyRequestsStep(s: State, i: ServiceId, step: Step, was: Service)
    requires i in s.services && OnlyRequests(s.services[i], was)
    requires step != Runs(i, Ticks) && StopsNothing(step)
    ensures var t := Do(s, step); i in t.services && OnlyRequests(t.services[i], was)
  {
  }

  /**
   Any number of requests made at any points of a pass cause exactly one more. Over
   any schedule without stop, with whatever ticks, deadlines, clock and other services
   do, they have caused at most one pass, and exactly one once none is held over; and
   a service with neither tick nor deadline has then run exactly that one pass more.
   */
  lemma RequestsDuringAPassCauseOneMore(s: State, i: ServiceId, steps: seq<Step>)
    requires i in s.services && !s.stop && s.services[i].position.Passing? && !s.services[i].permit
    requires Counts(s.services[i]) && AskedOnlyDuring(s, i, steps, s.services[i].finished)
    ensures var t := After(s, steps);
            && i in t.services
            && var was, service := s.services[i], t.services[i];
               && was.served.wakeups <= service.served.wakeups <= was.served.wakeups + 1
               && (service.finished > was.finished && !service.permit && !WakeupTaken(service.position) ==>
                     service.served.wakeups == was.served.wakeups
                                               + (if service.notifies > was.notifies then 1 else 0))
               && (!was.awaitsDeadline && !was.ticked
                   && (forall k :: 0 <= k < |steps| ==> steps[k] != Runs(i, Ticks)) ==>
                     service.started - was.started == service.served.wakeups - was.served.wakeups)
  {
    AnyRunKeepsOneMore(s, i, steps, s.services[i]);
    if !s.services[i].awaitsDeadline && !s.services[i].ticked
       && (forall k :: 0 <= k < |steps| ==> steps[k] != Runs(i, Ticks)) {
      NothingStops(s, i, steps, s.services[i].finished);
      OnlyRequestsRun(s, i, steps, s.services[i]);
    }
    hide After, AskedOnlyDuring;
  }

  lemma {:induction false} NothingStops(s: State, i: ServiceId, steps: seq<Step>, finished: nat)
    requires AskedOnlyDuring(s, i, steps, finished)
    ensures forall k :: 0 <= k < |steps| ==> StopsNothing(steps[k])
    decreases |steps|
  {
    if steps != [] {
      NothingStops(Do(s, steps[0]), i, steps[1..], finished);
      assert steps == [steps[0]] + steps[1..];
    }
  }
}
