/**
 The doorbell between a Keeper and its member Hives.

 The Keeper stores a change and then rings a bounded broadcast bus. One handler
 per connection reads the bus and forwards rings for its own Apiary. A member
 reconciles when it connects and again for every frame it hears; it never acts
 on what a frame says. `World` holds the durable changes, the bus, every handler
 and every member, and `Do` performs one step of any of them, so a sequence of
 steps is one interleaving.

 A reconcile is abstract: one that succeeds applies at least every change of its
 Apiary that was stored when it began; one that fails may apply any of them.
 */
module FederationEvents {
  import opened Options

  const NOTICE_BUFFER: nat := 64
  const RECONNECT_FLOOR: nat := 2
  const RECONNECT_CEILING: nat := 120

  type ApiaryId = nat
  type MemberId = nat
  type ConnectionId = nat
  type ChangeId = nat

  datatype Kind = Tasks | Catalog | Policy | Directory | Watch | Unspecified

  /** A ring names a feed and an Apiary and carries nothing else. */
  datatype Notice = Notice(kind: Kind, apiary: ApiaryId)

  // ---------------------------------------------------------------- the bus

  /** What one `recv` on the bus gives a subscriber. */
  datatype Received = Ring(notice: Notice) | Lagged(missed: nat) | Empty

  /** The oldest position the bus still holds when `length` rings were sent. */
  function Oldest(length: nat): nat {
    if length > NOTICE_BUFFER then length - NOTICE_BUFFER else 0
  }

  /**
   A subscriber at `next` reads a log of which only the last NOTICE_BUFFER rings
   survive. One that fell further behind is told how many it missed and resumes
   at the oldest ring still held.
   */
  function Receive(log: seq<Notice>, next: nat): (r: (Received, nat))
    requires next <= |log|
    ensures next <= r.1 <= |log|
    ensures r.0.Empty? <==> next == |log|
    ensures next < |log| ==> next < r.1
    ensures r.0.Lagged? <==> |log| - next > 64
    ensures r.0.Lagged? ==> next + r.0.missed == r.1 && |log| - r.1 == 64
    ensures r.0.Ring? ==> r.1 == next + 1 && r.0.notice == log[next]
  {
    if next == |log| then (Empty, next)
    else if next < Oldest(|log|) then (Lagged(Oldest(|log|) - next), Oldest(|log|))
    else (Ring(log[next]), next + 1)
  }

  /** What a handler does with one thing heard on the bus: a ring to forward, or nothing. */
  function Heard(received: Received, apiary: ApiaryId): (r: Option<Notice>)
    ensures r.Some? ==> r.value.apiary == apiary
    ensures r.Some? ==> r.value.kind == if received.Ring? then received.notice.kind else Unspecified
    ensures r.Some? <==> received.Lagged? || (received.Ring? && received.notice.apiary == apiary)
  {
    match received
    case Empty => None
    case Lagged(_) => Some(Notice(Unspecified, apiary))
    case Ring(notice) => if notice.apiary != apiary then None else Some(notice)
  }

  /**
   The Keeper's fan-out. The whole log is kept so that a subscriber's cursor has a
   meaning; only the last NOTICE_BUFFER rings of it can be received.
   */
  class FederationEventBus {
    var log: seq<Notice>
    var cursors: map<ConnectionId, nat>

    ghost predicate Valid()
      reads this
    {
      forall k :: k in cursors ==> cursors[k] <= |log|
    }

    constructor ()
      ensures Valid() && log == [] && cursors == map[]
    {
      log, cursors := [], map[];
    }

    /** With nobody listening the ring is dropped, which is not an error. */
    method Announce(notice: Notice)
      requires Valid()
      modifies this`log
      ensures Valid()
      ensures log == Rung(old(log), cursors.Keys != {}, notice)
    {
      if cursors.Keys != {} {
        log := log + [notice];
      }
    }

    /** A new subscriber hears every ring sent after this call and none before it. */
    method Subscribe(connection: ConnectionId)
      requires Valid() && connection !in cursors
      modifies this`cursors
      ensures Valid() && cursors == old(cursors)[connection := |log|]
    {
      cursors := cursors[connection := |log|];
    }

    method Recv(connection: ConnectionId) returns (received: Received)
      requires Valid() && connection in cursors
      modifies this`cursors
      ensures Valid()
      ensures received == Receive(log, old(cursors)[connection]).0
      ensures cursors == old(cursors)[connection := Receive(log, old(cursors)[connection]).1]
    {
      var (heard, next) := Receive(log, cursors[connection]);
      cursors := cursors[connection := next];
      received := heard;
    }
  }

  function Rung(log: seq<Notice>, listening: bool, notice: Notice): seq<Notice> {
    if listening then log + [notice] else log
  }

  // ------------------------------------------------------ one handler's loop

  /** What `select!` yields a handler, with how a send made in answer would end. */
  datatype Selected =
    | SocketGone
    | SocketNoise
    | FromBus(received: Received, sent: bool)
    | BusClosed

  /** The rings a handler forwards out of a script of selections. */
  function Forwarded(script: seq<Selected>, apiary: ApiaryId): seq<Notice> {
    if script == [] || script[0].SocketGone? || script[0].BusClosed? then []
    else if script[0].SocketNoise? || Heard(script[0].received, apiary).None? then
      Forwarded(script[1..], apiary)
    else if !script[0].sent then []
    else [Heard(script[0].received, apiary).value] + Forwarded(script[1..], apiary)
  }

  /** Forwards rings for one Apiary until the socket closes or the script ends. */
  method ServeNotices(script: seq<Selected>, apiary: ApiaryId) returns (frames: seq<Notice>)
    ensures frames == Forwarded(script, apiary)
  {
    frames := [];
    var i := 0;
    while i < |script|
      invariant 0 <= i <= |script|
      invariant frames + Forwarded(script[i..], apiary) == Forwarded(script, apiary)
    {
      assert script[i..][1..] == script[i + 1..];
      match script[i] {
        case SocketGone => return;
        case BusClosed => return;
        case SocketNoise =>
        case FromBus(received, sent) =>
          var notice := Heard(received, apiary);
          if notice.Some? {
            if !sent { return; }
            frames := frames + [notice.value];
          }
      }
      i := i + 1;
    }
  }

  /**
   A handler forwards no other Apiary's ring, and as long as its socket lives it
   forwards exactly one frame for each ring of its own and one for each lag.
   */
  lemma {:induction false} ForwardedIsForThisApiary(script: seq<Selected>, apiary: ApiaryId)
    ensures forall i :: 0 <= i < |Forwarded(script, apiary)| ==> Forwarded(script, apiary)[i].apiary == apiary
    ensures Healthy(script) ==> |Forwarded(script, apiary)| == Owing(script, apiary)
  {
    if script != [] {
      ForwardedIsForThisApiary(script[1..], apiary);
    }
  }

  ghost predicate Healthy(script: seq<Selected>) {
    forall s :: s in script ==> s.SocketNoise? || (s.FromBus? && s.sent)
  }

  /** How many selections of a script oblige the handler to ring its member. */
  ghost function Owing(script: seq<Selected>, apiary: ApiaryId): nat {
    if script == [] then 0
    else
      (if script[0].FromBus?
          && (script[0].received.Lagged?
              || (script[0].received.Ring? && script[0].received.notice.apiary == apiary))
       then 1 else 0) + Owing(script[1..], apiary)
  }

  // ------------------------------------------------------------ the protocol

  /**
   A handler and its socket: the subscriber's cursor, a ring read but not yet
   sent, the frames on the wire, and whether the handler still runs.
   */
  datatype Connection = Connection(
    apiary: ApiaryId, next: nat, holding: Option<Notice>, wire: seq<Notice>, serving: bool)

  /** Where a member's pass stands. A reconcile remembers what was stored when it began. */
  datatype Phase =
    | Dialled
    | Connected
    | Reconciling(due: set<ChangeId>)
    | Listening(reconciled: bool)

  datatype Link = NoLink | Link(connection: ConnectionId, phase: Phase)

  datatype Member = Member(apiary: ApiaryId, applied: set<ChangeId>, link: Link)

  datatype World = World(
    stored: map<ChangeId, ApiaryId>,
    announced: set<ChangeId>,
    log: seq<Notice>,
    connections: map<ConnectionId, Connection>,
    members: map<MemberId, Member>,
    sent: seq<(ConnectionId, Notice)>)

  datatype Step =
    | Store(change: ChangeId, apiary: ApiaryId)
    | Announce(change: ChangeId, kind: Kind)
    | Subscribe(member: MemberId, connection: ConnectionId)
    | Upgraded(member: MemberId)
    | Reconcile(member: MemberId)
    | HearFrame(member: MemberId)
    | FinishReconcile(member: MemberId, succeeded: bool, fetched: set<ChangeId>)
    | PacedReconcile(member: MemberId, fetched: set<ChangeId>)
    | ReadBus(connection: ConnectionId)
    | SendFrame(connection: ConnectionId, delivered: bool)
    | EndHandler(connection: ConnectionId)
    | DropConnection(member: MemberId)

  function Start(apiaries: map<MemberId, ApiaryId>): World {
    World(map[], {}, [], map[], map m | m in apiaries :: Member(apiaries[m], {}, NoLink), [])
  }

  /** The changes of one Apiary among `changes`. */
  function Of(w: World, changes: set<ChangeId>, apiary: ApiaryId): set<ChangeId> {
    set c | c in changes && c in w.stored && w.stored[c] == apiary
  }

  ghost predicate HasLink(w: World, m: MemberId) {
    m in w.members && w.members[m].link.Link? && w.members[m].link.connection in w.connections
  }

  function SomeoneServes(w: World): bool {
    exists k :: k in w.connections && w.connections[k].serving
  }

  ghost predicate Enabled(w: World, step: Step) {
    match step
    case Store(c, _) => c !in w.stored
    case Announce(c, _) => c in w.stored && c !in w.announced
    case Subscribe(m, k) => m in w.members && w.members[m].link.NoLink? && k !in w.connections
    case Upgraded(m) => HasLink(w, m) && w.members[m].link.phase.Dialled?
    case Reconcile(m) => HasLink(w, m) && w.members[m].link.phase.Connected?
    case HearFrame(m) =>
      HasLink(w, m) && w.members[m].link.phase.Listening?
      && w.connections[w.members[m].link.connection].wire != []
    case FinishReconcile(m, succeeded, fetched) =>
      HasLink(w, m) && w.members[m].link.phase.Reconciling?
      && fetched <= Of(w, w.stored.Keys, w.members[m].apiary)
      && (succeeded ==> w.members[m].link.phase.due <= fetched)
    case PacedReconcile(m, fetched) =>
      m in w.members && fetched <= Of(w, w.stored.Keys, w.members[m].apiary)
    case ReadBus(k) =>
      k in w.connections && w.connections[k].serving && w.connections[k].holding.None?
      && w.connections[k].next < |w.log|
    case SendFrame(k, _) =>
      k in w.connections && w.connections[k].serving && w.connections[k].holding.Some?
    case EndHandler(k) => k in w.connections
    case DropConnection(m) => HasLink(w, m)
  }

  function WithPhase(w: World, m: MemberId, phase: Phase): World
    requires m in w.members && w.members[m].link.Link?
  {
    w.(members := w.members[m := w.members[m].(link := w.members[m].link.(phase := phase))])
  }

  /** What the member owes itself when a reconcile begins: everything stored for its Apiary. */
  function BeginReconcile(w: World, m: MemberId): World
    requires m in w.members && w.members[m].link.Link?
  {
    WithPhase(w, m, Reconciling(Of(w, w.stored.Keys, w.members[m].apiary)))
  }

  ghost function Apply(w: World, step: Step): World
    requires Enabled(w, step)
  {
    match step
    case Store(c, a) => w.(stored := w.stored[c := a])
    case Announce(c, kind) =>
      w.(announced := w.announced + {c},
         log := Rung(w.log, SomeoneServes(w), Notice(kind, w.stored[c])))
    case Subscribe(m, k) =>
      w.(connections := w.connections[k := Connection(w.members[m].apiary, |w.log|, None, [], true)],
         members := w.members[m := w.members[m].(link := Link(k, Dialled))])
    case Upgraded(m) => WithPhase(w, m, Connected)
    case Reconcile(m) => BeginReconcile(w, m)
    case HearFrame(m) =>
      var k := w.members[m].link.connection;
      var heard := w.(connections := w.connections[k := w.connections[k].(wire := w.connections[k].wire[1..])]);
      BeginReconcile(heard, m)
    case FinishReconcile(m, succeeded, fetched) =>
      var done := WithPhase(w, m, Listening(succeeded));
      done.(members := done.members[m := done.members[m].(applied := w.members[m].applied + fetched)])
    case PacedReconcile(m, fetched) =>
      w.(members := w.members[m := w.members[m].(applied := w.members[m].applied + fetched)])
    case ReadBus(k) =>
      var c := w.connections[k];
      var (received, next) := Receive(w.log, c.next);
      w.(connections := w.connections[k := c.(next := next, holding := Heard(received, c.apiary))])
    case SendFrame(k, delivered) =>
      var c := w.connections[k];
      if delivered then
        w.(connections := w.connections[k := c.(holding := None, wire := c.wire + [c.holding.value])],
           sent := w.sent + [(k, c.holding.value)])
      else
        w.(connections := w.connections[k := c.(serving := false)])
    case EndHandler(k) =>
      w.(connections := w.connections[k := w.connections[k].(serving := false)])
    case DropConnection(m) =>
      w.(members := w.members[m := w.members[m].(link := NoLink)])
  }

  /** One step of a schedule. A step that cannot happen now changes nothing. */
  ghost function Do(w: World, step: Step): World {
    if Enabled(w, step) then Apply(w, step) else w
  }

  ghost function After(w: World, steps: seq<Step>): World
    decreases |steps|
  {
    if steps == [] then w else After(Do(w, steps[0]), steps[1..])
  }

  // ----------------------------------------------------------- the invariant

  /** The changes announced for a member's Apiary that it has not applied. */
  ghost function Owed(w: World, m: MemberId): set<ChangeId>
    requires m in w.members
  {
    Of(w, w.announced, w.members[m].apiary) - w.members[m].applied
  }

  /** Something on its way through this connection will make the member reconcile again. */
  ghost predicate RingComing(log: seq<Notice>, c: Connection) {
    || c.wire != []
    || c.holding.Some?
    || |log| - c.next > NOTICE_BUFFER
    || exists i :: c.next <= i < |log| && log[i].apiary == c.apiary
  }

  ghost predicate ConnectionOk(w: World, k: ConnectionId)
    requires k in w.connections
  {
    var c := w.connections[k];
    && c.next <= |w.log|
    && (c.holding.Some? ==> c.holding.value.apiary == c.apiary)
    && (forall n :: n in c.wire ==> n.apiary == c.apiary)
  }

  ghost predicate MemberOk(w: World, m: MemberId)
    requires m in w.members
  {
    var member := w.members[m];
    && member.applied <= Of(w, w.stored.Keys, member.apiary)
    && (member.link.Link? && member.link.phase.Reconciling? ==>
          member.link.phase.due <= Of(w, w.stored.Keys, member.apiary))
    && (member.link.Link? ==>
          && member.link.connection in w.connections
          && w.connections[member.link.connection].apiary == member.apiary
          && (w.connections[member.link.connection].serving ==> Covered(w, m)))
  }

  /**
   The heart of it: while the handler serves, whatever the member still owes is
   covered by the reconcile in progress or by a ring on its way. Only a reconcile
   that failed breaks the cover.
   */
  ghost predicate Covered(w: World, m: MemberId)
    requires m in w.members && w.members[m].link.Link? && w.members[m].link.connection in w.connections
  {
    var ringing := RingComing(w.log, w.connections[w.members[m].link.connection]);
    match w.members[m].link.phase
    case Dialled => true
    case Connected => true
    case Reconciling(due) => ringing || Owed(w, m) <= due
    case Listening(reconciled) => reconciled ==> ringing || Owed(w, m) == {}
  }

  ghost predicate Inv(w: World) {
    && w.announced <= w.stored.Keys
    && (forall k :: k in w.connections ==> ConnectionOk(w, k))
    && (forall m :: m in w.members ==> MemberOk(w, m))
    && (forall i :: 0 <= i < |w.sent| ==>
          w.sent[i].0 in w.connections && w.sent[i].1.apiary == w.connections[w.sent[i].0].apiary)
    && (forall m, m' :: HasLink(w, m) && HasLink(w, m') && m != m' ==>
          w.members[m].link.connection != w.members[m'].link.connection)
  }

  lemma StartIsInv(apiaries: map<MemberId, ApiaryId>)
    ensures Inv(Start(apiaries))
  {
  }

  /** Reading the bus never loses the last reason to ring: a lag becomes a ring of its own. */
  lemma ReadKeepsRing(log: seq<Notice>, c: Connection)
    requires c.holding.None? && c.next < |log| && RingComing(log, c)
    ensures RingComing(log, c.(next := Receive(log, c.next).1, holding := Heard(Receive(log, c.next).0, c.apiary)))
  {
    if c.wire == [] && |log| - c.next <= NOTICE_BUFFER && log[c.next].apiary != c.apiary {
      var i :| c.next <= i < |log| && log[i].apiary == c.apiary;
      assert c.next + 1 <= i;
    }
  }

  /** A ring sent while a handler serves reaches it, or reaches it as a lag. */
  lemma AnnounceRings(log: seq<Notice>, c: Connection, n: Notice)
    requires c.next <= |log|
    requires RingComing(log, c) || n.apiary == c.apiary
    ensures RingComing(log + [n], c)
  {
    if n.apiary == c.apiary {
      assert (log + [n])[|log|] == n;
    } else if c.wire == [] && c.holding.None? && |log| - c.next <= NOTICE_BUFFER {
      var i :| c.next <= i < |log| && log[i].apiary == c.apiary;
      assert (log + [n])[i].apiary == c.apiary;
    }
  }

  lemma StepKeepsCover(w: World, step: Step, m: MemberId)
    requires Inv(w) && Enabled(w, step) && m in w.members
    ensures MemberOk(Apply(w, step), m)
  {
    var v := Apply(w, step);
    assert MemberOk(w, m);
    match step {
      case Announce(c, kind) =>
        if w.members[m].link.Link? && w.connections[w.members[m].link.connection].serving {
          var n := Notice(kind, w.stored[c]);
          var connection := w.connections[w.members[m].link.connection];
          assert ConnectionOk(w, w.members[m].link.connection);
          if RingComing(w.log, connection) || n.apiary == connection.apiary {
            AnnounceRings(w.log, connection, n);
          } else {
            assert Owed(v, m) == Owed(w, m);
          }
        }
      case ReadBus(k) =>
        if RingComing(w.log, w.connections[k]) {
          ReadKeepsRing(w.log, w.connections[k]);
        }
      case _ =>
    }
  }

  lemma StepKeepsConnections(w: World, step: Step)
    requires Inv(w) && Enabled(w, step)
    ensures var v := Apply(w, step);
            && v.announced <= v.stored.Keys
            && (forall k :: k in v.connections ==> ConnectionOk(v, k))
            && (forall i :: 0 <= i < |v.sent| ==>
                  v.sent[i].0 in v.connections && v.sent[i].1.apiary == v.connections[v.sent[i].0].apiary)
  {
    hide MemberOk;
  }

  lemma StepKeepsLinksApart(w: World, step: Step)
    requires Inv(w) && Enabled(w, step)
    ensures var v := Apply(w, step);
            forall m, m' :: HasLink(v, m) && HasLink(v, m') && m != m' ==>
              v.members[m].link.connection != v.members[m'].link.connection
  {
    hide ConnectionOk;
    forall m | m in w.members
      ensures w.members[m].link.Link? ==> HasLink(w, m)
    {
      assert MemberOk(w, m);
    }
  }

  /** Every step of every party keeps the invariant. */
  lemma StepKeepsInv(w: World, step: Step)
    requires Inv(w) && Enabled(w, step)
    ensures Inv(Apply(w, step))
  {
    hide ConnectionOk, MemberOk;
    StepKeepsConnections(w, step);
    StepKeepsLinksApart(w, step);
    var v := Apply(w, step);
    forall m | m in v.members
      ensures MemberOk(v, m)
    {
      StepKeepsCover(w, step, m);
    }
  }

  /** The invariant holds along every interleaving. */
  lemma {:induction false} ScheduleKeepsInv(w: World, steps: seq<Step>)
    requires Inv(w)
    ensures Inv(After(w, steps))
    decreases |steps|
  {
    if steps != [] {
      if Enabled(w, steps[0]) {
        StepKeepsInv(w, steps[0]);
      }
      ScheduleKeepsInv(Do(w, steps[0]), steps[1..]);
    }
  }

  // ------------------------------------------------------------ the promises

  /**
   The member's socket is open, nothing is on its way through it, and no
   reconcile is running.
   */
  ghost predicate Quiet(w: World, m: MemberId) {
    && HasLink(w, m)
    && w.members[m].link.phase.Listening?
    && var c := w.connections[w.members[m].link.connection];
       c.serving && c.next == |w.log| && c.holding.None? && c.wire == []
  }

  /**
   Losing a ring costs latency, not correctness. In every interleaving of stores,
   announcements, overwritten rings, lags, deliveries, dropped connections and
   redials, a quiet member whose last reconcile succeeded has applied every change
   announced for its Apiary.
   */
  lemma QuietMemberIsCurrent(apiaries: map<MemberId, ApiaryId>, steps: seq<Step>, m: MemberId)
    requires var w := After(Start(apiaries), steps);
             Quiet(w, m) && w.members[m].link.phase.reconciled
    ensures var w := After(Start(apiaries), steps);
            Of(w, w.announced, w.members[m].apiary) <= w.members[m].applied
  {
    StartIsInv(apiaries);
    ScheduleKeepsInv(Start(apiaries), steps);
    var w := After(Start(apiaries), steps);
    CoverMeansCurrent(w, m);
  }

  lemma CoverMeansCurrent(w: World, m: MemberId)
    requires Inv(w) && Quiet(w, m) && w.members[m].link.phase.reconciled
    ensures Of(w, w.announced, w.members[m].apiary) <= w.members[m].applied
  {
    assert MemberOk(w, m);
    forall c | c in Of(w, w.announced, w.members[m].apiary)
      ensures c in w.members[m].applied
    {
      assert c !in Owed(w, m);
    }
  }

  /** In every interleaving, no frame names an Apiary other than its socket's own. */
  lemma NoForeignFrame(apiaries: map<MemberId, ApiaryId>, steps: seq<Step>, i: nat)
    requires i < |After(Start(apiaries), steps).sent|
    ensures var w := After(Start(apiaries), steps);
            w.sent[i].0 in w.connections && w.sent[i].1.apiary == w.connections[w.sent[i].0].apiary
  {
    StartIsInv(apiaries);
    ScheduleKeepsInv(Start(apiaries), steps);
  }

  /**
   The promise rests on the reconcile succeeding: a member whose only reconcile on
   a live socket failed is quiet, behind, and has no ring coming to it.
   */
  lemma FailedReconcileLeavesAGap()
    ensures var w := After(Start(map[1 := 0]),
                           [Store(3, 0), Announce(3, Tasks), Subscribe(1, 7), Upgraded(1),
                            Reconcile(1), FinishReconcile(1, false, {})]);
            Quiet(w, 1) && 3 in Of(w, w.announced, 0) && 3 !in w.members[1].applied
  {
    hide After;
    var w0 := Start(map[1 := 0]);
    var w1 := Do(Do(w0, Store(3, 0)), Announce(3, Tasks));
    var w2 := Do(Do(w1, Subscribe(1, 7)), Upgraded(1));
    var w3 := Do(Do(w2, Reconcile(1)), FinishReconcile(1, false, {}));
    var last := [Reconcile(1), FinishReconcile(1, false, {})];
    var tail := [Subscribe(1, 7), Upgraded(1)] + last;
    Twice(w2, last[0], last[1], []);
    Twice(w1, tail[0], tail[1], last);
    Twice(w0, Store(3, 0), Announce(3, Tasks), tail);
    assert [Store(3, 0), Announce(3, Tasks)] + tail
      == [Store(3, 0), Announce(3, Tasks), Subscribe(1, 7), Upgraded(1), Reconcile(1), FinishReconcile(1, false, {})];
    assert [last[0], last[1]] + [] == last;
    Nothing(w3);
  }

  /** Nothing is on its way through the member's connection, whose handler still runs, as its reconcile ends. */
  ghost predicate LastReconcile(w: World, m: MemberId) {
    && HasLink(w, m)
    && w.members[m].link.phase.Reconciling?
    && var c := w.connections[w.members[m].link.connection];
       c.serving && c.next == |w.log| && c.holding.None? && c.wire == []
  }

  ghost predicate Current(w: World, m: MemberId)
    requires m in w.members
  {
    Of(w, w.announced, w.members[m].apiary) <= w.members[m].applied
  }

  // ------------------------------------------------------------ what a step is

  /** What a step may make of a member's link: nothing, its end, or the next stage of its pass. */
  ghost predicate Follows(before: Link, after: Link) {
    || after == before
    || after.NoLink?
    || (after.phase.Dialled? && before.NoLink?)
    || (before.Link? && before.connection == after.connection
        && match before.phase
           case Dialled => after.phase.Connected?
           case Connected => after.phase.Reconciling?
           case Reconciling(_) => after.phase.Listening?
           case Listening(_) => after.phase.Reconciling?)
  }

  /** A member goes through its pass in order, keeps its Apiary, and keeps what it has applied. */
  lemma PassesGoInOrder(w: World, step: Step, m: MemberId)
    requires Enabled(w, step) && m in w.members
    ensures var v := Apply(w, step);
            && m in v.members && Follows(w.members[m].link, v.members[m].link)
            && v.members[m].apiary == w.members[m].apiary
            && w.members[m].applied <= v.members[m].applied
  {
  }

  /**
   A handler stops serving when it ends or cannot send a frame, and at nothing else;
   from then on it reads nothing, sends nothing and never serves again.
   */
  lemma HandlersEndForGood(w: World, step: Step, k: ConnectionId)
    requires Enabled(w, step) && k in w.connections
    ensures var c, v := w.connections[k], Apply(w, step);
            && k in v.connections
            && (v.connections[k].serving <==> c.serving && step != EndHandler(k) && step != SendFrame(k, false))
            && (!c.serving ==> v.connections[k].next == c.next && v.connections[k].holding == c.holding)
            && (!c.serving ==> |v.connections[k].wire| <= |c.wire| && forall n :: (k, n) in v.sent ==> (k, n) in w.sent)
  {
  }

  /** Over any run: what a member has applied it keeps, and a handler that has ended sends nothing more. */
  lemma {:induction false} RunsKeep(w: World, steps: seq<Step>, m: MemberId, k: ConnectionId)
    requires m in w.members && k in w.connections
    ensures var v := After(w, steps);
            && m in v.members && k in v.connections
            && v.members[m].apiary == w.members[m].apiary && w.members[m].applied <= v.members[m].applied
            && (!w.connections[k].serving ==>
                  && !v.connections[k].serving && v.connections[k].next == w.connections[k].next
                  && v.connections[k].holding == w.connections[k].holding
                  && forall n :: (k, n) in v.sent ==> (k, n) in w.sent)
    decreases |steps|
  {
    if steps != [] {
      if Enabled(w, steps[0]) {
        PassesGoInOrder(w, steps[0], m);
        HandlersEndForGood(w, steps[0], k);
      }
      hide Enabled, Apply;
      RunsKeep(Do(w, steps[0]), steps[1..], m, k);
    }
  }

  /** A change is announced once; it rings every place on the bus if some handler serves, and otherwise none. */
  lemma AnnouncedToWhoeverListens(w: World, c: ChangeId, kind: Kind)
    requires Enabled(w, Announce(c, kind))
    ensures var v := Apply(w, Announce(c, kind));
            && v.announced == w.announced + {c} && !Enabled(v, Announce(c, kind))
            && ((exists k :: k in w.connections && w.connections[k].serving)
                ==> v.log == w.log + [Notice(kind, w.stored[c])])
            && ((forall k :: k in w.connections ==> !w.connections[k].serving) ==> v.log == w.log)
  {
  }

  /** The paced pass, which needs no connection, makes any member current when it fetches what is stored. */
  lemma PacedPassCatchesUp(w: World, m: MemberId)
    requires Inv(w) && m in w.members
    ensures var all := PacedReconcile(m, Of(w, w.stored.Keys, w.members[m].apiary));
            Enabled(w, all) && Current(Apply(w, all), m)
  {
  }

  lemma FinishIsCurrent(w: World, m: MemberId, succeeded: bool, fetched: set<ChangeId>)
    requires Inv(w) && LastReconcile(w, m) && Enabled(w, FinishReconcile(m, succeeded, fetched))
    requires succeeded || Owed(w, m) == {}
    ensures Current(Apply(w, FinishReconcile(m, succeeded, fetched)), m)
  {
    assert MemberOk(w, m);
    var v := Apply(w, FinishReconcile(m, succeeded, fetched));
    forall c | c in Of(v, v.announced, v.members[m].apiary)
      ensures c in v.members[m].applied
    {
      assert c in Of(w, w.announced, w.members[m].apiary);
      assert c in w.members[m].applied || c in Owed(w, m);
    }
  }

  /**
   In every reachable state, a member whose reconcile ends with no ring coming is sure
   to be current, whatever that reconcile fetched, exactly when it succeeded or there
   was nothing announced that the member had not applied before.
   */
  lemma ReconcileOutcomeDecides(apiaries: map<MemberId, ApiaryId>, steps: seq<Step>, m: MemberId, succeeded: bool)
    requires LastReconcile(After(Start(apiaries), steps), m)
    ensures var w := After(Start(apiaries), steps);
            (forall fetched :: Enabled(w, FinishReconcile(m, succeeded, fetched))
                               ==> Current(Apply(w, FinishReconcile(m, succeeded, fetched)), m))
            <==> succeeded || Owed(w, m) == {}
  {
    StartIsInv(apiaries);
    ScheduleKeepsInv(Start(apiaries), steps);
    var w := After(Start(apiaries), steps);
    hide After, Inv;
    forall fetched | (succeeded || Owed(w, m) == {}) && Enabled(w, FinishReconcile(m, succeeded, fetched))
      ensures Current(Apply(w, FinishReconcile(m, succeeded, fetched)), m)
    {
      FinishIsCurrent(w, m, succeeded, fetched);
    }
    if !succeeded && Owed(w, m) != {} {
      var c :| c in Owed(w, m);
      assert Enabled(w, FinishReconcile(m, false, {}));
      assert c in Of(w, w.announced, w.members[m].apiary) && c !in w.members[m].applied;
      assert !Current(Apply(w, FinishReconcile(m, false, {})), m);
    }
  }

  lemma Nothing(w: World)
    ensures After(w, []) == w
  {
  }

  lemma Twice(w: World, s: Step, t: Step, rest: seq<Step>)
    ensures After(w, [s, t] + rest) == After(Do(Do(w, s), t), rest)
  {
    assert ([s, t] + rest)[1..] == [t] + rest;
    assert ([t] + rest)[1..] == rest;
  }

  // ------------------------------------------------------------------ progress

  /** How many of its own steps a connection can still take before it is quiet. */
  ghost function Pending(w: World, m: MemberId): nat
    requires Inv(w) && HasLink(w, m)
  {
    var k := w.members[m].link.connection;
    assert ConnectionOk(w, k);
    var c := w.connections[k];
    4 * (|w.log| - c.next) + (if c.holding.Some? then 3 else 0) + 2 * |c.wire|
    + (if w.members[m].link.phase.Reconciling? then 1 else 0)
  }

  /** The member has passed its first reconcile and its handler still runs. */
  ghost predicate Attached(w: World, m: MemberId) {
    HasLink(w, m)
    && w.connections[w.members[m].link.connection].serving
    && (w.members[m].link.phase.Reconciling? || w.members[m].link.phase.Listening?)
  }

  /** The last reconcile did not fail, or another one is already owed. */
  ghost predicate Recovering(w: World, m: MemberId)
    requires Attached(w, m)
  {
    w.members[m].link.phase.Reconciling? || w.members[m].link.phase.reconciled
    || RingComing(w.log, w.connections[w.members[m].link.connection])
  }

  /** The next step of an attached member's own connection that is not yet quiet. */
  ghost function NextOwnStep(w: World, m: MemberId): Step
    requires Attached(w, m)
  {
    var link := w.members[m].link;
    var c := w.connections[link.connection];
    if link.phase.Reconciling? then FinishReconcile(m, true, Of(w, w.stored.Keys, w.members[m].apiary))
    else if c.wire != [] then HearFrame(m)
    else if c.holding.Some? then SendFrame(link.connection, true)
    else ReadBus(link.connection)
  }

  lemma OwnStepMakesProgress(w: World, m: MemberId)
    requires Inv(w) && Attached(w, m) && !Quiet(w, m) && Recovering(w, m)
    ensures Enabled(w, NextOwnStep(w, m))
    ensures var v := Apply(w, NextOwnStep(w, m));
            Inv(v) && Attached(v, m) && Recovering(v, m) && Pending(v, m) < Pending(w, m)
            && v.announced == w.announced && v.stored == w.stored
            && v.members[m].apiary == w.members[m].apiary
  {
    assert ConnectionOk(w, w.members[m].link.connection);
    assert MemberOk(w, m);
    StepKeepsInv(w, NextOwnStep(w, m));
    if NextOwnStep(w, m).ReadBus? && RingComing(w.log, w.connections[w.members[m].link.connection]) {
      ReadKeepsRing(w.log, w.connections[w.members[m].link.connection]);
    }
  }

  ghost predicate BringsUpToDate(w: World, m: MemberId, steps: seq<Step>) {
    var v := After(w, steps);
    m in w.members && Quiet(v, m) && v.announced == w.announced
    && Of(w, w.announced, w.members[m].apiary) <= v.members[m].applied
  }

  /**
   An attached member whose last reconcile did not fail, or that has a ring coming, is
   brought up to date with everything announced by at most `Pending` steps of its own
   connection, as long as its sends are delivered and its reconciles succeed.
   */
  lemma {:induction false} AttachedMemberCatchesUp(w: World, m: MemberId)
    requires Inv(w) && Attached(w, m) && Recovering(w, m)
    ensures exists steps :: |steps| <= Pending(w, m) && BringsUpToDate(w, m, steps)
    decreases Pending(w, m)
  {
    if Quiet(w, m) {
      CoverMeansCurrent(w, m);
      assert BringsUpToDate(w, m, []);
    } else {
      OwnStepMakesProgress(w, m);
      hide Apply, Enabled, Quiet, Covered, ConnectionOk, MemberOk, Of, After;
      var v := Apply(w, NextOwnStep(w, m));
      AttachedMemberCatchesUp(v, m);
      var rest :| |rest| <= Pending(v, m) && BringsUpToDate(v, m, rest);
      StepThenRest(w, m, NextOwnStep(w, m), rest);
      assert |[NextOwnStep(w, m)] + rest| <= Pending(w, m);
    }
  }

  lemma StepThenRest(w: World, m: MemberId, step: Step, rest: seq<Step>)
    requires Enabled(w, step) && m in w.members
    requires var v := Apply(w, step);
             && v.announced == w.announced && v.stored == w.stored
             && m in v.members && v.members[m].apiary == w.members[m].apiary
             && BringsUpToDate(v, m, rest)
    ensures BringsUpToDate(w, m, [step] + rest)
  {
    hide Apply, Enabled, Quiet;
    assert ([step] + rest)[1..] == rest;
  }

  lemma {:induction false} UnusedConnection(used: set<ConnectionId>) returns (k: ConnectionId)
    ensures forall j :: j in used ==> j < k
    decreases |used|
  {
    if used == {} {
      k := 0;
    } else {
      var j :| j in used;
      var past := UnusedConnection(used - {j});
      k := if past > j then past else j + 1;
      assert forall i :: i in used ==> i == j || i in used - {j};
    }
  }

  /** What a member does from wherever it stands: hang up if it must, dial again, and reconcile. */
  ghost function Redial(w: World, m: MemberId, k: ConnectionId): seq<Step> {
    (if HasLink(w, m) then [DropConnection(m)] else [])
    + [Subscribe(m, k), Upgraded(m)]
    + [Reconcile(m), FinishReconcile(m, true, Of(w, w.stored.Keys, if m in w.members then w.members[m].apiary else 0))]
  }

  /** From any reachable state at all, whatever failed before, redialling brings a member up to date. */
  lemma RedialCatchesUp(w: World, m: MemberId)
    requires Inv(w) && m in w.members
    ensures exists k :: k !in w.connections && BringsUpToDate(w, m, Redial(w, m, k))
  {
    var k := UnusedConnection(w.connections.Keys);
    assert k !in w.connections.Keys;
    var hungUp := HangUp(w, m);
    var w1 := Do(Do(hungUp, Subscribe(m, k)), Upgraded(m));
    var tail := [Reconcile(m), FinishReconcile(m, true, Of(w, w.stored.Keys, w.members[m].apiary))];
    Twice(w1, tail[0], tail[1], []);
    Twice(hungUp, Subscribe(m, k), Upgraded(m), tail);
    assert [tail[0], tail[1]] + [] == tail;
    var w2 := Do(Do(w1, tail[0]), tail[1]);
    Nothing(w2);
    assert After(hungUp, [Subscribe(m, k), Upgraded(m)] + tail) == w2;
    assert MemberOk(w, m);
    Redialled(w, m, k);
    assert [DropConnection(m)] + ([Subscribe(m, k), Upgraded(m)] + tail)
        == [DropConnection(m)] + [Subscribe(m, k), Upgraded(m)] + tail;
    assert ([DropConnection(m)] + ([Subscribe(m, k), Upgraded(m)] + tail))[1..]
           == [Subscribe(m, k), Upgraded(m)] + tail;
    assert [] + [Subscribe(m, k), Upgraded(m)] == [Subscribe(m, k), Upgraded(m)];
    assert After(w, Redial(w, m, k)) == w2;
  }

  ghost function HangUp(w: World, m: MemberId): World {
    if HasLink(w, m) then Do(w, DropConnection(m)) else w
  }

  lemma Redialled(w: World, m: MemberId, k: ConnectionId)
    requires Inv(w) && m in w.members && k !in w.connections
    ensures var all := Of(w, w.stored.Keys, w.members[m].apiary);
            var v := Do(Do(Do(Do(HangUp(w, m), Subscribe(m, k)), Upgraded(m)), Reconcile(m)),
                        FinishReconcile(m, true, all));
            && Quiet(v, m) && v.announced == w.announced
            && Of(w, w.announced, w.members[m].apiary) <= v.members[m].applied
  {
    assert MemberOk(w, m);
  }

  // ------------------------------------------------------------------- backoff

  /** How one bounded pass of the member's connection ended. */
  datatype PassEnd = WindowElapsed | ClosedCleanly | Dropped

  function WaitAfter(wait: nat, end: PassEnd): nat {
    if !end.Dropped? then RECONNECT_FLOOR
    else if wait * 2 < RECONNECT_CEILING then wait * 2
    else RECONNECT_CEILING
  }

  function SleepBefore(wait: nat): nat {
    if wait > RECONNECT_FLOOR then wait else 0
  }

  /** The wait in force after a run of passes that began at the floor. */
  ghost function WaitAfterAll(ends: seq<PassEnd>): nat {
    if ends == [] then RECONNECT_FLOOR
    else WaitAfter(WaitAfterAll(ends[..|ends| - 1]), ends[|ends| - 1])
  }

  /** The wait before the next dial, one wait shared by every handle to it. */
  class MemberEventBackoff {
    var wait: nat

    constructor ()
      ensures wait == RECONNECT_FLOOR
    {
      wait := RECONNECT_FLOOR;
    }

    /** Sleeps out the wait, holds one connection, and sets the next wait by how that ended. */
    method PollMemberEvents(end: PassEnd) returns (slept: nat)
      modifies this
      ensures slept == SleepBefore(old(wait))
      ensures wait == WaitAfter(old(wait), end)
    {
      var waited := wait;
      slept := 0;
      if waited > RECONNECT_FLOOR {
        slept := waited;
      }
      match end {
        case Dropped =>
          wait := if waited * 2 < RECONNECT_CEILING then waited * 2 else RECONNECT_CEILING;
        case _ =>
          wait := RECONNECT_FLOOR;
      }
    }
  }

  /** Passes that each hold only a clone of the handle still share one wait. */
  method PollEveryPass(backoff: MemberEventBackoff, ends: seq<PassEnd>)
    requires backoff.wait == RECONNECT_FLOOR
    modifies backoff
    ensures backoff.wait == WaitAfterAll(ends)
  {
    var i := 0;
    while i < |ends|
      invariant 0 <= i <= |ends|
      invariant backoff.wait == WaitAfterAll(ends[..i])
    {
      var clone := backoff;
      var _ := clone.PollMemberEvents(ends[i]);
      assert ends[..i + 1][..i] == ends[..i];
      i := i + 1;
    }
    assert ends[..|ends|] == ends;
  }

  /** How many of the latest passes were dropped in a row. */
  ghost function TrailingDrops(ends: seq<PassEnd>): nat {
    if ends == [] || !ends[|ends| - 1].Dropped? then 0 else 1 + TrailingDrops(ends[..|ends| - 1])
  }

  ghost function Pow2(n: nat): nat {
    if n == 0 then 1 else 2 * Pow2(n - 1)
  }

  /**
   Whatever came before, the wait depends only on the drops since the last pass
   that ended well: two seconds doubled once for each, never past two minutes. A pass
   sleeps the wait out exactly when the one before it was dropped.
   */
  lemma {:induction false} BackoffDoublesToTheCeiling(ends: seq<PassEnd>)
    ensures var doubled := 2 * Pow2(TrailingDrops(ends));
            WaitAfterAll(ends) == if doubled < 120 then doubled else 120
    ensures SleepBefore(WaitAfterAll(ends)) == if TrailingDrops(ends) == 0 then 0 else WaitAfterAll(ends)
    ensures 2 <= WaitAfterAll(ends) <= 120
  {
    if ends != [] {
      BackoffDoublesToTheCeiling(ends[..|ends| - 1]);
    }
  }
}
