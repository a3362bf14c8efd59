/**
 Terminal evidence beside what a coordinator observed before: read the profile,
 ask the host for a snapshot, read the profile again, and only then say anything
 about the worker. The world may change in any way between two of those reads.
 */
module AttentionEvidence {
  import opened Options
  import opened Utf8
  import Sorting

  const MAX_OBSERVED: nat := 32

  type TaskId = nat
  type WorkerId = nat
  type SessionId = nat
  type Provider = nat
  type Revision = string

  type U16 = x: int | 0 <= x < 0x1_0000
  type U64 = x: int | 0 <= x < 0x1_0000_0000_0000_0000

  datatype Activity = Active | Resting | AwaitingOperator | Unknown
  datatype Signals = Signals(activity: Activity, backgroundRunning: bool)

  datatype Snapshot = Snapshot(sequence: U64, rows: U16, columns: U16, truncated: bool, bytes: Bytes)

  datatype Kind = StaleOwnedWork | AssignedReadyNotStarted | OwnedNeverBriefed | OtherKind

  datatype Attention = Attention(
    actionId: string, kind: Kind, taskId: Option<TaskId>, workerId: WorkerId, sessionId: SessionId)

  datatype Profile = Profile(provider: Provider, activeSession: Option<SessionId>, engaged: bool)

  datatype Identity = Identity(
    taskId: TaskId, workerId: WorkerId, sessionId: SessionId, attentionId: string,
    evidenceRevision: string, terminalRevision: Option<Revision>)

  /** What the host says of a session; `signals` is what is derived from the snapshot. */
  datatype HostAnswer =
    | Output(sessionId: SessionId, snapshot: Option<Snapshot>, running: bool, signals: Signals)
    | Refused

  datatype IdentityAnswer = Found(identity: Identity) | Missing | Failed

  /** All the reads can see at one instant. A read that fails is a profile that is not there. */
  datatype World = World(
    profiles: map<WorkerId, Profile>, host: SessionId -> HostAnswer, identities: string -> IdentityAnswer)

  /** When each read happens, in order, in a timeline of worlds; the host may never answer. */
  datatype Reads = Reads(first: nat, answered: Option<nat>, second: nat, identity: nat)

  ghost predicate InOrder(timeline: seq<World>, at: Reads) {
    && at.first <= at.second <= at.identity < |timeline|
    && (at.answered.Some? ==> at.first <= at.answered.value <= at.second)
  }

  /** Code out of sight: whether a prompt holds input, and the digest of bytes. */
  datatype Unseen = Unseen(openInput: (Provider, Snapshot) -> bool, digest: Bytes -> Revision)

  // ---------------------------------------------------------- the revision

  function BigEndian(n: nat, width: nat): Bytes {
    if width == 0 then [] else BigEndian(n / 256, width - 1) + [n % 256]
  }

  function FromBigEndian(bytes: Bytes): nat {
    if bytes == [] then 0 else FromBigEndian(bytes[..|bytes| - 1]) * 256 + bytes[|bytes| - 1]
  }

  function Pow256(width: nat): nat {
    if width == 0 then 1 else 256 * Pow256(width - 1)
  }

  lemma {:induction false} BigEndianRoundTrip(n: nat, width: nat)
    requires n < Pow256(width)
    ensures |BigEndian(n, width)| == width
    ensures FromBigEndian(BigEndian(n, width)) == n
  {
    if width > 0 {
      BigEndianRoundTrip(n / 256, width - 1);
      assert BigEndian(n, width)[..width - 1] == BigEndian(n / 256, width - 1);
    }
  }

  function Preimage(s: Snapshot): Bytes {
    Ascii("swarm-recovery-terminal-v1")
    + BigEndian(s.sequence, 8) + BigEndian(s.rows, 2) + BigEndian(s.columns, 2)
    + [if s.truncated then 1 else 0]
    + s.bytes
  }

  function TerminalRevision(unseen: Unseen, s: Snapshot): Revision {
    unseen.digest(Preimage(s))
  }

  lemma PowersOfInterest()
    ensures Pow256(2) == 0x1_0000 && Pow256(8) == 0x1_0000_0000_0000_0000
  {
    assert Pow256(4) == 0x1_0000_0000;
    assert Pow256(6) == 0x1_0000_0000_0000;
  }

  /** The pieces of a preimage, found again at their fixed places. */
  lemma PreimageParts(s: Snapshot)
    ensures var p := Preimage(s);
            && |p| == 39 + |s.bytes|
            && p[26..34] == BigEndian(s.sequence, 8) && p[34..36] == BigEndian(s.rows, 2)
            && p[36..38] == BigEndian(s.columns, 2) && p[38] == (if s.truncated then 1 else 0) && p[39..] == s.bytes
  {
    PowersOfInterest();
    BigEndianRoundTrip(s.sequence, 8);
    BigEndianRoundTrip(s.rows, 2);
    BigEndianRoundTrip(s.columns, 2);
    hide BigEndian, FromBigEndian, Pow256;
    var tag := Ascii("swarm-recovery-terminal-v1");
    assert |tag| == 26;
    hide Ascii;
    Pieces(tag, BigEndian(s.sequence, 8), BigEndian(s.rows, 2), BigEndian(s.columns, 2),
           if s.truncated then 1 else 0, s.bytes);
  }

  lemma Pieces(tag: Bytes, a: Bytes, b: Bytes, c: Bytes, flag: Byte, rest: Bytes)
    requires |tag| == 26 && |a| == 8 && |b| == 2 && |c| == 2
    ensures var p := tag + a + b + c + [flag] + rest;
            && |p| == 39 + |rest|
            && p[26..34] == a && p[34..36] == b && p[36..38] == c && p[38] == flag && p[39..] == rest
  {
  }

  /** Snapshots whose preimages are equal are equal in every field. */
  lemma PreimageIsInjective(s: Snapshot, t: Snapshot)
    requires Preimage(s) == Preimage(t)
    ensures s == t
  {
    PreimageParts(s);
    PreimageParts(t);
    PowersOfInterest();
    BigEndianRoundTrip(s.sequence, 8);
    BigEndianRoundTrip(t.sequence, 8);
    BigEndianRoundTrip(s.rows, 2);
    BigEndianRoundTrip(t.rows, 2);
    BigEndianRoundTrip(s.columns, 2);
    BigEndianRoundTrip(t.columns, 2);
  }

  ghost predicate CollisionFree(unseen: Unseen) {
    forall a, b :: unseen.digest(a) == unseen.digest(b) ==> a == b
  }

  lemma RevisionNamesTheSnapshot(unseen: Unseen, s: Snapshot, t: Snapshot)
    requires CollisionFree(unseen)
    ensures TerminalRevision(unseen, s) == TerminalRevision(unseen, t) <==> s == t
  {
    if TerminalRevision(unseen, s) == TerminalRevision(unseen, t) {
      PreimageIsInjective(s, t);
    }
  }

  // -------------------------------------------------------- one observation

  /** What the host's answer says of the session that was asked for. */
  function SessionSnapshot(answer: HostAnswer, session: SessionId): Option<(Signals, Snapshot)> {
    if answer.Output? && answer.snapshot.Some? && answer.running && answer.sessionId == session
    then Some((answer.signals, answer.snapshot.value))
    else None
  }

  predicate HasActive(w: World, worker: WorkerId, session: SessionId) {
    worker in w.profiles && w.profiles[worker].activeSession == Some(session)
  }

  datatype ActivityText = IsActive | IsResting | IsAwaitingOperator | IsUnknown | IsUnavailable

  datatype IdentityStatus = Current(identity: Identity) | Changed | Unavailable

  /** An excerpt stands for the snapshot it is rendered from. */
  datatype Observation = Observation(
    activity: ActivityText, background: Option<bool>, unsentInput: Option<bool>,
    excerptOf: Option<Snapshot>, identity: IdentityStatus)

  function Evidence(signals: Option<Signals>): (ActivityText, Option<bool>) {
    match signals
    case None => (IsUnavailable, None)
    case Some(s) =>
      (match s.activity
       case Active => IsActive
       case Resting => IsResting
       case AwaitingOperator => IsAwaitingOperator
       case Unknown => IsUnknown,
       Some(s.backgroundRunning))
  }

  method Observe(unseen: Unseen, timeline: seq<World>, at: Reads, item: Attention) returns (seen: Observation)
    requires InOrder(timeline, at)
    ensures seen == Observed(unseen, timeline, at, item)
  {
    var signals: Option<(Signals, Snapshot)> := None;
    var before := timeline[at.first];
    if item.workerId in before.profiles && before.profiles[item.workerId].activeSession == Some(item.sessionId) {
      if at.answered.Some? {
        signals := SessionSnapshot(timeline[at.answered.value].host(item.sessionId), item.sessionId);
      }
    }
    var now := timeline[at.second];
    var current := if item.workerId in now.profiles then Some(now.profiles[item.workerId]) else None;
    if signals.Some? && (signals.value.1.truncated || current.None?
                         || current.value.activeSession != Some(item.sessionId)) {
      signals := None;
    }
    var evidence := Evidence(if signals.Some? then Some(signals.value.0) else None);
    var unsent, excerpt := None, None;
    if signals.Some? {
      var (s, snapshot) := signals.value;
      if s.activity.Resting? {
        unsent := Some(unseen.openInput(current.value.provider, snapshot));
      }
      if item.kind.StaleOwnedWork? && !current.value.engaged && s.activity.Resting? && !s.backgroundRunning
         && !unseen.openInput(current.value.provider, snapshot) {
        excerpt := Some(snapshot);
      }
    }
    var status := Changed;
    match timeline[at.identity].identities(item.actionId) {
      case Failed => status := Unavailable;
      case Missing =>
      case Found(identity) =>
        if Some(identity.taskId) == item.taskId && identity.workerId == item.workerId
           && identity.sessionId == item.sessionId {
          status := Current(if signals.Some?
                            then identity.(terminalRevision := Some(TerminalRevision(unseen, signals.value.1)))
                            else identity);
        }
    }
    seen := Observation(evidence.0, evidence.1, unsent, excerpt, status);
  }

  /** The snapshot that passes the fence, if there is one. */
  function Fenced(timeline: seq<World>, at: Reads, item: Attention): Option<(Signals, Snapshot)>
    requires at.first < |timeline| && at.second < |timeline|
    requires at.answered.Some? ==> at.answered.value < |timeline|
  {
    if at.answered.Some?
       && HasActive(timeline[at.first], item.workerId, item.sessionId)
       && HasActive(timeline[at.second], item.workerId, item.sessionId)
    then
      var read := SessionSnapshot(timeline[at.answered.value].host(item.sessionId), item.sessionId);
      if read.Some? && !read.value.1.truncated then read else None
    else None
  }

  predicate Matches(identity: Identity, item: Attention) {
    Some(identity.taskId) == item.taskId && identity.workerId == item.workerId && identity.sessionId == item.sessionId
  }

  function Status(unseen: Unseen, answer: IdentityAnswer, item: Attention, fenced: Option<(Signals, Snapshot)>):
    IdentityStatus
  {
    match answer
    case Failed => Unavailable
    case Missing => Changed
    case Found(identity) =>
      if !Matches(identity, item) then Changed
      else if fenced.Some?
      then Current(identity.(terminalRevision := Some(TerminalRevision(unseen, fenced.value.1))))
      else Current(identity)
  }

  function Observed(unseen: Unseen, timeline: seq<World>, at: Reads, item: Attention): Observation
    requires at.first < |timeline| && at.second < |timeline| && at.identity < |timeline|
    requires at.answered.Some? ==> at.answered.value < |timeline|
  {
    var fenced := Fenced(timeline, at, item);
    var evidence := Evidence(if fenced.Some? then Some(fenced.value.0) else None);
    var resting := fenced.Some? && fenced.value.0.activity.Resting?;
    var open := resting && unseen.openInput(timeline[at.second].profiles[item.workerId].provider, fenced.value.1);
    var quiet := resting && !fenced.value.0.backgroundRunning && !open
                 && !timeline[at.second].profiles[item.workerId].engaged;
    Observation(
      evidence.0, evidence.1,
      if resting then Some(open) else None,
      if item.kind.StaleOwnedWork? && quiet then Some(fenced.value.1) else None,
      Status(unseen, timeline[at.identity].identities(item.actionId), item, fenced))
  }

  // ------------------------------------------------------------- the facts

  datatype RecoveryActivity = Working | AtRest | Awaiting | NotKnown

  datatype Facts = Facts(
    identity: Identity, terminalIsCurrent: bool, activity: RecoveryActivity, unsentInput: Option<bool>)

  function RecoveryFact(o: Observation): Option<Facts> {
    if !o.identity.Current? then None
    else
      var activity :=
        match o.activity
        case IsActive => Working
        case IsResting => if o.background == Some(true) then Working else AtRest
        case IsAwaitingOperator => Awaiting
        case _ => NotKnown;
      var identity := o.identity.identity;
      Some(Facts(identity, identity.terminalRevision.Some?, activity, o.unsentInput))
  }

  function FactFrom(unseen: Unseen, timeline: seq<World>, at: Reads, item: Attention): Option<Facts>
    requires at.first < |timeline| && at.second < |timeline| && at.identity < |timeline|
    requires at.answered.Some? ==> at.answered.value < |timeline|
  {
    RecoveryFact(Observed(unseen, timeline, at, item))
  }

  /** The store never says what only a current terminal read may. */
  ghost predicate StoreLeavesTerminalOut(timeline: seq<World>) {
    forall w, a :: w in timeline && w.identities(a).Found? ==> w.identities(a).identity.terminalRevision.None?
  }

  /** The item's session is the one its worker has active in this state of the world. */
  ghost predicate IsActiveThere(w: World, item: Attention) {
    item.workerId in w.profiles && w.profiles[item.workerId].activeSession == Some(item.sessionId)
  }

  /** The session was the worker's active one before the host was asked and after it answered, in full. */
  ghost predicate ReadHeld(timeline: seq<World>, at: Reads, item: Attention, snapshot: Snapshot)
    requires InOrder(timeline, at)
  {
    && IsActiveThere(timeline[at.first], item)
    && IsActiveThere(timeline[at.second], item)
    && at.answered.Some?
    && (var answer := timeline[at.answered.value].host(item.sessionId);
        answer.Output? && answer.running && answer.sessionId == item.sessionId && answer.snapshot == Some(snapshot))
    && !snapshot.truncated
  }

  ghost predicate RestedWhenRead(timeline: seq<World>, at: Reads, item: Attention)
    requires InOrder(timeline, at)
  {
    exists snapshot :: ReadHeld(timeline, at, item, snapshot)
                    && timeline[at.answered.value].host(item.sessionId).signals == Signals(Resting, false)
  }

  /**
   Whatever happens to the world meanwhile, a fact is marked terminal-current
   exactly when the item's own identity was found and the read held, and then it
   names the item's task, worker and session and the revision of that snapshot.
   */
  lemma TerminalCurrentMeansRead(unseen: Unseen, timeline: seq<World>, at: Reads, item: Attention)
    requires InOrder(timeline, at) && StoreLeavesTerminalOut(timeline)
    ensures var fact := FactFrom(unseen, timeline, at, item);
            var answer := timeline[at.identity].identities(item.actionId);
            && (fact.Some? && fact.value.terminalIsCurrent
                <==> answer.Found? && Matches(answer.identity, item)
                     && exists snapshot :: ReadHeld(timeline, at, item, snapshot))
            && (forall snapshot :: fact.Some? && ReadHeld(timeline, at, item, snapshot)
                  ==> fact.value.terminalIsCurrent
                      && fact.value.identity.terminalRevision == Some(TerminalRevision(unseen, snapshot)))
            && (fact.Some? ==> Matches(fact.value.identity, item))
  {
    var fenced := Fenced(timeline, at, item);
    assert timeline[at.identity] in timeline;
    if fenced.Some? {
      assert ReadHeld(timeline, at, item, fenced.value.1);
    }
    hide TerminalRevision;
  }

  /**
   A worker is said to rest exactly when the read held and showed it resting with
   nothing in the background. When the read did not hold, nothing is said of it:
   no activity, no prompt, no excerpt, and no listing for recovery.
   */
  lemma OnlyAHeldReadSaysResting(unseen: Unseen, timeline: seq<World>, at: Reads, item: Attention)
    requires InOrder(timeline, at)
    ensures var o := Observed(unseen, timeline, at, item);
            var fact := RecoveryFact(o);
            && (o.activity.IsResting? && o.background == Some(false) <==> RestedWhenRead(timeline, at, item))
            && (fact.Some? ==> (fact.value.activity.AtRest? <==> RestedWhenRead(timeline, at, item)))
            && ((forall snapshot :: !ReadHeld(timeline, at, item, snapshot)) ==>
                  && o.activity.IsUnavailable? && o.background.None? && o.unsentInput.None? && o.excerptOf.None?
                  && (fact.Some? ==> fact.value.activity.NotKnown? && fact.value.unsentInput.None?))
  {
    var fenced := Fenced(timeline, at, item);
    if fenced.Some? {
      assert ReadHeld(timeline, at, item, fenced.value.1);
    }
    hide TerminalRevision;
  }

  /**
   What an observation says when the read held: the activity and the background as they
   were derived from that very snapshot; whether the prompt held input only of one at
   rest; and an excerpt of it only for stale owned work at rest, with nothing in the
   background or the prompt, that the operator is not engaged with.
   */
  lemma HeldReadIsReported(unseen: Unseen, timeline: seq<World>, at: Reads, item: Attention, snapshot: Snapshot)
    requires InOrder(timeline, at) && ReadHeld(timeline, at, item, snapshot)
    ensures var signals := timeline[at.answered.value].host(item.sessionId).signals;
            var profile := timeline[at.second].profiles[item.workerId];
            var o := Observed(unseen, timeline, at, item);
            && (o.activity.IsActive? <==> signals.activity == Active)
            && (o.activity.IsResting? <==> signals.activity == Resting)
            && (o.activity.IsAwaitingOperator? <==> signals.activity == AwaitingOperator)
            && (o.activity.IsUnknown? <==> signals.activity == Activity.Unknown)
            && o.background == Some(signals.backgroundRunning)
            && (o.unsentInput.Some? <==> signals.activity == Resting)
            && (o.unsentInput.Some? ==> o.unsentInput.value == unseen.openInput(profile.provider, snapshot))
            && (o.excerptOf.Some? <==>
                  item.kind == StaleOwnedWork && signals == Signals(Resting, false) && !profile.engaged
                  && !unseen.openInput(profile.provider, snapshot))
            && (o.excerptOf.Some? ==> o.excerptOf.value == snapshot)
  {
    assert Fenced(timeline, at, item) == Some((timeline[at.answered.value].host(item.sessionId).signals, snapshot));
    hide TerminalRevision;
  }

  /** What becomes of the identity, and of a worker's activity, in what is passed on. */
  lemma FactsAreWhatWasObserved(unseen: Unseen, timeline: seq<World>, at: Reads, item: Attention)
    requires InOrder(timeline, at)
    ensures var o := Observed(unseen, timeline, at, item);
            var answer := timeline[at.identity].identities(item.actionId);
            var fact := RecoveryFact(o);
            && (o.identity.Unavailable? <==> answer.Failed?)
            && (o.identity.Current? <==>
                  && answer.Found? && Some(answer.identity.taskId) == item.taskId
                  && answer.identity.workerId == item.workerId && answer.identity.sessionId == item.sessionId)
            && (fact.Some? <==> o.identity.Current?)
            && (fact.Some? ==>
                  && fact.value.identity.(terminalRevision := None) == answer.identity.(terminalRevision := None)
                  && fact.value.unsentInput == o.unsentInput
                  && (fact.value.activity.Working? <==>
                        o.activity.IsActive? || (o.activity.IsResting? && o.background == Some(true)))
                  && (fact.value.activity.Awaiting? <==> o.activity.IsAwaitingOperator?)
                  && (fact.value.activity.NotKnown? <==> o.activity.IsUnknown? || o.activity.IsUnavailable?))
  {
    hide TerminalRevision, Fenced;
  }

  /**
   What the assumption about the store is for: an identity that came with a
   revision is passed on as current though the host never answered.
   */
  lemma StoredRevisionWouldPassForCurrent(unseen: Unseen, identity: Identity, item: Attention)
    requires Matches(identity, item) && identity.terminalRevision.Some?
    ensures var world := World(map[], session => Refused, action => Found(identity));
            FactFrom(unseen, [world], Reads(0, None, 0, 0), item) == Some(Facts(identity, true, NotKnown, None))
  {
    hide TerminalRevision;
  }

  // ------------------------------------------------------- the bounded view

  predicate IsWorkerRecovery(item: Attention) {
    item.kind != OtherKind
  }

  /** The first items asked about, at most so many. */
  function FirstOf(items: seq<Attention>, wanted: Attention -> bool, limit: nat): (kept: seq<Attention>)
    ensures |kept| <= limit
    decreases |items|
  {
    if items == [] || limit == 0 then []
    else if wanted(items[0]) then [items[0]] + FirstOf(items[1..], wanted, limit - 1)
    else FirstOf(items[1..], wanted, limit)
  }

  function Candidates(attention: seq<Attention>): seq<Attention> {
    FirstOf(attention, IsWorkerRecovery, MAX_OBSERVED)
  }

  predicate ListedForRecovery(item: Attention, o: Option<Observation>) {
    IsWorkerRecovery(item) && o.Some? && o.value.activity.IsResting? && o.value.background == Some(false)
  }

  function Lookup(observations: map<string, Observation>, actionId: string): Option<Observation> {
    if actionId in observations then Some(observations[actionId]) else None
  }

  function Listing(observations: map<string, Observation>): Attention -> bool {
    (item: Attention) => ListedForRecovery(item, Lookup(observations, item.actionId))
  }

  function ActiveWorkRecovery(attention: seq<Attention>, observations: map<string, Observation>): seq<Attention> {
    FirstOf(attention, Listing(observations), MAX_OBSERVED)
  }

  /** Kept are the wanted ones, in order, and one is left out only past the limit. */
  lemma {:induction false} FirstOfKeeps(items: seq<Attention>, wanted: Attention -> bool, limit: nat, item: Attention)
    ensures item in FirstOf(items, wanted, limit) ==> item in items && wanted(item)
    ensures item in items && wanted(item) && |FirstOf(items, wanted, limit)| < limit
            ==> item in FirstOf(items, wanted, limit)
    decreases |items|
  {
    if items != [] && limit > 0 {
      FirstOfKeeps(items[1..], wanted, if wanted(items[0]) then limit - 1 else limit, item);
    }
  }

  /** They are the first of the wanted ones, in order. */
  lemma {:induction false} FirstOfAreTheFirst(items: seq<Attention>, wanted: Attention -> bool, limit: nat)
    ensures var all := Sorting.Filter(wanted, items);
            FirstOf(items, wanted, limit) == all[..if |all| < limit then |all| else limit]
    decreases |items|
  {
    if items != [] {
      FirstOfAreTheFirst(items[1..], wanted, if wanted(items[0]) && limit > 0 then limit - 1 else limit);
    }
  }

  /** Recovery looks at the first 32 that are stale, not started or never briefed. */
  lemma CandidatesAreTheFirst(attention: seq<Attention>)
    ensures var kinds := {StaleOwnedWork, AssignedReadyNotStarted, OwnedNeverBriefed};
            var all := Sorting.Filter((item: Attention) => item.kind in kinds, attention);
            Candidates(attention) == all[..if |all| < 32 then |all| else 32]
  {
    FirstOfAreTheFirst(attention, IsWorkerRecovery, MAX_OBSERVED);
    var kinds := {StaleOwnedWork, AssignedReadyNotStarted, OwnedNeverBriefed};
    SameFilter(IsWorkerRecovery, (item: Attention) => item.kind in kinds, attention);
  }

  lemma {:induction false} SameFilter(a: Attention -> bool, b: Attention -> bool, items: seq<Attention>)
    requires forall x :: a(x) == b(x)
    ensures Sorting.Filter(a, items) == Sorting.Filter(b, items)
  {
    if items != [] {
      SameFilter(a, b, items[1..]);
    }
  }

  /** Asking for less than was kept already never reaches the limit. */
  lemma {:induction false} NothingCutTwice(
    items: seq<Attention>, wanted: Attention -> bool, listed: Attention -> bool, limit: nat, room: nat, item: Attention)
    requires limit <= room && forall i, j :: 0 <= i < j < |items| ==> items[i] != items[j]
    requires forall x :: x in items && listed(x) ==> wanted(x) && x in FirstOf(items, wanted, limit)
    requires item in items && listed(item)
    ensures item in FirstOf(items, listed, room)
    decreases |items|
  {
    var rest := items[1..];
    var limit' := if wanted(items[0]) then limit - 1 else limit;
    var room' := if listed(items[0]) then room - 1 else room;
    if limit > 0 && item != items[0] {
      forall x | x in rest && listed(x)
        ensures x in FirstOf(rest, wanted, limit')
      {
        assert x != items[0];
      }
      NothingCutTwice(rest, wanted, listed, limit', room', item);
    }
  }

  /** Observations are of the candidates, each by its own reads, and of nothing else. */
  ghost predicate ObservationsOf(
    unseen: Unseen, timeline: seq<World>, times: Attention -> Reads,
    attention: seq<Attention>, observations: map<string, Observation>)
  {
    && (forall a :: InOrder(timeline, times(a)))
    && (forall i, j :: 0 <= i < j < |attention| ==> attention[i].actionId != attention[j].actionId)
    && (forall a :: a in attention ==> (a.actionId in observations <==> a in Candidates(attention)))
    && (forall a :: a in attention && a in Candidates(attention) ==>
          observations[a.actionId] == Observed(unseen, timeline, times(a), a))
  }

  /**
   Over a whole view: at most 32 tasks are listed for recovery, and they are exactly
   the candidates whose own read held and showed them at rest. Nothing unobserved
   is listed, and nothing observed at rest is cut by the bound.
   */
  lemma ListedWorkWasReadAtRest(
    unseen: Unseen, timeline: seq<World>, times: Attention -> Reads,
    attention: seq<Attention>, observations: map<string, Observation>, item: Attention)
    requires ObservationsOf(unseen, timeline, times, attention, observations)
    ensures |ActiveWorkRecovery(attention, observations)| <= 32
    ensures item in ActiveWorkRecovery(attention, observations) <==>
              item in Candidates(attention) && RestedWhenRead(timeline, times(item), item)
  {
    hide Observed, FirstOf, IsWorkerRecovery;
    var listed := Listing(observations);
    FirstOfKeeps(attention, listed, MAX_OBSERVED, item);
    FirstOfKeeps(attention, IsWorkerRecovery, MAX_OBSERVED, item);
    OnlyAHeldReadSaysResting(unseen, timeline, times(item), item);
    if item in Candidates(attention) && listed(item) {
      forall x | x in attention && listed(x)
        ensures IsWorkerRecovery(x) && x in FirstOf(attention, IsWorkerRecovery, MAX_OBSERVED)
      {
      }
      NothingCutTwice(attention, IsWorkerRecovery, listed, MAX_OBSERVED, MAX_OBSERVED, item);
    }
  }
}
