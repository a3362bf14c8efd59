/**
 One-time grants to attach to a worker's session: a pruned and bounded map which
 answers as the plain history of what was issued and consumed would.
 */
module AttachGrants {
  import opened Options

  /** In seconds, as every instant here. */
  const ATTACH_GRANT_TTL: nat := 30
  const MAX_ATTACH_GRANTS: nat := 128
  const TOKEN_TRIES: nat := 4

  type Token(==, !new) = string
  type SessionId = nat
  type Instant = nat

  datatype Protocol = Legacy | Controlled

  datatype Grant = Grant(session: SessionId, protocol: Protocol, expiresAt: Instant)

  datatype Refusal = CapacityReached(limit: nat) | RandomnessUnavailable

  type Grants = map<Token, Grant>

  function Retained(grants: Grants, now: Instant): Grants {
    map t | t in grants && grants[t].expiresAt > now :: grants[t]
  }

  /** Nothing ends the search before this draw: every draw until it was made, and is taken. */
  predicate AllTaken(grants: Grants, draws: seq<Option<Token>>, k: nat)
    requires k <= |draws|
  {
    forall j :: 0 <= j < k ==> draws[j].Some? && draws[j].value in grants
  }

  /** The first drawn token that is free; a draw that failed ends the search. */
  function FreeToken(grants: Grants, draws: seq<Option<Token>>): (token: Option<Token>)
    ensures token.Some? <==>
              exists k :: 0 <= k < |draws| && draws[k].Some? && draws[k].value !in grants && AllTaken(grants, draws, k)
    ensures token.Some? ==>
              exists k :: 0 <= k < |draws| && draws[k] == token && token.value !in grants && AllTaken(grants, draws, k)
  {
    if draws == [] || draws[0].None? then None
    else if draws[0].value in grants then FreeToken(grants, draws[1..])
    else draws[0]
  }

  function Outcome(grants: Grants, maxGrants: nat, draws: seq<Option<Token>>, now: Instant): Result<Token, Refusal> {
    var live := Retained(grants, now);
    if |live| >= maxGrants then Err(CapacityReached(maxGrants))
    else
      var token := FreeToken(live, draws);
      if token.Some? then Ok(token.value) else Err(RandomnessUnavailable)
  }

  /**
   An issue is refused for capacity exactly when the store is full of live grants. With
   room, the token is the first draw that is free, every draw before it made and taken;
   and there is none exactly when none is free before the first draw that failed.
   */
  lemma IssuesTheFirstFreeDraw(grants: Grants, maxGrants: nat, draws: seq<Option<Token>>, now: Instant)
    ensures var outcome, live := Outcome(grants, maxGrants, draws, now), Retained(grants, now);
            && (|live| >= maxGrants <==> outcome == Err(CapacityReached(maxGrants)))
            && (|live| < maxGrants ==>
                  && (outcome.Ok? <==> exists k :: 0 <= k < |draws| && draws[k].Some? && draws[k].value !in live
                                                   && AllTaken(live, draws, k))
                  && (outcome.Err? ==> outcome == Err(RandomnessUnavailable))
                  && (forall k :: 0 <= k < |draws| && draws[k].Some? && draws[k].value !in live
                                  && AllTaken(live, draws, k)
                        ==> outcome == Ok(draws[k].value)))
  {
    var live := Retained(grants, now);
    forall k | 0 <= k < |draws| && draws[k].Some? && draws[k].value !in live && AllTaken(live, draws, k)
      ensures FreeToken(live, draws) == draws[k]
    {
      OneFirst(live, draws, k);
    }
  }

  lemma {:induction false} OneFirst(grants: Grants, draws: seq<Option<Token>>, k: nat)
    requires k < |draws| && draws[k].Some? && draws[k].value !in grants && AllTaken(grants, draws, k)
    ensures FreeToken(grants, draws) == draws[k]
  {
    if k > 0 {
      assert draws[0].value in grants;
      OneFirst(grants, draws[1..], k - 1);
    }
  }

  function Issued(grants: Grants, outcome: Result<Token, Refusal>, grant: Grant, now: Instant): Grants {
    if outcome.Ok? then Retained(grants, now)[outcome.value := grant] else Retained(grants, now)
  }

  predicate Honoured(grants: Grants, token: Token, session: SessionId, protocol: Protocol, now: Instant) {
    token in grants
    && grants[token].expiresAt > now && grants[token].session == session && grants[token].protocol == protocol
  }

  /** The store, under its lock. Draws of randomness are handed in, each of which may fail. */
  class AttachGrantStore {
    var grants: Grants
    const maxGrants: nat
    const ttl: nat

    constructor (maxGrants: nat, ttl: nat)
      ensures grants == map[] && this.maxGrants == maxGrants && this.ttl == ttl
    {
      grants := map[];
      this.maxGrants, this.ttl := maxGrants, ttl;
    }

    constructor Default()
      ensures grants == map[] && maxGrants == 128 && ttl == 30
    {
      grants := map[];
      maxGrants, ttl := MAX_ATTACH_GRANTS, ATTACH_GRANT_TTL;
    }

    method IssueAt(session: SessionId, protocol: Protocol, draws: seq<Option<Token>>, now: Instant)
      returns (issued: Result<Token, Refusal>)
      requires |draws| == 4
      modifies this
      ensures issued == Outcome(old(grants), maxGrants, draws, now)
      ensures grants == Issued(old(grants), issued, Grant(session, protocol, now + ttl), now)
      // With room, and a first draw that is free, that draw is issued and held.
      ensures |Retained(old(grants), now)| < maxGrants && draws[0].Some?
              && draws[0].value !in Retained(old(grants), now) ==>
                issued == Ok(draws[0].value) && issued.value in grants
                && grants[issued.value] == Grant(session, protocol, now + ttl)
    {
      grants := Retained(grants, now);
      if |grants| >= maxGrants {
        return Err(CapacityReached(maxGrants));
      }
      var i := 0;
      while i < TOKEN_TRIES
        invariant 0 <= i <= TOKEN_TRIES
        invariant FreeToken(grants, draws[i..]) == FreeToken(grants, draws)
        invariant grants == Retained(old(grants), now)
      {
        if draws[i].None? {
          return Err(RandomnessUnavailable);
        }
        var token := draws[i].value;
        if token !in grants {
          grants := grants[token := Grant(session, protocol, now + ttl)];
          return Ok(token);
        }
        assert draws[i..][1..] == draws[i + 1..];
        i := i + 1;
      }
      issued := Err(RandomnessUnavailable);
    }

    method ConsumeAt(token: Token, session: SessionId, protocol: Protocol, now: Instant) returns (accepted: bool)
      modifies this
      ensures accepted == Honoured(old(grants), token, session, protocol, now)
      ensures grants == old(grants) - {token}
    {
      if token !in grants {
        return false;
      }
      var grant := grants[token];
      grants := grants - {token};
      accepted := grant.expiresAt > now && grant.session == session && grant.protocol == protocol;
    }
  }

  // ---------------------------------------------------------- plain history

  datatype Call =
    | Issue(session: SessionId, protocol: Protocol, draws: seq<Option<Token>>, now: Instant)
    | Consume(token: Token, session: SessionId, protocol: Protocol, now: Instant)

  /** What happened: a token was issued, an issue came to nothing, or a token was tried. */
  datatype Event =
    | Gave(token: Token, grant: Grant, at: Instant)
    | GaveNothing(at: Instant)
    | Tried(token: Token, at: Instant)

  datatype State = State(maxGrants: nat, ttl: nat, grants: Grants, history: seq<Event>)

  function Do(s: State, call: Call): State {
    match call
    case Issue(session, protocol, draws, now) =>
      var outcome := Outcome(s.grants, s.maxGrants, draws, now);
      var grant := Grant(session, protocol, now + s.ttl);
      s.(grants := Issued(s.grants, outcome, grant, now),
         history := s.history + [if outcome.Ok? then Gave(outcome.value, grant, now) else GaveNothing(now)])
    case Consume(token, _, _, now) =>
      s.(grants := s.grants - {token}, history := s.history + [Tried(token, now)])
  }

  function After(s: State, calls: seq<Call>): State
    decreases |calls|
  {
    if calls == [] then s else After(Do(s, calls[0]), calls[1..])
  }

  function Start(maxGrants: nat, ttl: nat): State {
    State(maxGrants, ttl, map[], [])
  }

  predicate Touches(e: Event, token: Token) {
    !e.GaveNothing? && e.token == token
  }

  /** The latest issue of the token is at `i`, and it has not been tried since. */
  ghost predicate LatestIssue(h: seq<Event>, token: Token, i: nat) {
    i < |h| && h[i].Gave? && h[i].token == token && forall j :: i < j < |h| ==> !Touches(h[j], token)
  }

  /** A later issue, for anyone, found it already expired. */
  ghost predicate SweptSince(h: seq<Event>, i: nat)
    requires i < |h| && h[i].Gave?
  {
    exists j :: i < j < |h| && !h[j].Tried? && h[j].at >= h[i].grant.expiresAt
  }

  ghost predicate InStore(h: seq<Event>, token: Token, i: nat) {
    LatestIssue(h, token, i) && !SweptSince(h, i)
  }

  ghost predicate Inv(s: State) {
    && |s.grants| <= s.maxGrants
    && (forall t :: t in s.grants ==> exists i: nat :: InStore(s.history, t, i) && s.history[i].grant == s.grants[t])
    && forall t, i: nat :: InStore(s.history, t, i) ==> t in s.grants && s.grants[t] == s.history[i].grant
  }

  /** How one more event changes what is in the store. */
  lemma OneMore(h: seq<Event>, e: Event, token: Token, i: nat)
    ensures InStore(h + [e], token, i) <==>
            if i == |h| then e.Gave? && e.token == token
            else InStore(h, token, i) && !Touches(e, token) && (e.Tried? || e.at < h[i].grant.expiresAt)
  {
    var more := h + [e];
    assert more[|h|] == e;
    if i < |h| {
      assert more[i] == h[i];
      if InStore(more, token, i) {
        forall j | i < j < |h|
          ensures !Touches(h[j], token) && (h[j].Tried? || h[j].at < h[i].grant.expiresAt)
        {
          assert more[j] == h[j];
        }
      } else if LatestIssue(more, token, i) {
        var j :| i < j < |more| && !more[j].Tried? && more[j].at >= more[i].grant.expiresAt;
        assert j < |h| ==> more[j] == h[j];
      } else if h[i].Gave? && h[i].token == token {
        var j :| i < j < |more| && Touches(more[j], token);
        assert j < |h| ==> more[j] == h[j];
      }
    }
  }

  lemma RetainedIsSmaller(grants: Grants, now: Instant)
    ensures |Retained(grants, now)| <= |grants|
  {
    var kept := Retained(grants, now);
    assert kept.Keys <= grants.Keys;
    SubsetIsSmaller(kept.Keys, grants.Keys);
    assert |kept| == |kept.Keys| && |grants| == |grants.Keys|;
  }

  lemma SubsetIsSmaller<T>(a: set<T>, b: set<T>)
    requires a <= b
    ensures |a| <= |b|
  {
    assert b == a + (b - a);
  }

  lemma StepKeepsSize(s: State, call: Call)
    requires |s.grants| <= s.maxGrants
    ensures |Do(s, call).grants| <= s.maxGrants
  {
    if call.Issue? {
      RetainedIsSmaller(s.grants, call.now);
    } else {
      var next := Do(s, call);
      SubsetIsSmaller(next.grants.Keys, s.grants.Keys);
      assert |next.grants| == |next.grants.Keys| && |s.grants| == |s.grants.Keys|;
    }
  }

  /** What a step does to one token's grant, in terms of the event it adds. */
  lemma StepOfToken(s: State, call: Call, token: Token)
    ensures var next := Do(s, call);
            |next.history| == |s.history| + 1 && next.history == s.history + [next.history[|s.history|]]
    ensures var next := Do(s, call);
            var e := next.history[|s.history|];
            if e.Gave? && e.token == token then token in next.grants && next.grants[token] == e.grant
            else
              && (token in next.grants <==>
                  token in s.grants && !Touches(e, token) && (e.Tried? || e.at < s.grants[token].expiresAt))
              && (token in next.grants ==> next.grants[token] == s.grants[token])
  {
  }

  lemma StepKeepsInv(s: State, call: Call)
    requires Inv(s)
    ensures Inv(Do(s, call)) && Do(s, call).maxGrants == s.maxGrants
  {
    StepKeepsSize(s, call);
    var next := Do(s, call);
    var e := next.history[|s.history|];
    forall t | t in next.grants
      ensures exists i: nat :: InStore(next.history, t, i) && next.history[i].grant == next.grants[t]
    {
      GrantHasIssue(s, call, t);
    }
    forall t, i: nat | InStore(next.history, t, i)
      ensures t in next.grants && next.grants[t] == next.history[i].grant
    {
      StepOfToken(s, call, t);
      OneMore(s.history, e, t, i);
    }
  }

  lemma GrantHasIssue(s: State, call: Call, t: Token)
    requires Inv(s) && t in Do(s, call).grants
    ensures var next := Do(s, call);
            exists i: nat :: InStore(next.history, t, i) && next.history[i].grant == next.grants[t]
  {
    StepOfToken(s, call, t);
    hide Do, SweptSince;
    var next := Do(s, call);
    var e := next.history[|s.history|];
    if e.Gave? && e.token == t {
      OneMore(s.history, e, t, |s.history|);
    } else {
      var i: nat :| InStore(s.history, t, i) && s.history[i].grant == s.grants[t];
      OneMore(s.history, e, t, i);
      assert next.history[i] == s.history[i];
    }
  }

  lemma {:induction false} ScheduleKeepsInv(s: State, calls: seq<Call>)
    requires Inv(s)
    ensures Inv(After(s, calls)) && After(s, calls).maxGrants == s.maxGrants
    decreases |calls|
  {
    if calls != [] {
      hide Inv, Do;
      StepKeepsInv(s, calls[0]);
      ScheduleKeepsInv(Do(s, calls[0]), calls[1..]);
    }
  }

  lemma ReachableIsInv(maxGrants: nat, ttl: nat, calls: seq<Call>)
    ensures Inv(After(Start(maxGrants, ttl), calls)) && After(Start(maxGrants, ttl), calls).maxGrants == maxGrants
  {
    assert Inv(Start(maxGrants, ttl));
    ScheduleKeepsInv(Start(maxGrants, ttl), calls);
  }

  /**
   Whatever the order of times the calls carry, a token is accepted exactly when its
   latest issue named this session and protocol, has not expired, has not been tried
   since by anyone, and no later issue found it expired. There are never more grants
   than the store may hold.
   */
  lemma HonouredByHistory(
    maxGrants: nat, ttl: nat, calls: seq<Call>,
    token: Token, session: SessionId, protocol: Protocol, now: Instant)
    ensures var s := After(Start(maxGrants, ttl), calls);
            && |s.grants| <= maxGrants
            && (Honoured(s.grants, token, session, protocol, now) <==>
                exists i: nat :: InStore(s.history, token, i)
                              && s.history[i].grant.expiresAt > now
                              && s.history[i].grant.session == session
                              && s.history[i].grant.protocol == protocol)
  {
    ReachableIsInv(maxGrants, ttl, calls);
    hide After;
  }

  /** No event is later than `now`, as with one monotone clock. */
  ghost predicate UpTo(h: seq<Event>, now: Instant) {
    forall j :: 0 <= j < |h| ==> h[j].at <= now
  }

  /** With a monotone clock, sweeping changes no answer: only a grant expired by now was ever swept. */
  lemma SweepingIsInvisible(h: seq<Event>, token: Token, i: nat, now: Instant)
    requires UpTo(h, now)
    ensures InStore(h, token, i) && h[i].grant.expiresAt > now
            <==> LatestIssue(h, token, i) && h[i].grant.expiresAt > now
  {
  }

  /**
   With a monotone clock the store refines the history: a token is accepted exactly
   when its latest issue named this session and protocol, has not expired, and
   nobody has tried it since.
   */
  lemma HonouredExactlyOnce(
    maxGrants: nat, ttl: nat, calls: seq<Call>,
    token: Token, session: SessionId, protocol: Protocol, now: Instant)
    requires UpTo(After(Start(maxGrants, ttl), calls).history, now)
    ensures var s := After(Start(maxGrants, ttl), calls);
            Honoured(s.grants, token, session, protocol, now) <==>
            exists i: nat :: LatestIssue(s.history, token, i)
                          && s.history[i].grant.expiresAt > now
                          && s.history[i].grant.session == session
                          && s.history[i].grant.protocol == protocol
  {
    var s := After(Start(maxGrants, ttl), calls);
    HonouredByHistory(maxGrants, ttl, calls, token, session, protocol, now);
    hide After, Honoured;
    if Honoured(s.grants, token, session, protocol, now) {
      var i: nat :| InStore(s.history, token, i) && s.history[i].grant.expiresAt > now
                    && s.history[i].grant.session == session && s.history[i].grant.protocol == protocol;
      SweepingIsInvisible(s.history, token, i, now);
    } else {
      forall i: nat | LatestIssue(s.history, token, i)
        ensures InStore(s.history, token, i) || s.history[i].grant.expiresAt <= now
      {
        SweepingIsInvisible(s.history, token, i, now);
      }
    }
  }

  function TokensGiven(h: seq<Event>): set<Token> {
    set e | e in h && e.Gave? :: e.token
  }

  /** Tokens whose latest issue has been neither tried nor outlived. */
  ghost function Outstanding(h: seq<Event>, now: Instant): set<Token> {
    set t | t in TokensGiven(h) && exists i: nat :: LatestIssue(h, t, i) && h[i].grant.expiresAt > now
  }

  /**
   An issue is refused for capacity exactly when that many unexpired grants are
   outstanding, and there are never more of them.
   */
  lemma CapacityCountsOutstanding(maxGrants: nat, ttl: nat, calls: seq<Call>, draws: seq<Option<Token>>, now: Instant)
    requires UpTo(After(Start(maxGrants, ttl), calls).history, now)
    ensures var s := After(Start(maxGrants, ttl), calls);
            && |Outstanding(s.history, now)| <= maxGrants
            && (Outcome(s.grants, maxGrants, draws, now) == Err(CapacityReached(maxGrants))
                <==> |Outstanding(s.history, now)| == maxGrants)
  {
    ReachableIsInv(maxGrants, ttl, calls);
    var s := After(Start(maxGrants, ttl), calls);
    hide After, Inv;
    LiveIsOutstanding(s, now);
    hide Outstanding;
    var live := Retained(s.grants, now);
    assert |live| == |live.Keys|;
    RetainedIsSmaller(s.grants, now);
    assert |s.grants| <= maxGrants by { SizeOfInv(s); }
  }

  lemma SizeOfInv(s: State)
    requires Inv(s)
    ensures |s.grants| <= s.maxGrants
  {
  }

  lemma LiveIsOutstanding(s: State, now: Instant)
    requires Inv(s) && UpTo(s.history, now)
    ensures Retained(s.grants, now).Keys == Outstanding(s.history, now)
  {
    hide InStore, Outcome, Inv;
    forall t
      ensures t in Retained(s.grants, now).Keys <==> t in Outstanding(s.history, now)
    {
      LiveMeansOutstanding(s, now, t);
    }
  }

  lemma LiveMeansOutstanding(s: State, now: Instant, t: Token)
    requires Inv(s) && UpTo(s.history, now)
    ensures t in Retained(s.grants, now).Keys <==> t in Outstanding(s.history, now)
  {
    hide SweptSince;
    if t in Retained(s.grants, now) {
      var i: nat :| InStore(s.history, t, i) && s.history[i].grant == s.grants[t];
      SweepingIsInvisible(s.history, t, i, now);
      GivenToken(s.history, t, i);
    }
    if t in Outstanding(s.history, now) {
      var i: nat :| LatestIssue(s.history, t, i) && s.history[i].grant.expiresAt > now;
      SweepingIsInvisible(s.history, t, i, now);
    }
  }

  lemma GivenToken(h: seq<Event>, t: Token, i: nat)
    requires LatestIssue(h, t, i)
    ensures t in TokensGiven(h)
  {
    assert h[i] in h;
  }

  /** A token that was tried is refused, whoever tried it, until it is issued again. */
  lemma {:induction false} TriedIsSpent(
    s: State, token: Token, session: SessionId, protocol: Protocol, at: Instant, calls: seq<Call>)
    requires Inv(s)
    requires var h, n := After(Do(s, Consume(token, session, protocol, at)), calls).history, |s.history| + 1;
             forall j :: n <= j < |h| && h[j].Gave? ==> h[j].token != token
    ensures token !in After(Do(s, Consume(token, session, protocol, at)), calls).grants
  {
    var t := Do(s, Consume(token, session, protocol, at));
    StepKeepsInv(s, Consume(token, session, protocol, at));
    ScheduleKeepsInv(t, calls);
    HistoryGrows(t, calls);
    var end := After(t, calls);
    hide After, Do;
    if token in end.grants {
      var i: nat :| InStore(end.history, token, i) && end.history[i].grant == end.grants[token];
      assert end.history[|s.history|] == t.history[|s.history|];
      TriedMeansNoIssueBefore(end.history, token, i, |s.history|);
    }
  }

  lemma TriedMeansNoIssueBefore(h: seq<Event>, token: Token, i: nat, tried: nat)
    requires LatestIssue(h, token, i) && tried < |h| && h[tried].Tried? && h[tried].token == token
    ensures i > tried
  {
    assert Touches(h[tried], token);
  }

  lemma {:induction false} HistoryGrows(s: State, calls: seq<Call>)
    ensures s.history <= After(s, calls).history
    decreases |calls|
  {
    if calls != [] {
      HistoryGrows(Do(s, calls[0]), calls[1..]);
      assert s.history <= Do(s, calls[0]).history;
    }
  }
}
