/**
 Pressing Esc once on a question the operator has already answered elsewhere, and
 the bounded memory of which questions that was done for.
 */
module AnsweredQuestions {
  import opened Options

  const CAPACITY: nat := 256

  type DecisionId = nat

  /** What the write of Esc came to; a write that timed out may have landed. */
  datatype Outcome = Acknowledged | TimedOut | Refused

  datatype Closing = LeftAlone | Closed | StillOpen

  /**
   What a pass sees of the terminal: whether its menu can be read at all, whether the
   first look shows one of the decision's questions, how the write ends, and what
   each later look before the deadline shows. A look that fails shows nothing.
   */
  datatype Screen = Screen(
    claude: bool, questions: nat, first: Option<bool>, outcome: Outcome, later: seq<Option<bool>>)

  function Remembered(pressed: seq<DecisionId>, decision: DecisionId): seq<DecisionId> {
    (if |pressed| == CAPACITY then pressed[1..] else pressed) + [decision]
  }

  class AnsweredQuestions {
    var pressed: seq<DecisionId>

    constructor ()
      ensures pressed == []
    {
      pressed := [];
    }

    predicate AlreadyPressed(decision: DecisionId)
      reads this
    {
      decision in pressed
    }

    method Record(decision: DecisionId)
      modifies this
      ensures pressed == Remembered(old(pressed), decision)
    {
      if |pressed| == CAPACITY {
        pressed := pressed[1..];
      }
      pressed := pressed + [decision];
    }

    /**
     Presses at most once, and only on a question that is the decision's own and was
     not pressed for. Every press that may have landed is remembered, and nothing else.
     */
    method CloseMatchingMenu(decision: DecisionId, screen: Screen) returns (closing: Closing, written: bool)
      modifies this
      ensures written <==>
                screen.claude && screen.questions > 0 && screen.first == Some(true) && decision !in old(pressed)
      ensures closing.LeftAlone? <==> !written || screen.outcome.Refused?
      ensures closing.Closed? <==>
                written && screen.outcome.Acknowledged?
                && exists i :: 0 <= i < |screen.later| && screen.later[i] == Some(false)
      ensures pressed == if closing.LeftAlone? then old(pressed) else Remembered(old(pressed), decision)
    {
      written := false;
      if !screen.claude || screen.questions == 0 {
        return LeftAlone, false;
      }
      if screen.first.None? {
        return LeftAlone, false;
      }
      if !screen.first.value || AlreadyPressed(decision) {
        return LeftAlone, false;
      }
      written := true;
      match screen.outcome {
        case Acknowledged => Record(decision);
        case TimedOut =>
          Record(decision);
          return StillOpen, true;
        case Refused => return LeftAlone, true;
      }
      var i := 0;
      while i < |screen.later|
        invariant 0 <= i <= |screen.later|
        invariant forall j :: 0 <= j < i ==> screen.later[j] != Some(false)
      {
        if screen.later[i] == Some(false) {
          return Closed, true;
        }
        i := i + 1;
      }
      closing := StillOpen;
    }
  }

  // -------------------------------------------------------------- many passes

  /** `pending` are passes between their look and the end of their write; `history` every remembered press. */
  datatype State = State(pressed: seq<DecisionId>, pending: seq<DecisionId>, history: seq<DecisionId>)

  datatype Step = Looks(decision: DecisionId, shows: bool) | Writes(i: nat, outcome: Outcome)

  const START := State([], [], [])

  function Do(s: State, step: Step): State {
    match step
    case Looks(decision, shows) =>
      if shows && decision !in s.pressed then s.(pending := s.pending + [decision]) else s
    case Writes(i, outcome) =>
      if i >= |s.pending| then s
      else
        var rest := s.(pending := s.pending[..i] + s.pending[i + 1..]);
        if outcome.Refused? then rest
        else rest.(pressed := Remembered(s.pressed, s.pending[i]), history := s.history + [s.pending[i]])
  }

  function After(s: State, steps: seq<Step>): State
    decreases |steps|
  {
    if steps == [] then s else After(Do(s, steps[0]), steps[1..])
  }

  /** No two passes for one decision are under way at once. */
  predicate OnePassPerDecision(s: State, steps: seq<Step>)
    decreases |steps|
  {
    steps == []
    || ((steps[0].Looks? ==> steps[0].decision !in s.pending) && OnePassPerDecision(Do(s, steps[0]), steps[1..]))
  }

  ghost predicate Distinct(ids: seq<DecisionId>) {
    forall i, j :: 0 <= i < j < |ids| ==> ids[i] != ids[j]
  }

  /** Among any press and the 256 before it, no decision comes twice. */
  ghost predicate Spaced(history: seq<DecisionId>) {
    forall i, j :: 0 <= i < j < |history| && history[i] == history[j] ==> j - i > CAPACITY
  }

  /** Between two presses for one decision there are at least 256 for others. */
  ghost predicate OthersBetween(history: seq<DecisionId>) {
    forall i, j :: 0 <= i < j < |history| && history[i] == history[j] ==>
      && j - i - 1 >= 256
      && forall k :: j - 256 <= k < j ==> history[k] != history[j]
  }

  /** The memory is the last presses, all of them or 256. */
  ghost predicate Remembers(s: State) {
    && |s.pressed| <= CAPACITY && |s.pressed| <= |s.history|
    && s.pressed == s.history[|s.history| - |s.pressed|..]
    && (|s.pressed| < CAPACITY ==> |s.pressed| == |s.history|)
  }

  ghost predicate Inv(s: State) {
    && Remembers(s)
    && Spaced(s.history)
    && Distinct(s.pending)
    && forall d :: d in s.pending ==> d !in s.pressed
  }

  lemma RememberKeepsNewest(s: State, d: DecisionId)
    requires Remembers(s)
    ensures Remembers(s.(pressed := Remembered(s.pressed, d), history := s.history + [d]))
  {
  }

  /** Taking one out of distinct ones leaves the others, and not it. */
  lemma OneTakenOut(ids: seq<DecisionId>, i: nat)
    requires Distinct(ids) && i < |ids|
    ensures var rest := ids[..i] + ids[i + 1..];
            Distinct(rest) && forall e :: e in rest ==> e in ids && e != ids[i]
  {
    var rest := ids[..i] + ids[i + 1..];
    forall k | 0 <= k < |rest|
      ensures rest[k] == ids[if k < i then k else k + 1]
    {
    }
  }

  lemma RememberedAre(pressed: seq<DecisionId>, d: DecisionId)
    ensures forall e :: e in Remembered(pressed, d) ==> e in pressed || e == d
  {
  }

  lemma StepKeepsInv(s: State, step: Step)
    requires Inv(s) && (step.Looks? ==> step.decision !in s.pending)
    ensures Inv(Do(s, step))
  {
    hide Remembered, Spaced;
    if step.Writes? && step.i < |s.pending| {
      var d := s.pending[step.i];
      OneTakenOut(s.pending, step.i);
      hide Distinct;
      if !step.outcome.Refused? {
        PressIsSpaced(s, d);
        RememberKeepsNewest(s, d);
        RememberedAre(s.pressed, d);
      }
    }
  }

  /** A press keeps its distance exactly when it is not among those remembered. */
  lemma PressIsSpaced(s: State, d: DecisionId)
    requires Remembers(s)
    ensures Spaced(s.history + [d]) <==> Spaced(s.history) && d !in s.pressed
  {
    SpacedBefore(s.history, d);
    if d in s.pressed {
      RememberedIsNear(s, d);
    } else if Spaced(s.history) {
      ForgottenIsFar(s, d);
    }
  }

  lemma SpacedBefore(history: seq<DecisionId>, d: DecisionId)
    ensures Spaced(history + [d]) ==> Spaced(history)
  {
    var more := history + [d];
    assert forall i :: 0 <= i < |history| ==> more[i] == history[i];
  }

  lemma RememberedIsNear(s: State, d: DecisionId)
    requires Remembers(s) && d in s.pressed
    ensures !Spaced(s.history + [d])
  {
    var more := s.history + [d];
    var i :| 0 <= i < |s.pressed| && s.pressed[i] == d;
    assert more[|s.history| - |s.pressed| + i] == more[|s.history|];
  }

  lemma ForgottenIsFar(s: State, d: DecisionId)
    requires Remembers(s) && d !in s.pressed && Spaced(s.history)
    ensures Spaced(s.history + [d])
  {
    var from := |s.history| - |s.pressed|;
    forall i | from <= i < |s.history|
      ensures s.history[i] != d
    {
      assert s.history[i] == s.pressed[i - from];
    }
  }

  lemma {:induction false} ScheduleKeepsInv(s: State, steps: seq<Step>)
    requires Inv(s) && OnePassPerDecision(s, steps)
    ensures Inv(After(s, steps))
    decreases |steps|
  {
    if steps != [] {
      hide Inv, Do;
      StepKeepsInv(s, steps[0]);
      ScheduleKeepsInv(Do(s, steps[0]), steps[1..]);
    }
  }

  /**
   As long as no decision has two passes at once, which passes run one after another
   never have: the memory is the last presses, never more than 256 and each once, and
   between two presses for one decision there are at least 256 for others.
   */
  lemma PressedOncePerMemory(steps: seq<Step>)
    requires OnePassPerDecision(START, steps)
    ensures var s := After(START, steps); Remembers(s) && Distinct(s.pressed) && OthersBetween(s.history)
  {
    StartIsInv();
    hide After, Do, OnePassPerDecision, Spaced, Distinct, OthersBetween, Remembers;
    ScheduleKeepsInv(START, steps);
    var s := After(START, steps);
    MemoryIsDistinct(s);
    SpacedMeans(s.history);
  }

  lemma StartIsInv()
    ensures Inv(START)
  {
  }

  lemma SpacedMeans(history: seq<DecisionId>)
    ensures Spaced(history) <==> OthersBetween(history)
  {
  }

  lemma MemoryIsDistinct(s: State)
    requires Inv(s)
    ensures Distinct(s.pressed)
  {
    var from := |s.history| - |s.pressed|;
    forall i, j | 0 <= i < j < |s.pressed|
      ensures s.pressed[i] != s.pressed[j]
    {
      assert s.pressed[i] == s.history[from + i] && s.pressed[j] == s.history[from + j];
    }
  }

  /** A write that may land is of a decision that is not remembered when it is made. */
  predicate IsFresh(s: State, step: Step) {
    step.Writes? && step.i < |s.pending| && !step.outcome.Refused? ==> s.pending[step.i] !in s.pressed
  }

  predicate AllFresh(s: State, steps: seq<Step>)
    decreases |steps|
  {
    steps == [] || (IsFresh(s, steps[0]) && AllFresh(Do(s, steps[0]), steps[1..]))
  }

  lemma StepIsSpaced(s: State, step: Step)
    requires Remembers(s)
    ensures Remembers(Do(s, step))
    ensures Spaced(Do(s, step).history) <==> Spaced(s.history) && IsFresh(s, step)
  {
    hide Remembered, Spaced;
    if step.Writes? && step.i < |s.pending| {
      var d := s.pending[step.i];
      PressIsSpaced(s, d);
      RememberKeepsNewest(s, d);
    }
  }

  lemma {:induction false} RunIsSpaced(s: State, steps: seq<Step>)
    requires Remembers(s)
    ensures Remembers(After(s, steps))
    ensures Spaced(After(s, steps).history) <==> Spaced(s.history) && AllFresh(s, steps)
    decreases |steps|
  {
    if steps != [] {
      hide Remembers, Spaced, Do, IsFresh;
      StepIsSpaced(s, steps[0]);
      RunIsSpaced(Do(s, steps[0]), steps[1..]);
    }
  }

  /**
   Over every schedule, with any number of passes for one decision at once: two presses
   for one decision have at least 256 others between them exactly when no pass wrote
   for a decision that had come to be remembered since it looked.
   */
  lemma SpacedExactlyWhenFresh(steps: seq<Step>)
    ensures OthersBetween(After(START, steps).history) <==> AllFresh(START, steps)
  {
    hide After, AllFresh, OthersBetween;
    RunIsSpaced(START, steps);
    SpacedMeans(After(START, steps).history);
  }

  lemma {:induction false} HistoryGrows(s: State, steps: seq<Step>)
    ensures s.history <= After(s, steps).history
    decreases |steps|
  {
    if steps != [] {
      hide Remembered;
      HistoryGrows(Do(s, steps[0]), steps[1..]);
    }
  }

  /**
   Two passes for one decision, the second still under way when the first has written:
   if both writes may land, and fewer than 256 others do between them, the spacing is
   broken and stays so, whatever else runs before, in between and after.
   */
  lemma TwoPassesAtOnceBreakIt(
    s: State, i: nat, first: Outcome, between: seq<Step>, j: nat, second: Outcome, rest: seq<Step>)
    requires i < |s.pending| && !first.Refused? && !second.Refused?
    requires var u := After(Do(s, Writes(i, first)), between);
             && j < |u.pending| && u.pending[j] == s.pending[i]
             && |u.history| - |Do(s, Writes(i, first)).history| < CAPACITY
    ensures var u := After(Do(s, Writes(i, first)), between);
            !Spaced(After(Do(u, Writes(j, second)), rest).history)
  {
    hide After, Remembered;
    var t := Do(s, Writes(i, first));
    var u := After(t, between);
    var v := Do(u, Writes(j, second));
    var end := After(v, rest);
    HistoryGrows(t, between);
    HistoryGrows(v, rest);
    assert t.history[|s.history|] == s.pending[i];
    assert end.history[|s.history|] == end.history[|u.history|];
  }

  /** Passes one after another never have two for one decision. */
  predicate OneAfterAnother(s: State, steps: seq<Step>)
    decreases |steps|
  {
    steps == []
    || ((steps[0].Looks? ==> s.pending == []) && OneAfterAnother(Do(s, steps[0]), steps[1..]))
  }

  lemma {:induction false} OneAfterAnotherIsEnough(s: State, steps: seq<Step>)
    requires OneAfterAnother(s, steps)
    ensures OnePassPerDecision(s, steps)
    decreases |steps|
  {
    if steps != [] {
      OneAfterAnotherIsEnough(Do(s, steps[0]), steps[1..]);
    }
  }

  /** A refused press is forgotten: a later pass may still press once. */
  lemma RefusedLeavesNoTrace(s: State, d: DecisionId)
    requires Inv(s) && d !in s.pressed && d !in s.pending
    ensures var tried := After(s, [Looks(d, true), Writes(|s.pending|, Refused)]);
            tried == s
  {
    hide Remembered;
    var looked := Do(s, Looks(d, true));
    assert looked.pending == s.pending + [d];
    assert [Looks(d, true), Writes(|s.pending|, Refused)][1..] == [Writes(|s.pending|, Refused)];
    assert After(looked, [Writes(|s.pending|, Refused)]) == Do(looked, Writes(|s.pending|, Refused));
    assert looked.pending[..|s.pending|] + looked.pending[|s.pending| + 1..] == s.pending;
  }

  /** The memory alone does not stop two passes at once from both pressing. */
  lemma PassesAtOncePressTwice(d: DecisionId)
    ensures After(START, [Looks(d, true), Looks(d, true), Writes(0, Acknowledged), Writes(0, Acknowledged)]).history
            == [d, d]
  {
    Four(START, Looks(d, true), Looks(d, true), Writes(0, Acknowledged), Writes(0, Acknowledged));
    var s2 := Do(Do(START, Looks(d, true)), Looks(d, true));
    assert s2 == State([], [d, d], []);
    assert s2.pending[..0] + s2.pending[1..] == [d];
    var s3 := Do(s2, Writes(0, Acknowledged));
    assert s3 == State([d], [d], [d]);
  }

  lemma First(s: State, a: Step, rest: seq<Step>)
    ensures After(s, [a] + rest) == After(Do(s, a), rest)
  {
    assert ([a] + rest)[1..] == rest;
  }

  lemma Nothing(s: State)
    ensures After(s, []) == s
  {
  }

  lemma Four(s: State, a: Step, b: Step, c: Step, d: Step)
    ensures After(s, [a, b, c, d]) == Do(Do(Do(Do(s, a), b), c), d)
  {
    hide Do, After;
    assert [a, b, c, d] == [a] + ([b] + ([c] + ([d] + [])));
    First(s, a, [b] + ([c] + ([d] + [])));
    First(Do(s, a), b, [c] + ([d] + []));
    First(Do(Do(s, a), b), c, [d] + []);
    First(Do(Do(Do(s, a), b), c), d, []);
    Nothing(Do(Do(Do(Do(s, a), b), c), d));
  }
}
