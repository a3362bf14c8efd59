/**
 A Hive's log on its way to its Keeper. Any number of passes may ship at once, and a
 batch once sent may arrive late, twice, or not at all, and its answer may be lost.
 */
module LogShipping {
  import opened Options
  import opened Utf8
  import opened DiagnosticLog
  import opened MemberDiagnostics

  /**
   The Hive's ring, the batches it sent, and the Keeper's log of it. The rest is
   history: every line logged, every line the Keeper wrote to its journal, every
   arrival, and every arrival the Hive heard was accepted.
   */
  datatype State = State(
    bootId: Bytes, ring: Ring, sent: seq<Batch>, keeper: HiveLog,
    lines: seq<Line>, journal: seq<Entry>, arrived: seq<Batch>, accepted: seq<Batch>)

  /** A batch sent is never too old to arrive, nor an answer to be heard. */
  datatype Step =
    | Records(line: Line)
    | Begins
    | Arrives(i: nat, now: int)
    | Hears(i: nat)

  function Do(s: State, step: Step): State {
    match step
    case Records(line) => s.(ring := Recorded(s.ring, line), lines := s.lines + [line])
    case Begins =>
      var p := Pending(s.bootId, s.ring);
      if p.Some? then s.(sent := s.sent + [p.value]) else s
    case Arrives(i, now) =>
      if i >= |s.sent| then s
      else
        s.(keeper := Accepted(s.keeper, s.sent[i], now), journal := s.journal + Unheld(s.keeper, s.sent[i]),
           arrived := s.arrived + [s.sent[i]])
    case Hears(i) =>
      if i >= |s.arrived| || s.arrived[i].entries == [] then s
      else s.(ring := Shipped(s.ring, To(s.arrived[i])), accepted := s.accepted + [s.arrived[i]])
  }

  function After(s: State, steps: seq<Step>): State
    decreases |steps|
  {
    if steps == [] then s else After(Do(s, steps[0]), steps[1..])
  }

  function Start(bootId: Bytes): State {
    State(bootId, Ring(0, [], 0), [], NOTHING, [], [], [], [])
  }

  /** The last line the Keeper holds of this run. */
  function Held(s: State): nat {
    HeldThrough(s.keeper, s.bootId)
  }

  // ------------------------------------------------------------ the invariant

  /** Lines under their own numbers, each as it was recorded, none twice, up to `through`. */
  ghost predicate Kept(journal: seq<Entry>, lines: seq<Line>, through: nat) {
    && (forall i, j :: 0 <= i < j < |journal| ==> journal[i].sequence < journal[j].sequence)
    && (forall i :: 0 <= i < |journal| ==> IsLine(journal[i], lines, journal[i].sequence - 1))
    && (if journal == [] then through == 0 else journal[|journal| - 1].sequence == through)
  }

  ghost predicate InJournal(journal: seq<Entry>, q: nat) {
    exists e :: e in journal && e.sequence == q
  }

  /** Some batch that arrived counts this line among those it lost. */
  ghost predicate SaidLost(arrived: seq<Batch>, q: nat) {
    exists b :: b in arrived && b.entries != [] && From(b) < q <= From(b) + b.dropped
  }

  ghost predicate SentOk(s: State, b: Batch) {
    b.bootId == s.bootId && Carries(b, s.lines) && From(b) <= s.ring.shippedThrough
  }

  ghost predicate Inv(s: State) {
    && 0 < |s.bootId| <= MAX_BOOT_ID_BYTES
    && (s.keeper.bootId == s.bootId || s.keeper == NOTHING)
    && Holds(s.ring, s.lines)
    && (forall b :: b in s.sent ==> SentOk(s, b))
    && (forall b :: b in s.arrived ==> b in s.sent && To(b) <= Held(s))
    && s.ring.shippedThrough <= Held(s)
    && Kept(s.journal, s.lines, Held(s))
    && s.keeper.entries == Newest(s.journal)
    && forall q :: 1 <= q <= Held(s) ==> InJournal(s.journal, q) || SaidLost(s.arrived, q)
  }

  /** What a carried batch brings that is not held: its lines from the first unheld one on. */
  lemma UnheldIsASuffix(log: HiveLog, b: Batch, lines: seq<Line>)
    requires Carries(b, lines)
    ensures var held, first := HeldThrough(log, b.bootId), From(b) + b.dropped + 1;
            var skip := if held < first then 0 else Min(held - first + 1, |b.entries|);
            Unheld(log, b) == b.entries[skip..]
  {
    hide Later;
    var first := From(b) + b.dropped + 1;
    forall i | 0 <= i < |b.entries|
      ensures b.entries[i].sequence == first + i
    {
      assert IsLine(b.entries[i], lines, From(b) + b.dropped + i);
    }
    LaterIsASuffix(b.entries, first, HeldThrough(log, b.bootId));
  }

  function Larger(a: nat, b: int): nat {
    if a < b then b else a
  }

  /** What an arrival does to the figures, whatever was held before. */
  lemma ArrivalCounts(s: State, i: nat, now: int)
    requires Inv(s) && i < |s.sent|
    ensures var b, t := s.sent[i], Do(s, Arrives(i, now));
            && SentOk(s, b) && 0 <= From(b) < To(b) && To(b) == From(b) + b.dropped + |b.entries|
            && Held(t) == Larger(Held(s), To(b))
            && t.keeper.dropped == s.keeper.dropped + b.dropped
            && |t.journal| + Held(s) + b.dropped == |s.journal| + Held(t) + Min(b.dropped, Held(s) - From(b))
  {
    hide Later, PushedAll, Recorded;
    var b := s.sent[i];
    assert SentOk(s, b);
    Spans(b, s.lines);
    UnheldIsASuffix(s.keeper, b, s.lines);
    LastCarried(b, s.lines);
  }

  lemma LastCarried(b: Batch, lines: seq<Line>)
    requires Carries(b, lines)
    ensures forall i :: 0 <= i < |b.entries| ==> b.entries[i].sequence == From(b) + b.dropped + i + 1
  {
    forall i | 0 <= i < |b.entries|
      ensures b.entries[i].sequence == From(b) + b.dropped + i + 1
    {
      assert IsLine(b.entries[i], lines, From(b) + b.dropped + i);
    }
  }

  /** The lines of a batch not yet held rise from past what is held, each as it was recorded. */
  lemma UnheldAreLater(log: HiveLog, b: Batch, lines: seq<Line>)
    requires Carries(b, lines)
    ensures var unheld := Unheld(log, b);
            && (forall i, j :: 0 <= i < j < |unheld| ==> unheld[i].sequence < unheld[j].sequence)
            && forall i :: 0 <= i < |unheld| ==>
                 unheld[i].sequence > HeldThrough(log, b.bootId) && IsLine(unheld[i], lines, unheld[i].sequence - 1)
  {
    hide Later, Clip;
    UnheldIsASuffix(log, b, lines);
    LastCarried(b, lines);
    var unheld := Unheld(log, b);
    var skip := |b.entries| - |unheld|;
    forall k | 0 <= k < |unheld|
      ensures unheld[k].sequence == From(b) + b.dropped + skip + k + 1
      ensures unheld[k].sequence > HeldThrough(log, b.bootId) && IsLine(unheld[k], lines, unheld[k].sequence - 1)
    {
      assert unheld[k] == b.entries[skip + k];
      assert IsLine(b.entries[skip + k], lines, From(b) + b.dropped + skip + k);
    }
  }

  /** New lines go after those kept, and are kept as they were recorded. */
  lemma ArrivalKeeps(s: State, i: nat, now: int)
    requires Inv(s) && i < |s.sent|
    ensures var t := Do(s, Arrives(i, now)); Kept(t.journal, s.lines, Held(t))
  {
    hide Unheld, PushedAll, Kept, Carries, Holds;
    var b := s.sent[i];
    assert SentOk(s, b);
    UnheldAreLater(s.keeper, b, s.lines);
    JoinedKept(s.journal, Unheld(s.keeper, b), s.lines, Held(s), Held(Do(s, Arrives(i, now))));
  }

  lemma JoinedKept(journal: seq<Entry>, more: seq<Entry>, lines: seq<Line>, through: nat, through': nat)
    requires Kept(journal, lines, through)
    requires forall i, j :: 0 <= i < j < |more| ==> more[i].sequence < more[j].sequence
    requires forall i :: 0 <= i < |more| ==> more[i].sequence > through && IsLine(more[i], lines, more[i].sequence - 1)
    requires through' == if more == [] then through else more[|more| - 1].sequence
    ensures Kept(journal + more, lines, through')
  {
    forall i | 0 <= i < |journal|
      ensures journal[i].sequence <= through
    {
      assert i < |journal| - 1 ==> journal[i].sequence < journal[|journal| - 1].sequence;
    }
  }

  /** Every line newly held is among those kept or counted by the batch as lost. */
  lemma ArrivalCovers(s: State, i: nat, now: int, q: nat)
    requires Inv(s) && i < |s.sent| && 1 <= q <= Held(Do(s, Arrives(i, now)))
    ensures var t := Do(s, Arrives(i, now)); InJournal(t.journal, q) || SaidLost(t.arrived, q)
  {
    hide Later, PushedAll, Kept;
    var b, t := s.sent[i], Do(s, Arrives(i, now));
    ArrivalCounts(s, i, now);
    if q <= Held(s) {
      if InJournal(s.journal, q) {
        var e :| e in s.journal && e.sequence == q;
        assert e in t.journal;
      } else {
        var c :| c in s.arrived && c.entries != [] && From(c) < q <= From(c) + c.dropped;
        assert c in t.arrived;
      }
    } else if q <= From(b) + b.dropped {
      assert b in t.arrived;
    } else {
      UnheldIsASuffix(s.keeper, b, s.lines);
      LastCarried(b, s.lines);
      var e := b.entries[q - From(b) - b.dropped - 1];
      assert e in Unheld(s.keeper, b);
      assert e in t.journal;
    }
  }

  lemma StepKeepsInv(s: State, step: Step)
    requires Inv(s)
    ensures Inv(Do(s, step))
  {
    hide Inv, Pending, Recorded, Accepted, Unheld, Shipped, Held;
    match step
    case Records(line) => RecordKeepsInv(s, line);
    case Begins => BeginKeepsInv(s);
    case Arrives(i, now) =>
      if i < |s.sent| {
        ArrivalKeepsInv(s, i, now);
      }
    case Hears(i) => HearKeepsInv(s, i);
  }

  lemma BeginKeepsInv(s: State)
    requires Inv(s)
    ensures Inv(Do(s, Begins))
  {
    hide Pending, Validate, InJournal, SaidLost, Newest, Kept;
    BatchCoversTheGap(s.bootId, s.ring, s.lines);
  }

  lemma HearKeepsInv(s: State, i: nat)
    requires Inv(s)
    ensures Inv(Do(s, Hears(i)))
  {
    hide InJournal, SaidLost, Newest, Kept, Clip;
    if i < |s.arrived| {
      assert s.arrived[i] in s.sent && SentOk(s, s.arrived[i]);
      Spans(s.arrived[i], s.lines);
    }
  }

  lemma RecordKeepsInv(s: State, line: Line)
    requires Inv(s)
    ensures Inv(Do(s, Records(line)))
  {
    RecordHolds(s.ring, s.lines, line);
    KeptOn(s.journal, s.lines, Held(s), line);
    hide IsLine, Carries, Holds, Kept, InJournal, SaidLost, Newest, Held;
    forall b | b in s.sent
      ensures SentOk(Do(s, Records(line)), b)
    {
      assert SentOk(s, b);
      CarriesOn(b, s.lines, line);
    }
  }

  lemma KeptOn(journal: seq<Entry>, lines: seq<Line>, through: nat, line: Line)
    requires Kept(journal, lines, through)
    ensures Kept(journal, lines + [line], through)
  {
    hide Clip;
  }

  lemma ArrivalKeepsInv(s: State, i: nat, now: int)
    requires Inv(s) && i < |s.sent|
    ensures Inv(Do(s, Arrives(i, now)))
  {
    hide Later, Kept, InJournal, SaidLost, Newest;
    var t := Do(s, Arrives(i, now));
    ArrivalCounts(s, i, now);
    ArrivalKeeps(s, i, now);
    PushedAreNewest(s.journal, Unheld(s.keeper, s.sent[i]));
    forall q | 1 <= q <= Held(t)
      ensures InJournal(t.journal, q) || SaidLost(t.arrived, q)
    {
      ArrivalCovers(s, i, now, q);
    }
  }

  lemma {:induction false} ScheduleKeepsInv(s: State, steps: seq<Step>)
    requires Inv(s)
    ensures Inv(After(s, steps))
    decreases |steps|
  {
    if steps != [] {
      hide Inv, Do;
      StepKeepsInv(s, steps[0]);
      ScheduleKeepsInv(Do(s, steps[0]), steps[1..]);
    }
  }

  // -------------------------------------------------- kept once, or said lost

  /**
   However passes overlap, batches arrive late or twice, and answers are lost: the
   Keeper's journal has each line at most once, in order and as it was recorded; its
   view is the newest of those; and every line up to the Hive's mark, and as far as
   the Keeper has heard, is in the journal or was counted as lost by a batch.
   */
  lemma EveryLineIsKeptOrSaidLost(bootId: Bytes, steps: seq<Step>, q: nat)
    requires 0 < |bootId| <= MAX_BOOT_ID_BYTES
    ensures var s := After(Start(bootId), steps);
            && Kept(s.journal, s.lines, Held(s))
            && s.keeper.entries == Newest(s.journal)
            && s.ring.shippedThrough <= Held(s)
            && (1 <= q <= Held(s) ==> InJournal(s.journal, q) || SaidLost(s.arrived, q))
  {
    assert Inv(Start(bootId));
    ScheduleKeepsInv(Start(bootId), steps);
    hide After;
  }

  // ------------------------------------------------------- counting the losses

  function Numbers(n: nat): set<nat> {
    if n == 0 then {} else Numbers(n - 1) + {n}
  }

  function Sequences(journal: seq<Entry>): set<nat> {
    set e | e in journal :: e.sequence
  }

  /** The lines of this run the Keeper has heard past and does not have. */
  function Lost(s: State): set<nat> {
    Numbers(Held(s)) - Sequences(s.journal)
  }

  lemma {:induction false} NumbersAre(n: nat)
    ensures |Numbers(n)| == n
    ensures forall q :: q in Numbers(n) <==> 1 <= q <= n
  {
    if n > 0 {
      NumbersAre(n - 1);
    }
  }

  lemma {:induction false} SequencesAre(journal: seq<Entry>)
    requires forall i, j :: 0 <= i < j < |journal| ==> journal[i].sequence < journal[j].sequence
    ensures |Sequences(journal)| == |journal|
  {
    if journal != [] {
      var init, last := journal[..|journal| - 1], journal[|journal| - 1];
      SequencesAre(init);
      assert journal == init + [last];
      SequencesOfOneMore(init, last);
    }
  }

  lemma SequencesOfOneMore(journal: seq<Entry>, e: Entry)
    requires forall i :: 0 <= i < |journal| ==> journal[i].sequence < e.sequence
    ensures Sequences(journal + [e]) == Sequences(journal) + {e.sequence} && e.sequence !in Sequences(journal)
  {
    assert forall f :: f in journal + [e] <==> f in journal || f == e;
  }

  lemma LostAre(s: State)
    requires Inv(s)
    ensures |Lost(s)| + |s.journal| == Held(s)
  {
    hide Numbers, Sequences, Kept;
    NumbersAre(Held(s));
    assert |Sequences(s.journal)| == |s.journal| by { KeptRises(s.journal, s.lines, Held(s)); SequencesAre(s.journal); }
    KeptWithin(s.journal, s.lines, Held(s));
    assert Numbers(Held(s)) == Lost(s) + Sequences(s.journal);
  }

  lemma KeptRises(journal: seq<Entry>, lines: seq<Line>, through: nat)
    requires Kept(journal, lines, through)
    ensures forall i, j :: 0 <= i < j < |journal| ==> journal[i].sequence < journal[j].sequence
  {
  }

  lemma KeptWithin(journal: seq<Entry>, lines: seq<Line>, through: nat)
    requires Kept(journal, lines, through)
    ensures Sequences(journal) <= Numbers(through)
  {
    hide Numbers;
    NumbersAre(through);
    forall q | q in Sequences(journal)
      ensures q in Numbers(through)
    {
      var i :| 0 <= i < |journal| && journal[i].sequence == q;
      assert IsLine(journal[i], lines, q - 1);
      assert i < |journal| - 1 ==> q < journal[|journal| - 1].sequence;
    }
  }

  /** The batch lost nothing, or its gap starts just past what the Keeper holds. */
  predicate ExactStep(s: State, step: Step) {
    step.Arrives? && step.i < |s.sent| && s.sent[step.i].entries != []
    ==> s.sent[step.i].dropped == 0 || From(s.sent[step.i]) == Held(s)
  }

  predicate AllExact(s: State, steps: seq<Step>)
    decreases |steps|
  {
    steps == [] || (ExactStep(s, steps[0]) && AllExact(Do(s, steps[0]), steps[1..]))
  }

  /** By how much the Keeper's count of lost lines passes what it lost. */
  function Overcount(s: State): int {
    s.keeper.dropped + |s.journal| - Held(s)
  }

  lemma StepCounts(s: State, step: Step)
    requires Inv(s)
    ensures Overcount(Do(s, step)) >= Overcount(s)
    ensures Overcount(Do(s, step)) == Overcount(s) <==> ExactStep(s, step)
  {
    hide Pending, Recorded, Unheld, PushedAll, Kept, InJournal, SaidLost, Newest, Carries, Holds;
    if step.Arrives? && step.i < |s.sent| {
      ArrivalCounts(s, step.i, step.now);
      assert s.sent[step.i].entries != [] by { assert SentOk(s, s.sent[step.i]); CarriesSome(s.sent[step.i], s.lines); }
    }
  }

  lemma CarriesSome(b: Batch, lines: seq<Line>)
    requires Carries(b, lines)
    ensures b.entries != []
  {
  }

  lemma {:induction false} RunCounts(s: State, steps: seq<Step>)
    requires Inv(s)
    ensures Overcount(After(s, steps)) >= Overcount(s)
    ensures Overcount(After(s, steps)) == Overcount(s) <==> AllExact(s, steps)
    decreases |steps|
  {
    if steps != [] {
      hide Inv, Do, Overcount, ExactStep;
      StepKeepsInv(s, steps[0]);
      StepCounts(s, steps[0]);
      RunCounts(Do(s, steps[0]), steps[1..]);
    }
  }

  /**
   The Keeper adds up what batches say was lost without asking whether it was. Over
   any run its count is never short of the lines it lost, and is exactly their number
   when and only when every batch that arrived with losses had a gap that starts just
   past what was held.
   */
  lemma LossesAreExactExactlyWhen(bootId: Bytes, steps: seq<Step>)
    requires 0 < |bootId| <= MAX_BOOT_ID_BYTES
    ensures var s := After(Start(bootId), steps);
            && s.keeper.dropped >= |Lost(s)|
            && (s.keeper.dropped == |Lost(s)| <==> AllExact(Start(bootId), steps))
  {
    assert Inv(Start(bootId));
    ScheduleKeepsInv(Start(bootId), steps);
    RunCounts(Start(bootId), steps);
    LostAre(After(Start(bootId), steps));
    hide After, Inv, Lost, AllExact;
  }

  // --------------------------------------------------- where the count is wrong

  function Many(line: Line, count: nat): seq<Step> {
    if count == 0 then [] else [Records(line)] + Many(line, count - 1)
  }

  lemma {:induction false} AfterBoth(s: State, a: seq<Step>, b: seq<Step>)
    ensures After(s, a + b) == After(After(s, a), b)
    decreases |a|
  {
    if a == [] {
      assert a + b == b;
    } else {
      AfterBoth(Do(s, a[0]), a[1..], b);
      assert (a + b)[1..] == a[1..] + b;
    }
  }

  /** Recording changes nothing but the ring and the lines. */
  lemma {:induction false} AfterMany(s: State, line: Line, count: nat)
    ensures var t := After(s, Many(line, count));
            && |t.lines| == |s.lines| + count
            && t == s.(ring := t.ring, lines := t.lines)
            && t.ring.shippedThrough == s.ring.shippedThrough
    decreases count
  {
    if count > 0 {
      assert Many(line, count)[1..] == Many(line, count - 1);
      AfterMany(Do(s, Records(line)), line, count - 1);
    }
  }

  lemma AfterTwo(s: State, a: Step, b: Step)
    ensures After(s, [a, b]) == Do(Do(s, a), b)
  {
    assert [a, b][1..] == [b];
    AfterOne(Do(s, a), b);
  }

  lemma AfterOne(s: State, a: Step)
    ensures After(s, [a]) == Do(s, a)
  {
    assert [a][1..] == [];
  }

  /** What a pass sends from a ring that has lost this many unshipped lines. */
  lemma PassSends(s: State)
    requires Inv(s) && s.ring.shippedThrough < |s.lines|
    ensures var t := Do(s, Begins);
            && |t.sent| == |s.sent| + 1 && t == s.(sent := s.sent + [t.sent[|s.sent|]])
            && var b := t.sent[|s.sent|];
               && b.entries != [] && From(b) == s.ring.shippedThrough && To(b) == From(b) + b.dropped + |b.entries|
               && b.dropped == Evicted(s.lines, s.ring.shippedThrough)
               && |b.entries| == Min(|s.lines| - From(b) - b.dropped, MAX_BATCH_ENTRIES)
  {
    BatchCoversTheGap(s.bootId, s.ring, s.lines);
    hide Pending, Validate, Evicted, Clip;
    var b := Pending(s.bootId, s.ring).value;
    Spans(b, s.lines);
  }

  /**
   A line is kept and counted as lost: one pass carries it, and another, begun from
   the same mark after it fell out of the ring, reports it lost.
   */
  lemma KeptLineCountedAsLost(bootId: Bytes, line: Line)
    requires 0 < |bootId| <= MAX_BOOT_ID_BYTES
    ensures var s := After(Start(bootId), [Records(line), Begins] + Many(line, CAPACITY) + [Begins]
                                          + [Arrives(0, 0), Arrives(1, 0)]);
            s.keeper.dropped == 1 && Lost(s) == {}
  {
    hide After, Do, Inv, Many, Lost;
    var s0 := Start(bootId);
    assert Inv(s0) by { StartIsInv(bootId); }
    var s1 := Do(Do(s0, Records(line)), Begins);
    AfterTwo(s0, Records(line), Begins);
    StepKeepsInv(s0, Records(line));
    OneRecorded(s0, line);
    PassSends(Do(s0, Records(line)));
    StepKeepsInv(Do(s0, Records(line)), Begins);
    var s2 := After(s1, Many(line, CAPACITY));
    AfterMany(s1, line, CAPACITY);
    ScheduleKeepsInv(s1, Many(line, CAPACITY));
    var s3 := Do(s2, Begins);
    AfterOne(s2, Begins);
    PassSends(s2);
    StepKeepsInv(s2, Begins);
    var s4 := Do(s3, Arrives(0, 0));
    ArrivalCounts(s3, 0, 0);
    StepKeepsInv(s3, Arrives(0, 0));
    ArrivalLeaves(s3, 0, 0);
    var s5 := Do(s4, Arrives(1, 0));
    ArrivalCounts(s4, 1, 0);
    StepKeepsInv(s4, Arrives(1, 0));
    AfterTwo(s3, Arrives(0, 0), Arrives(1, 0));
    LostAre(s5);
    AfterBoth(s0, [Records(line), Begins], Many(line, CAPACITY));
    AfterBoth(s0, [Records(line), Begins] + Many(line, CAPACITY), [Begins]);
    AfterBoth(s0, [Records(line), Begins] + Many(line, CAPACITY) + [Begins], [Arrives(0, 0), Arrives(1, 0)]);
  }

  lemma StartIsInv(bootId: Bytes)
    requires 0 < |bootId| <= MAX_BOOT_ID_BYTES
    ensures Inv(Start(bootId))
  {
  }

  lemma OneRecorded(s: State, line: Line)
    ensures var t := Do(s, Records(line));
            && |t.lines| == |s.lines| + 1 && t == s.(ring := t.ring, lines := t.lines)
            && t.ring.shippedThrough == s.ring.shippedThrough
  {
  }

  lemma ArrivalLeaves(s: State, i: nat, now: int)
    ensures var t := Do(s, Arrives(i, now));
            t == s.(keeper := t.keeper, journal := t.journal, arrived := t.arrived)
  {
  }

  /** One line lost is counted as two when the first answer is lost and the next pass reports it again. */
  lemma LossCountedTwice(bootId: Bytes, line: Line)
    requires 0 < |bootId| <= MAX_BOOT_ID_BYTES
    ensures var s := After(Start(bootId), Many(line, CAPACITY + 1) + [Begins, Arrives(0, 0)] + [Begins, Arrives(1, 0)]);
            s.keeper.dropped == 2 && |Lost(s)| == 1
  {
    hide After, Do, Inv, Many, Lost;
    var s0 := Start(bootId);
    assert Inv(s0) by { StartIsInv(bootId); }
    var s1 := After(s0, Many(line, CAPACITY + 1));
    AfterMany(s0, line, CAPACITY + 1);
    ScheduleKeepsInv(s0, Many(line, CAPACITY + 1));
    var s2 := Do(s1, Begins);
    PassSends(s1);
    StepKeepsInv(s1, Begins);
    var s3 := Do(s2, Arrives(0, 0));
    ArrivalCounts(s2, 0, 0);
    ArrivalLeaves(s2, 0, 0);
    StepKeepsInv(s2, Arrives(0, 0));
    AfterTwo(s1, Begins, Arrives(0, 0));
    var s4 := Do(s3, Begins);
    PassSends(s3);
    StepKeepsInv(s3, Begins);
    var s5 := Do(s4, Arrives(1, 0));
    ArrivalCounts(s4, 1, 0);
    StepKeepsInv(s4, Arrives(1, 0));
    AfterTwo(s3, Begins, Arrives(1, 0));
    LostAre(s5);
    AfterBoth(s0, Many(line, CAPACITY + 1), [Begins, Arrives(0, 0)]);
    AfterBoth(s0, Many(line, CAPACITY + 1) + [Begins, Arrives(0, 0)], [Begins, Arrives(1, 0)]);
  }

  // ----------------------------------------------------- one batch at a time

  /** Each batch starts where the one before it ended. */
  ghost predicate Tiles(batches: seq<Batch>, through: nat) {
    && (forall b :: b in batches ==> b.entries != [])
    && (batches == [] ==> through == 0)
    && (batches != [] ==> From(batches[0]) == 0 && To(batches[|batches| - 1]) == through)
    && forall k :: 0 < k < |batches| ==> From(batches[k]) == To(batches[k - 1])
  }

  /**
   A pass begins only once every arrival was heard of, only the last batch sent
   arrives, and once, and only its answer is heard.
   */
  predicate OrderlyStep(s: State, step: Step) {
    match step
    case Records(_) => true
    case Begins => s.accepted == s.arrived
    case Arrives(i, _) => s.accepted == s.arrived && i + 1 == |s.sent| && s.sent[i] !in s.arrived
    case Hears(i) => i + 1 == |s.arrived| && |s.accepted| + 1 == |s.arrived|
  }

  predicate OneAtATime(s: State, steps: seq<Step>)
    decreases |steps|
  {
    steps == [] || (OrderlyStep(s, steps[0]) && OneAtATime(Do(s, steps[0]), steps[1..]))
  }

  /** Where an orderly run stands: between passes, or with one arrival not yet heard of. */
  ghost predicate Orderly(s: State) {
    && Tiles(s.accepted, s.ring.shippedThrough)
    && |s.accepted| <= |s.arrived| <= |s.accepted| + 1
    && s.arrived[..|s.accepted|] == s.accepted
    && (s.sent != [] ==>
          var last := s.sent[|s.sent| - 1];
          last.entries != [] && (last in s.arrived || From(last) == s.ring.shippedThrough))
    && (if s.accepted == s.arrived then Held(s) == s.ring.shippedThrough
        else
          var b := s.arrived[|s.accepted|];
          && b.entries != [] && From(b) == s.ring.shippedThrough && To(b) == Held(s)
          && s.sent != [] && s.sent[|s.sent| - 1] in s.arrived)
  }

  lemma OrderlyStepKeeps(s: State, step: Step)
    requires Inv(s) && Orderly(s) && OrderlyStep(s, step)
    ensures Orderly(Do(s, step)) && ExactStep(s, step)
  {
    match step
    case Records(line) =>
      hide Inv, Recorded, Tiles;
      OneRecorded(s, line);
    case Begins => OrderlyBegins(s);
    case Arrives(i, now) => OrderlyArrives(s, i, now);
    case Hears(i) => OrderlyHears(s, i);
  }

  lemma OrderlyBegins(s: State)
    requires Inv(s) && Orderly(s) && OrderlyStep(s, Begins)
    ensures Orderly(Do(s, Begins))
  {
    BatchCoversTheGap(s.bootId, s.ring, s.lines);
    hide Pending, Holds, Kept, Tiles, Carries, Validate, Inv;
  }

  lemma OrderlyArrives(s: State, i: nat, now: int)
    requires Inv(s) && Orderly(s) && OrderlyStep(s, Arrives(i, now))
    ensures Orderly(Do(s, Arrives(i, now))) && ExactStep(s, Arrives(i, now))
  {
    ArrivalCounts(s, i, now);
    hide Inv, Kept, Tiles, Unheld, Accepted, Carries;
    assert s.arrived[..|s.accepted|] == s.arrived;
    assert Do(s, Arrives(i, now)).arrived[..|s.accepted|] == s.accepted;
  }

  lemma OrderlyHears(s: State, i: nat)
    requires Inv(s) && Orderly(s) && OrderlyStep(s, Hears(i))
    ensures Orderly(Do(s, Hears(i)))
  {
    var b := s.arrived[i];
    HeardIsLater(s, i);
    HearingMarks(s, i);
    TilesOneMore(s.accepted, s.ring.shippedThrough, b);
    hide Inv, Tiles, To, From, HeldThrough, Do, Shipped;
    var t := Do(s, Hears(i));
    AllHeard(s.arrived, s.accepted);
    assert t.accepted == t.arrived;
  }

  lemma HeardIsLater(s: State, i: nat)
    requires Inv(s) && i < |s.arrived|
    ensures s.arrived[i].entries != [] && From(s.arrived[i]) < To(s.arrived[i])
  {
    assert s.arrived[i] in s.sent && SentOk(s, s.arrived[i]);
    Spans(s.arrived[i], s.lines);
  }

  lemma AllHeard(arrived: seq<Batch>, accepted: seq<Batch>)
    requires |arrived| == |accepted| + 1 && arrived[..|accepted|] == accepted
    ensures accepted + [arrived[|accepted|]] == arrived && arrived[..|arrived|] == arrived
  {
  }

  lemma TilesOneMore(batches: seq<Batch>, through: nat, b: Batch)
    requires Tiles(batches, through) && b.entries != [] && From(b) == through
    ensures To(b) >= 0 && Tiles(batches + [b], To(b))
  {
  }

  lemma {:induction false} OrderlyRun(s: State, steps: seq<Step>)
    requires Inv(s) && Orderly(s) && OneAtATime(s, steps)
    ensures Orderly(After(s, steps)) && AllExact(s, steps)
    decreases |steps|
  {
    if steps != [] {
      hide Inv, Do, Orderly, OrderlyStep, ExactStep;
      StepKeepsInv(s, steps[0]);
      OrderlyStepKeeps(s, steps[0]);
      OrderlyRun(Do(s, steps[0]), steps[1..]);
    }
  }

  /** Everything batches account for, lines carried and lines said to be lost. */
  function Counted(batches: seq<Batch>): nat {
    if batches == [] then 0
    else Counted(batches[..|batches| - 1]) + |batches[|batches| - 1].entries| + batches[|batches| - 1].dropped
  }

  lemma {:induction false} TiledAreCounted(batches: seq<Batch>, lines: seq<Line>, through: nat)
    requires Tiles(batches, through) && forall b :: b in batches ==> Carries(b, lines)
    ensures Counted(batches) == through
  {
    if batches != [] {
      var init, last := batches[..|batches| - 1], batches[|batches| - 1];
      Spans(last, lines);
      assert init != [] ==> From(last) == To(init[|init| - 1]);
      TiledAreCounted(init, lines, From(last));
    }
  }

  /**
   With one batch on its way at a time, each of which is answered before the next,
   shipping conserves lines: accepted batches follow one another without overlap or
   gap up to the mark, the mark is the sum of what they carry and say was lost, the
   Keeper's count of losses is exact, and between passes what it kept and what it
   counts as lost are together all the lines there were up to the mark.
   */
  lemma OneAtATimeConservesLines(bootId: Bytes, steps: seq<Step>)
    requires 0 < |bootId| <= MAX_BOOT_ID_BYTES && OneAtATime(Start(bootId), steps)
    ensures var s := After(Start(bootId), steps);
            && Tiles(s.accepted, s.ring.shippedThrough)
            && s.ring.shippedThrough == Counted(s.accepted)
            && s.keeper.dropped == |Lost(s)|
            && (s.accepted == s.arrived ==> s.ring.shippedThrough == |s.journal| + s.keeper.dropped)
  {
    StartIsInv(bootId);
    OrderlyRun(Start(bootId), steps);
    LossesAreExactExactlyWhen(bootId, steps);
    ScheduleKeepsInv(Start(bootId), steps);
    var s := After(Start(bootId), steps);
    hide After, AllExact, OneAtATime, Lost;
    LostAre(s);
    forall b | b in s.accepted
      ensures Carries(b, s.lines)
    {
      AcceptedIsSent(s, b);
    }
    TiledAreCounted(s.accepted, s.lines, s.ring.shippedThrough);
  }

  lemma AcceptedIsSent(s: State, b: Batch)
    requires Inv(s) && Orderly(s) && b in s.accepted
    ensures Carries(b, s.lines)
  {
    assert b in s.arrived[..|s.accepted|];
    assert b in s.arrived && SentOk(s, b);
  }

  /** Two passes that both carry a line, both of them answered: the Keeper keeps it once. */
  lemma OverlappingPassesKeepALineOnce(bootId: Bytes, line: Line)
    requires 0 < |bootId| <= MAX_BOOT_ID_BYTES
    ensures var s := After(Start(bootId), [Records(line), Begins] + [Begins, Arrives(0, 0)] + [Arrives(1, 0), Hears(0)]
                                          + [Hears(1)]);
            |s.journal| == 1 && Lost(s) == {} && s.keeper.dropped == 0 && s.ring.shippedThrough == 1
  {
    hide After, Do, Inv, Lost;
    var s0 := Start(bootId);
    assert Inv(s0) by { StartIsInv(bootId); }
    OneRecorded(s0, line);
    StepKeepsInv(s0, Records(line));
    var s1 := Do(Do(s0, Records(line)), Begins);
    PassSends(Do(s0, Records(line)));
    StepKeepsInv(Do(s0, Records(line)), Begins);
    AfterTwo(s0, Records(line), Begins);
    PassSends(s1);
    StepKeepsInv(s1, Begins);
    var s2 := Do(s1, Begins);
    var s3 := Do(s2, Arrives(0, 0));
    ArrivalCounts(s2, 0, 0);
    ArrivalLeaves(s2, 0, 0);
    StepKeepsInv(s2, Arrives(0, 0));
    AfterTwo(s1, Begins, Arrives(0, 0));
    var s4 := Do(s3, Arrives(1, 0));
    ArrivalCounts(s3, 1, 0);
    ArrivalLeaves(s3, 1, 0);
    StepKeepsInv(s3, Arrives(1, 0));
    BothArrived(s2, 0, 1);
    var s5 := Do(s4, Hears(0));
    HearingMarks(s4, 0);
    AfterTwo(s3, Arrives(1, 0), Hears(0));
    StepKeepsInv(s4, Hears(0));
    HearingMarks(s5, 1);
    AfterOne(s5, Hears(1));
    StepKeepsInv(s5, Hears(1));
    LostAre(Do(s5, Hears(1)));
    AfterBoth(s0, [Records(line), Begins], [Begins, Arrives(0, 0)]);
    AfterBoth(s0, [Records(line), Begins] + [Begins, Arrives(0, 0)], [Arrives(1, 0), Hears(0)]);
    AfterBoth(s0, [Records(line), Begins] + [Begins, Arrives(0, 0)] + [Arrives(1, 0), Hears(0)], [Hears(1)]);
  }

  lemma BothArrived(s: State, i: nat, j: nat)
    requires i < |s.sent| && j < |s.sent| && s.arrived == []
    ensures Do(Do(s, Arrives(i, 0)), Arrives(j, 0)).arrived == [s.sent[i], s.sent[j]]
  {
  }

  lemma HearingMarks(s: State, i: nat)
    requires i < |s.arrived| && s.arrived[i].entries != []
    ensures var t := Do(s, Hears(i));
            && t == s.(ring := t.ring, accepted := t.accepted) && t.accepted == s.accepted + [s.arrived[i]]
            && t.ring.shippedThrough == Larger(s.ring.shippedThrough, To(s.arrived[i]))
  {
  }
}
