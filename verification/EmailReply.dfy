/**
 What a first email reply is written from: the message being answered and what the
 work on it found, within a budget of bytes. Notes are taken as already trimmed,
 so a blank note is an empty one.
 */
module EmailReply {
  import opened Options
  import opened Utf8

  const MAX_CONTEXT_BYTES: nat := 24 * 1024
  const MAX_REPORT_BYTES: nat := 8 * 1024
  const HEADROOM: nat := 128

  datatype Actor = Worker | SomeoneElse
  datatype Kind = StateChanged(review: bool) | Corrected | OtherKind
  datatype Event = Event(actor: Actor, kind: Kind, note: Bytes)

  predicate ByWorker(e: Event) {
    e.actor.Worker? && e.note != []
  }

  predicate IsHandoff(e: Event) {
    ByWorker(e) && e.kind == StateChanged(true)
  }

  predicate IsCorrection(e: Event) {
    ByWorker(e) && e.kind.Corrected?
  }

  /** The position of the last handoff into review. */
  function LastHandoff(events: seq<Event>): (at: Option<nat>)
    ensures at.None? <==> forall e :: e in events ==> !IsHandoff(e)
    ensures at.Some? ==> at.value < |events| && IsHandoff(events[at.value])
                         && forall k :: at.value < k < |events| ==> !IsHandoff(events[k])
  {
    if events == [] then None
    else if IsHandoff(events[|events| - 1]) then Some(|events| - 1)
    else LastHandoff(events[..|events| - 1])
  }

  function Corrections(events: seq<Event>): seq<Bytes> {
    if events == [] then []
    else (if IsCorrection(events[0]) then [events[0].note] else []) + Corrections(events[1..])
  }

  function Join(parts: seq<Bytes>, between: Bytes): Bytes {
    if parts == [] then []
    else if |parts| == 1 then parts[0]
    else parts[0] + between + Join(parts[1..], between)
  }

  function Found(events: seq<Event>): Bytes {
    var at := LastHandoff(events);
    if at.None? then Ascii("Nothing was recorded.")
    else Join([events[at.value].note] + Corrections(events[at.value + 1..]), Ascii("\n\n--- CORRECTION ---\n"))
  }

  const TRUNCATED := Ascii("--- ORIGINAL MESSAGE (truncated) ---\n")
  const COMPLETE := Ascii("--- ORIGINAL MESSAGE ---\n")
  const FINDING := Ascii("\n\n--- WHAT THE WORK FOUND ---\n")

  /** The parts a context is made of. */
  datatype Context = Context(heading: Bytes, fitted: Bytes, report: Bytes)
  {
    function Text(): Bytes {
      heading + fitted + FINDING + report
    }
  }

  function FirstReplyContext(original: Bytes, events: seq<Event>): Context {
    var report := PrefixWithin(Found(events), MAX_REPORT_BYTES);
    var room := if |report| + HEADROOM < MAX_CONTEXT_BYTES then MAX_CONTEXT_BYTES - (|report| + HEADROOM) else 0;
    var fitted := PrefixWithin(original, room);
    Context(if |fitted| < |original| then TRUNCATED else COMPLETE, fitted, report)
  }

  /** The handoff's note, and after it every later correction. */
  method NotesFrom(events: seq<Event>, start: nat) returns (notes: seq<Bytes>)
    requires start < |events|
    ensures notes == [events[start].note] + Corrections(events[start + 1..])
  {
    notes := [events[start].note];
    var later := events[start + 1..];
    var i := 0;
    while i < |later|
      invariant 0 <= i <= |later|
      invariant notes + Corrections(later[i..]) == [events[start].note] + Corrections(later)
    {
      assert later[i..][1..] == later[i + 1..];
      if IsCorrection(later[i]) {
        notes := notes + [later[i].note];
      }
      i := i + 1;
    }
  }

  /** The same computed as the source does. */
  method WriteContext(original: Bytes, events: seq<Event>) returns (text: Bytes)
    ensures text == FirstReplyContext(original, events).Text()
  {
    hide Ascii, Join, LastBoundary, LastHandoff;
    var found := Ascii("Nothing was recorded.");
    var handoff := LastHandoff(events);
    if handoff.Some? {
      var notes := NotesFrom(events, handoff.value);
      found := Join(notes, Ascii("\n\n--- CORRECTION ---\n"));
    }
    var report := CutWithin(found, MAX_REPORT_BYTES);
    var room := 0;
    if |report| + HEADROOM < MAX_CONTEXT_BYTES {
      room := MAX_CONTEXT_BYTES - (|report| + HEADROOM);
    }
    var fitted := CutWithin(original, room);
    var heading := COMPLETE;
    if |fitted| < |original| {
      heading := TRUNCATED;
    }
    text := heading + fitted + FINDING + report;
  }

  // --------------------------------------------------------------- promises

  ghost predicate ValidNotes(events: seq<Event>) {
    forall e :: e in events ==> ValidText(e.note)
  }

  lemma {:induction false} JoinIsValid(parts: seq<Bytes>, between: Bytes)
    requires ValidText(between) && forall p :: p in parts ==> ValidText(p)
    ensures ValidText(Join(parts, between))
  {
    if |parts| > 1 {
      JoinIsValid(parts[1..], between);
      ValidConcatenation(parts[0], between);
      ValidConcatenation(parts[0] + between, Join(parts[1..], between));
    }
  }

  lemma {:induction false} CorrectionsAreNotes(events: seq<Event>, note: Bytes)
    ensures note in Corrections(events) <==>
              note != [] && exists e :: e in events && e.actor.Worker? && e.kind.Corrected? && e.note == note
  {
    if events != [] {
      CorrectionsAreNotes(events[1..], note);
    }
  }

  lemma FoundIsValid(events: seq<Event>)
    requires ValidNotes(events)
    ensures ValidText(Found(events))
  {
    AsciiIsValid("Nothing was recorded.");
    AsciiIsValid("\n\n--- CORRECTION ---\n");
    var at := LastHandoff(events);
    if at.Some? {
      var notes := [events[at.value].note] + Corrections(events[at.value + 1..]);
      forall p | p in notes
        ensures ValidText(p)
      {
        CorrectionsAreNotes(events[at.value + 1..], p);
        assert forall e :: e in events[at.value + 1..] ==> e in events;
      }
      JoinIsValid(notes, Ascii("\n\n--- CORRECTION ---\n"));
    }
  }

  /** Whatever was written in and recorded, the context is within its budget of bytes. */
  lemma ContextFits(original: Bytes, events: seq<Event>)
    ensures |FirstReplyContext(original, events).Text()| <= 24 * 1024
  {
    assert |TRUNCATED| == 37 && |COMPLETE| == 25 && |FINDING| == 30;
  }

  /**
   The context is valid text that ends with the whole report, cut to its own bound
   and no further. The original gives way instead: it is the longest prefix that
   still fits, and the heading says "(truncated)" exactly when it was cut, which
   never happens to an original within what the largest report leaves.
   */
  lemma ContextKeepsTheReport(original: Bytes, events: seq<Event>)
    requires ValidText(original) && ValidNotes(events)
    ensures var c := FirstReplyContext(original, events);
            && ValidText(c.Text())
            && c.Text() == (if c.fitted == original then Ascii("--- ORIGINAL MESSAGE ---\n")
                            else Ascii("--- ORIGINAL MESSAGE (truncated) ---\n"))
                           + c.fitted + Ascii("\n\n--- WHAT THE WORK FOUND ---\n") + c.report
            && c.report == PrefixWithin(Found(events), 8 * 1024)
            && (|Found(events)| <= 8 * 1024 ==> c.report == Found(events))
            && c.fitted <= original
            && (|original| + |c.report| + 128 <= 24 * 1024 ==> c.fitted == original)
            && (c.fitted != original ==> 24 * 1024 - 3 <= |c.fitted| + |c.report| + 128 <= 24 * 1024)
  {
    var c := FirstReplyContext(original, events);
    FoundIsValid(events);
    PrefixWithinIsLongest(Found(events), MAX_REPORT_BYTES);
    PrefixWithinIsLongest(original, MAX_CONTEXT_BYTES - (|c.report| + HEADROOM));
    AsciiIsValid("--- ORIGINAL MESSAGE (truncated) ---\n");
    AsciiIsValid("--- ORIGINAL MESSAGE ---\n");
    AsciiIsValid("\n\n--- WHAT THE WORK FOUND ---\n");
    ValidConcatenation(c.heading, c.fitted);
    ValidConcatenation(c.heading + c.fitted, FINDING);
    ValidConcatenation(c.heading + c.fitted + FINDING, c.report);
    assert |TRUNCATED| != |COMPLETE|;
  }

  /** A note by the worker that moves the work into review. */
  ghost predicate HandsOver(e: Event) {
    e.actor == Worker && e.note != [] && e.kind == StateChanged(true)
  }

  /** Nothing before the latest handoff, and nobody else's note, changes the report. */
  lemma ReportIsTheLatestHandoff(earlier: seq<Event>, handoff: Event, later: seq<Event>)
    requires HandsOver(handoff) && forall e :: e in later ==> !HandsOver(e)
    ensures Found(earlier + [handoff] + later)
         == Join([handoff.note] + Corrections(later), Ascii("\n\n--- CORRECTION ---\n"))
  {
    hide Ascii, Join, Corrections;
    var events := earlier + [handoff] + later;
    assert forall e :: HandsOver(e) <==> IsHandoff(e);
    hide IsHandoff, HandsOver;
    assert events[|earlier|] == handoff;
    assert events[|earlier| + 1..] == later;
    forall i | |earlier| < i < |events|
      ensures !IsHandoff(events[i])
    {
      assert events[i] == later[i - |earlier| - 1];
    }
    LastIsAt(events, |earlier|);
  }

  lemma LastIsAt(events: seq<Event>, k: nat)
    requires k < |events| && IsHandoff(events[k]) && forall i :: k < i < |events| ==> !IsHandoff(events[i])
    ensures LastHandoff(events) == Some(k)
  {
    hide IsHandoff;
    assert events[k] in events;
  }

  lemma NoHandoffNoReport(events: seq<Event>)
    requires forall e :: e in events ==> !HandsOver(e)
    ensures Found(events) == Ascii("Nothing was recorded.")
  {
    var at := LastHandoff(events);
  }

  function NoteOf(e: Event): seq<Bytes> {
    if IsCorrection(e) then [e.note] else []
  }

  lemma CorrectionsStep(e: Event, rest: seq<Event>)
    ensures Corrections([e] + rest) == NoteOf(e) + Corrections(rest)
  {
    assert ([e] + rest)[1..] == rest;
  }

  /** Corrections come in the order they were made. */
  lemma {:induction false} CorrectionsKeepTheirOrder(earlier: seq<Event>, later: seq<Event>)
    ensures Corrections(earlier + later) == Corrections(earlier) + Corrections(later)
  {
    if earlier == [] {
      assert earlier + later == later;
    } else {
      var first, rest := earlier[0], earlier[1..];
      CorrectionsKeepTheirOrder(rest, later);
      hide *;
      assert earlier == [first] + rest;
      Regrouped([first], rest, later);
      CorrectionsStep(first, rest);
      CorrectionsStep(first, rest + later);
      Regrouped(NoteOf(first), Corrections(rest), Corrections(later));
    }
  }

  lemma Regrouped<T>(a: seq<T>, b: seq<T>, c: seq<T>)
    ensures a + (b + c) == a + b + c
  {
  }

  lemma {:induction false} OthersNotesAreLeftOut(later: seq<Event>, other: Event, rest: seq<Event>)
    requires !(other.actor == Worker && other.kind == Corrected && other.note != [])
    ensures Corrections(later + [other] + rest) == Corrections(later + rest)
  {
    if later == [] {
      assert later + [other] + rest == [other] + rest && later + rest == rest;
    } else {
      OthersNotesAreLeftOut(later[1..], other, rest);
      assert (later + [other] + rest)[1..] == later[1..] + [other] + rest;
      assert (later + rest)[1..] == later[1..] + rest;
    }
  }

  lemma {:induction false} JoinOneMore(parts: seq<Bytes>, between: Bytes, last: Bytes)
    requires parts != []
    ensures Join(parts + [last], between) == Join(parts, between) + between + last
  {
    assert (parts + [last])[1..] == parts[1..] + [last];
    if |parts| > 1 {
      JoinOneMore(parts[1..], between, last);
    }
  }

  /**
   What one more event does to the report: a handoff by the worker with a note takes its
   place; a correction by the worker with a note is appended to one that was handed
   over; anything else, or anybody else's, leaves it as it was.
   */
  lemma ReportFollowsTheHistory(events: seq<Event>, e: Event)
    ensures var handed := exists h :: h in events && HandsOver(h);
            Found(events + [e])
            == if HandsOver(e) then e.note
               else if handed && e.actor == Worker && e.kind == Corrected && e.note != []
               then Found(events) + Ascii("\n\n--- CORRECTION ---\n") + e.note
               else Found(events)
  {
    hide Ascii, Found;
    forall h
      ensures HandsOver(h) <==> IsHandoff(h)
    {
    }
    assert Found(events) + [] == Found(events);
    if IsHandoff(e) {
      hide *;
      HandoffReplaces(events, e);
    } else if exists h :: h in events && IsHandoff(h) {
      hide IsHandoff, HandsOver;
      NoteIsAppended(events, e);
    } else {
      hide *;
      StillNothing(events, e);
    }
  }

  lemma HandoffReplaces(events: seq<Event>, e: Event)
    requires IsHandoff(e)
    ensures Found(events + [e]) == e.note
  {
    hide Ascii, Join, Corrections;
    var all := events + [e];
    assert all[|events|] == e && all[|events| + 1..] == [];
    LastIsAt(all, |events|);
    JoinOfOne(e.note);
  }

  lemma NoteIsAppended(events: seq<Event>, e: Event)
    requires !IsHandoff(e) && exists h :: h in events && IsHandoff(h)
    ensures Found(events + [e])
            == Found(events) + if IsCorrection(e) then Ascii("\n\n--- CORRECTION ---\n") + e.note else []
  {
    hide Ascii, Join, Corrections, IsHandoff, IsCorrection;
    var all, k := events + [e], LastHandoff(events).value;
    assert forall i :: 0 <= i < |events| ==> all[i] == events[i];
    LastIsAt(all, k);
    assert all[k + 1..] == events[k + 1..] + [e] && all[k] == events[k];
    hide LastHandoff;
    OneMoreNote(events[k].note, events[k + 1..], e, Ascii("\n\n--- CORRECTION ---\n"));
  }

  lemma StillNothing(events: seq<Event>, e: Event)
    requires !IsHandoff(e) && forall h :: h in events ==> !IsHandoff(h)
    ensures Found(events + [e]) == Found(events)
  {
    NoneIn(events);
    NoneIn(events + [e]);
  }

  lemma OneMoreNote(note: Bytes, later: seq<Event>, e: Event, between: Bytes)
    ensures Join([note] + Corrections(later + [e]), between)
            == Join([note] + Corrections(later), between) + if IsCorrection(e) then between + e.note else []
  {
    hide Join, Corrections;
    CorrectionsOfOne(e);
    CorrectionsKeepTheirOrder(later, [e]);
    var notes := [note] + Corrections(later);
    if IsCorrection(e) {
      assert [note] + (Corrections(later) + [e.note]) == notes + [e.note];
      JoinOneMore(notes, between, e.note);
    } else {
      assert Corrections(later) + [] == Corrections(later);
    }
  }

  lemma NoneIn(events: seq<Event>)
    requires forall h :: h in events ==> !IsHandoff(h)
    ensures LastHandoff(events).None?
  {
  }

  lemma JoinOfOne(note: Bytes)
    ensures forall between :: Join([note] + [], between) == note
    ensures Corrections([]) == []
  {
  }

  lemma CorrectionsOfOne(e: Event)
    ensures Corrections([e]) == if e.actor == Worker && e.kind == Corrected && e.note != [] then [e.note] else []
  {
    assert [e][1..] == [];
  }
}
