/**
 A Hive's own recent log, kept in a bounded ring and shipped to its Keeper in
 batches: what a batch says about the lines it carries and the lines that were
 lost, over any interleaving of recording and shipping.
 */
module DiagnosticLog {
  import opened Options
  import opened Utf8

  const CAPACITY: nat := 1000
  const MAX_BATCH_ENTRIES: nat := 200
  const MAX_MESSAGE_BYTES: nat := 1024
  const MAX_TARGET_BYTES: nat := 128
  const MAX_BOOT_ID_BYTES: nat := 64

  datatype Level = Error | Warn | Info | Debug

  /** A line as it was logged, and as it is kept. */
  datatype Line = Line(level: Level, target: Bytes, message: Bytes, atMs: int)
  datatype Entry = Entry(sequence: nat, atMs: int, level: Level, target: Bytes, message: Bytes)

  datatype Batch = Batch(bootId: Bytes, entries: seq<Entry>, dropped: nat)

  datatype Ring = Ring(lastSequence: nat, entries: seq<Entry>, shippedThrough: nat)

  function Clip(text: Bytes, limit: nat): Bytes {
    if |text| <= limit then text else PrefixWithin(text, limit)
  }

  function Kept(line: Line, sequence: nat): Entry {
    Entry(sequence, line.atMs, line.level, Clip(line.target, MAX_TARGET_BYTES), Clip(line.message, MAX_MESSAGE_BYTES))
  }

  function Recorded(ring: Ring, line: Line): Ring {
    var kept := if |ring.entries| == CAPACITY then ring.entries[1..] else ring.entries;
    Ring(ring.lastSequence + 1, kept + [Kept(line, ring.lastSequence + 1)], ring.shippedThrough)
  }

  /** The entries numbered after `after`, in order. */
  function Later(entries: seq<Entry>, after: nat): seq<Entry> {
    if entries == [] then []
    else (if entries[0].sequence > after then [entries[0]] else []) + Later(entries[1..], after)
  }

  function Pending(bootId: Bytes, ring: Ring): Option<Batch> {
    var later := Later(ring.entries, ring.shippedThrough);
    var entries := later[..Min(|later|, MAX_BATCH_ENTRIES)];
    if entries == [] then None
    else
      var first, next := entries[0].sequence, ring.shippedThrough + 1;
      Some(Batch(bootId, entries, if first >= next then first - next else 0))
  }

  function Shipped(ring: Ring, sequence: nat): Ring {
    ring.(shippedThrough := if sequence > ring.shippedThrough then sequence else ring.shippedThrough)
  }

  lemma LaterFrom(entries: seq<Entry>, i: nat, after: nat)
    requires i < |entries|
    ensures Later(entries[i..], after)
         == (if entries[i].sequence > after then [entries[i]] else []) + Later(entries[i + 1..], after)
  {
    assert entries[i..][1..] == entries[i + 1..];
  }

  lemma NothingIsLater(entries: seq<Entry>, after: nat)
    ensures Later(entries[|entries|..], after) == []
  {
  }

  class DiagnosticLog {
    const bootId: Bytes
    var lastSequence: nat
    var entries: seq<Entry>
    var shippedThrough: nat

    ghost function Contents(): Ring
      reads this
    {
      Ring(lastSequence, entries, shippedThrough)
    }

    constructor (bootId: Bytes)
      ensures Contents() == Ring(0, [], 0) && this.bootId == bootId
    {
      this.bootId := bootId;
      lastSequence, entries, shippedThrough := 0, [], 0;
    }

    method Record(line: Line)
      modifies this
      ensures Contents() == Recorded(old(Contents()), line)
    {
      lastSequence := lastSequence + 1;
      if |entries| == CAPACITY {
        entries := entries[1..];
      }
      entries := entries + [Kept(line, lastSequence)];
    }

    method PendingBatch() returns (batch: Option<Batch>)
      ensures batch == Pending(bootId, Contents())
    {
      hide Later;
      var taken: seq<Entry> := [];
      var i := 0;
      assert entries[0..] == entries;
      while i < |entries| && |taken| < MAX_BATCH_ENTRIES
        invariant 0 <= i <= |entries| && |taken| <= MAX_BATCH_ENTRIES
        invariant taken + Later(entries[i..], shippedThrough) == Later(entries, shippedThrough)
      {
        LaterFrom(entries, i, shippedThrough);
        if entries[i].sequence > shippedThrough {
          taken := taken + [entries[i]];
        }
        i := i + 1;
      }
      NothingIsLater(entries, shippedThrough);
      assert taken == Later(entries, shippedThrough)[..Min(|Later(entries, shippedThrough)|, MAX_BATCH_ENTRIES)];
      if taken == [] {
        return None;
      }
      var first := taken[0].sequence;
      batch := Some(Batch(bootId, taken, if first > shippedThrough then first - (shippedThrough + 1) else 0));
    }

    method MarkShipped(sequence: nat)
      modifies this`shippedThrough
      ensures Contents() == Shipped(old(Contents()), sequence)
    {
      if sequence > shippedThrough {
        shippedThrough := sequence;
      }
    }

    /** The newest lines, at most `limit` of them, oldest first. */
    method Recent(limit: nat) returns (lines: seq<Entry>)
      ensures |lines| == Min(limit, |entries|)
      ensures lines == entries[|entries| - |lines|..]
    {
      var skip := if |entries| > limit then |entries| - limit else 0;
      lines := entries[skip..];
    }
  }

  // ------------------------------------------------------- what the ring holds

  /** The ring holds the newest lines, each under its own number and cut to its bounds. */
  ghost predicate Holds(ring: Ring, lines: seq<Line>) {
    && ring.lastSequence == |lines|
    && |ring.entries| == Min(|lines|, 1000)
    && ring.shippedThrough <= |lines|
    && forall i :: 0 <= i < |ring.entries| ==> IsLine(ring.entries[i], lines, |lines| - |ring.entries| + i)
  }

  /** The entry is the line at `at`, counted from zero. */
  ghost predicate IsLine(e: Entry, lines: seq<Line>, at: int) {
    0 <= at < |lines| && e == Kept(lines[at], at + 1)
  }

  /** The longest part of a text, from its start, that is within so many bytes and whole characters. */
  ghost predicate IsCut(part: Bytes, text: Bytes, max: nat) {
    && part <= text && |part| <= max && ValidText(part)
    && forall k :: |part| < k <= |text| && ValidText(text[..k]) ==> k > max
  }

  /** A line is kept under its own number, time and level, its target and its message each cut to its own bound. */
  lemma KeptIsTheLine(line: Line, sequence: nat)
    requires ValidText(line.target) && ValidText(line.message)
    ensures var e := Kept(line, sequence);
            && e.sequence == sequence && e.atMs == line.atMs && e.level == line.level
            && IsCut(e.target, line.target, 128) && IsCut(e.message, line.message, 1024)
  {
    ClipIsCut(line.target, 128);
    ClipIsCut(line.message, 1024);
  }

  lemma ClipIsCut(text: Bytes, limit: nat)
    requires ValidText(text)
    ensures IsCut(Clip(text, limit), text, limit)
  {
    if |text| > limit {
      PrefixWithinIsLongest(text, limit);
    }
  }

  /** Recording evicts exactly the oldest line of a full ring. */
  lemma RecordHolds(ring: Ring, lines: seq<Line>, line: Line)
    requires Holds(ring, lines)
    ensures Holds(Recorded(ring, line), lines + [line])
  {
    var next := Recorded(ring, line);
    var skipped := if |ring.entries| == CAPACITY then 1 else 0;
    forall i | 0 <= i < |next.entries|
      ensures IsLine(next.entries[i], lines + [line], |lines| + 1 - |next.entries| + i)
    {
      if i < |next.entries| - 1 {
        assert next.entries[i] == ring.entries[i + skipped];
        assert IsLine(ring.entries[i + skipped], lines, |lines| - |ring.entries| + i + skipped);
      }
    }
  }

  /** In numbered order, what is later than `after` is a suffix. */
  lemma {:induction false} LaterIsASuffix(entries: seq<Entry>, first: nat, after: nat)
    requires forall i :: 0 <= i < |entries| ==> entries[i].sequence == first + i
    ensures var skip := if after < first then 0 else Min(after - first + 1, |entries|);
            Later(entries, after) == entries[skip..]
  {
    if entries != [] {
      LaterIsASuffix(entries[1..], first + 1, after);
    }
  }

  function From(b: Batch): int
    requires b.entries != []
  {
    b.entries[0].sequence - b.dropped - 1
  }

  function To(b: Batch): int
    requires b.entries != []
  {
    b.entries[|b.entries| - 1].sequence
  }

  /** The batch carries consecutive lines, each as it was recorded. */
  ghost predicate Carries(b: Batch, lines: seq<Line>) {
    && 0 < |b.entries| <= MAX_BATCH_ENTRIES
    && 0 <= From(b)
    && forall i :: 0 <= i < |b.entries| ==> IsLine(b.entries[i], lines, From(b) + b.dropped + i)
  }

  datatype Refusal = BootId | TooManyLines | LineTooLong | OutOfOrder

  /** What both sides check of a batch. */
  function Validate(b: Batch): Option<Refusal> {
    if b.bootId == [] || |b.bootId| > MAX_BOOT_ID_BYTES then Some(BootId)
    else if |b.entries| > MAX_BATCH_ENTRIES then Some(TooManyLines)
    else if exists i :: 0 <= i < |b.entries|
                     && (|b.entries[i].message| > MAX_MESSAGE_BYTES || |b.entries[i].target| > MAX_TARGET_BYTES)
    then Some(LineTooLong)
    else if exists i :: 0 <= i < |b.entries| - 1 && b.entries[i].sequence >= b.entries[i + 1].sequence
    then Some(OutOfOrder)
    else None
  }

  /** A batch passes exactly when it is within every bound and its lines are in order. */
  lemma ValidatesExactlyWhen(b: Batch)
    ensures Validate(b).None? <==>
              && 0 < |b.bootId| <= 64 && |b.entries| <= 200
              && (forall i :: 0 <= i < |b.entries| ==> |b.entries[i].message| <= 1024 && |b.entries[i].target| <= 128)
              && (forall i, j :: 0 <= i < j < |b.entries| ==> b.entries[i].sequence < b.entries[j].sequence)
  {
    if forall i :: 0 <= i < |b.entries| - 1 ==> b.entries[i].sequence < b.entries[i + 1].sequence {
      Rises(b.entries);
    }
  }

  lemma {:induction false} Rises(entries: seq<Entry>)
    requires forall i :: 0 <= i < |entries| - 1 ==> entries[i].sequence < entries[i + 1].sequence
    ensures forall i, j :: 0 <= i < j < |entries| ==> entries[i].sequence < entries[j].sequence
  {
    if |entries| > 1 {
      var n := |entries| - 1;
      Rises(entries[..n]);
      forall i | 0 <= i < n
        ensures entries[i].sequence < entries[n].sequence
      {
        assert entries[n - 1].sequence < entries[n - 1 + 1].sequence;
        assert entries[..n][i] == entries[i] && entries[..n][n - 1] == entries[n - 1];
      }
    }
  }

  /**
   A batch exactly covers the gap after what was shipped: it starts right after
   it, counts as dropped precisely the unshipped lines the ring no longer holds,
   carries the rest of the gap up to its bound, and passes the check. There is
   none only when nothing is new.
   */
  lemma BatchCoversTheGap(bootId: Bytes, ring: Ring, lines: seq<Line>)
    requires Holds(ring, lines) && 0 < |bootId| <= MAX_BOOT_ID_BYTES
    ensures var p := Pending(bootId, ring);
            && (p.None? <==> ring.shippedThrough == |lines|)
            && (p.Some? ==>
                && p.value.bootId == bootId
                && Carries(p.value, lines)
                && From(p.value) == ring.shippedThrough
                && p.value.dropped + |p.value.entries| == To(p.value) - ring.shippedThrough
                && p.value.dropped == Evicted(lines, ring.shippedThrough)
                && (|p.value.entries| == 200 || To(p.value) == |lines|)
                && Validate(p.value).None?)
  {
    hide LastBoundary, Later, Pending, Clip, Validate;
    PendingIsASlice(bootId, ring, lines);
    var p := Pending(bootId, ring);
    if p.Some? {
      var skip := p.value.entries[0].sequence - (|lines| - |ring.entries| + 1);
      forall i | 0 <= i < |p.value.entries|
        ensures IsLine(p.value.entries[i], lines, From(p.value) + p.value.dropped + i)
      {
        assert IsLine(ring.entries[skip + i], lines, |lines| - |ring.entries| + skip + i);
      }
      CarriedBatchIsValid(p.value, lines);
    }
  }

  /** How many unshipped lines the ring no longer holds. */
  function Evicted(lines: seq<Line>, shippedThrough: nat): nat {
    if |lines| > CAPACITY + shippedThrough then |lines| - CAPACITY - shippedThrough else 0
  }

  lemma PendingIsASlice(bootId: Bytes, ring: Ring, lines: seq<Line>)
    requires Holds(ring, lines)
    ensures var p := Pending(bootId, ring);
            var skip := ring.shippedThrough - (|lines| - |ring.entries|);
            && (p.None? <==> ring.shippedThrough == |lines|)
            && (p.Some? ==>
                var from := if skip < 0 then 0 else skip;
                && p.value.bootId == bootId
                && from < |ring.entries|
                && |p.value.entries| == Min(|ring.entries| - from, MAX_BATCH_ENTRIES) > 0
                && p.value.entries == ring.entries[from..from + |p.value.entries|]
                && p.value.dropped == (if skip < 0 then -skip else 0)
                && p.value.entries[0].sequence == |lines| - |ring.entries| + 1 + from)
  {
    hide Clip, Later;
    var first := |lines| - |ring.entries| + 1;
    forall i | 0 <= i < |ring.entries|
      ensures ring.entries[i].sequence == first + i
    {
      assert IsLine(ring.entries[i], lines, |lines| - |ring.entries| + i);
    }
    LaterIsASuffix(ring.entries, first, ring.shippedThrough);
  }

  lemma CarriedBatchIsValid(b: Batch, lines: seq<Line>)
    requires Carries(b, lines) && 0 < |b.bootId| <= MAX_BOOT_ID_BYTES
    ensures Validate(b).None?
  {
    hide LastBoundary;
    forall i | 0 <= i < |b.entries|
      ensures |b.entries[i].message| <= MAX_MESSAGE_BYTES && |b.entries[i].target| <= MAX_TARGET_BYTES
      ensures b.entries[i].sequence == From(b) + b.dropped + i + 1
    {
      assert IsLine(b.entries[i], lines, From(b) + b.dropped + i);
    }
  }

  lemma CarriesOn(b: Batch, lines: seq<Line>, line: Line)
    requires Carries(b, lines)
    ensures Carries(b, lines + [line])
  {
    forall i | 0 <= i < |b.entries|
      ensures IsLine(b.entries[i], lines + [line], From(b) + b.dropped + i)
    {
      assert IsLine(b.entries[i], lines, From(b) + b.dropped + i);
    }
  }

  /** A carried batch ends at a recorded line, and spans what it counts. */
  lemma Spans(b: Batch, lines: seq<Line>)
    requires Carries(b, lines)
    ensures From(b) < To(b) <= |lines| && To(b) - From(b) == |b.entries| + b.dropped
  {
    assert IsLine(b.entries[|b.entries| - 1], lines, From(b) + b.dropped + |b.entries| - 1);
  }
}
