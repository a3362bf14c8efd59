/** What a Keeper keeps of the log its member Hives share, a bounded part of it at a time. */
module MemberDiagnostics {
  import opened DiagnosticLog
  import opened Utf8

  const PER_HIVE: nat := 1000
  const MAX_HIVES: nat := 256

  type HiveId = nat

  /** One Hive's log: the last line held of its present run, the newest lines, and what it said it lost. */
  datatype HiveLog = HiveLog(bootId: Bytes, lastSequence: nat, entries: seq<Entry>, dropped: nat, receivedAt: int)

  const NOTHING := HiveLog([], 0, [], 0, 0)

  /** The last line held of the run a batch comes from; another run's numbers say nothing of it. */
  function HeldThrough(log: HiveLog, bootId: Bytes): nat {
    if log.bootId == bootId then log.lastSequence else 0
  }

  /** The lines of a batch not already held. */
  function Unheld(log: HiveLog, batch: Batch): seq<Entry> {
    Later(batch.entries, HeldThrough(log, batch.bootId))
  }

  /** The newest lines of a log once another is added. */
  function Pushed(entries: seq<Entry>, e: Entry): seq<Entry> {
    (if |entries| == PER_HIVE then entries[1..] else entries) + [e]
  }

  function PushedAll(entries: seq<Entry>, more: seq<Entry>): seq<Entry> {
    if more == [] then entries else Pushed(PushedAll(entries, more[..|more| - 1]), more[|more| - 1])
  }

  function Accepted(log: HiveLog, batch: Batch, now: int): HiveLog {
    var unheld := Unheld(log, batch);
    HiveLog(
      batch.bootId,
      if unheld == [] then HeldThrough(log, batch.bootId) else unheld[|unheld| - 1].sequence,
      PushedAll(log.entries, unheld), log.dropped + batch.dropped, now)
  }

  method NotHeld(entries: seq<Entry>, held: nat) returns (later: seq<Entry>)
    ensures later == Later(entries, held)
  {
    later := [];
    var i := 0;
    while i < |entries|
      invariant 0 <= i <= |entries|
      invariant later + Later(entries[i..], held) == Later(entries, held)
    {
      assert entries[i..][1..] == entries[i + 1..];
      if entries[i].sequence > held {
        later := later + [entries[i]];
      }
      i := i + 1;
    }
  }

  method PushEach(entries: seq<Entry>, more: seq<Entry>) returns (pushed: seq<Entry>)
    ensures pushed == PushedAll(entries, more)
  {
    pushed := entries;
    var i := 0;
    while i < |more|
      invariant 0 <= i <= |more|
      invariant pushed == PushedAll(entries, more[..i])
    {
      assert more[..i + 1][..i] == more[..i];
      if |pushed| == PER_HIVE {
        pushed := pushed[1..];
      }
      pushed := pushed + [more[i]];
      i := i + 1;
    }
    assert more[..|more|] == more;
  }

  class MemberDiagnostics {
    var hives: map<HiveId, HiveLog>

    constructor ()
      ensures hives == map[]
    {
      hives := map[];
    }

    /**
     Keeps the lines not already held and gives exactly those back, to be written to
     the journal. A Hive too many is not taken on, and no other Hive's log is touched.
     */
    method Accept(hive: HiveId, batch: Batch, now: int) returns (journalled: seq<Entry>)
      modifies this
      ensures var log := if hive in old(hives) then old(hives)[hive] else NOTHING;
              if hive !in old(hives) && |old(hives)| >= 256
              then journalled == [] && hives == old(hives)
              else journalled == Unheld(log, batch) && hives == old(hives)[hive := Accepted(log, batch, now)]
    {
      journalled := [];
      if hive !in hives && |hives| >= MAX_HIVES {
        return;
      }
      var log := if hive in hives then hives[hive] else NOTHING;
      var held := if log.bootId != batch.bootId then 0 else log.lastSequence;
      journalled := NotHeld(batch.entries, held);
      var entries := PushEach(log.entries, journalled);
      if journalled != [] {
        held := journalled[|journalled| - 1].sequence;
      }
      hives := hives[hive := HiveLog(batch.bootId, held, entries, log.dropped + batch.dropped, now)];
    }
  }

  /** The newest of some lines, at most as many as are kept. */
  function Newest(entries: seq<Entry>): (newest: seq<Entry>)
    ensures |newest| == Min(|entries|, 1000) && newest == entries[|entries| - |newest|..]
  {
    if |entries| <= PER_HIVE then entries else entries[|entries| - PER_HIVE..]
  }

  /** Adding lines one by one to the newest of some gives the newest of them all. */
  lemma {:induction false} PushedAreNewest(all: seq<Entry>, more: seq<Entry>)
    ensures PushedAll(Newest(all), more) == Newest(all + more)
    decreases |more|
  {
    if more == [] {
      assert all + more == all;
      hide Newest, Pushed;
    } else {
      var init, last := more[..|more| - 1], more[|more| - 1];
      LastIsPushedLast(Newest(all), more);
      assert all + more == all + init + [last];
      hide *;
      PushedAreNewest(all, init);
      PushedIsNewest(all + init, last);
    }
  }

  lemma LastIsPushedLast(held: seq<Entry>, more: seq<Entry>)
    requires more != []
    ensures PushedAll(held, more) == Pushed(PushedAll(held, more[..|more| - 1]), more[|more| - 1])
  {
    hide Pushed;
  }

  lemma PushedIsNewest(all: seq<Entry>, e: Entry)
    ensures Pushed(Newest(all), e) == Newest(all + [e])
  {
  }
}
