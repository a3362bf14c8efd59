/** The log of prune runs: appended to, and cut back to its newest lines once it is twice as long. */
module RunLog {

  const LOG_RUNS: nat := 1000

  type Line = string

  /** Where a recording may stop short; none of it stops the run. */
  datatype Trouble = NoTrouble | NotAppended | NotCutBack

  function Newest(lines: seq<Line>, count: nat): seq<Line> {
    if |lines| <= count then lines else lines[|lines| - count..]
  }

  function Recorded(log: seq<Line>, line: Line, trouble: Trouble): seq<Line> {
    if trouble.NotAppended? then log
    else if trouble.NotCutBack? || |log| + 1 <= 2 * LOG_RUNS then log + [line]
    else Newest(log + [line], LOG_RUNS)
  }

  class Log {
    var lines: seq<Line>

    constructor (lines: seq<Line>)
      ensures this.lines == lines
    {
      this.lines := lines;
    }

    method Record(line: Line, trouble: Trouble)
      modifies this
      ensures lines == Recorded(old(lines), line, trouble)
      ensures trouble == NotAppended ==> lines == old(lines)
      ensures trouble == NotCutBack || (trouble == NoTrouble && |old(lines)| < 2000) ==> lines == old(lines) + [line]
      ensures trouble == NoTrouble && |old(lines)| >= 2000 ==>
                lines == old(lines)[|old(lines)| - 999..] + [line] && |lines| == 1000
    {
      if trouble.NotAppended? {
        return;
      }
      lines := lines + [line];
      if trouble.NotCutBack? {
        return;
      }
      if |lines| > 2 * LOG_RUNS {
        lines := lines[|lines| - LOG_RUNS..];
      }
    }
  }

  datatype Run = Run(line: Line, trouble: Trouble)

  function After(log: seq<Line>, runs: seq<Run>): seq<Line> {
    if runs == [] then log
    else
      var last := runs[|runs| - 1];
      Recorded(After(log, runs[..|runs| - 1]), last.line, last.trouble)
  }

  /** Every line that was appended, bound or no bound. */
  function Appended(runs: seq<Run>): seq<Line> {
    if runs == [] then []
    else
      var last := runs[|runs| - 1];
      Appended(runs[..|runs| - 1]) + (if last.trouble.NotAppended? then [] else [last.line])
  }

  /**
   After any runs, the log is the newest of the lines there ever were, in order: all
   of them, or at least the newest thousand. Right after a recording with no trouble
   it is never longer than two thousand lines.
   */
  lemma {:induction false} KeepsTheNewest(log: seq<Line>, runs: seq<Run>)
    ensures var kept, all := After(log, runs), log + Appended(runs);
            && kept == Newest(all, |kept|)
            && |kept| <= |all|
            && (|kept| < |all| ==> |kept| >= 1000)
            && (runs != [] && runs[|runs| - 1].trouble.NoTrouble? ==> |kept| <= 2000)
  {
    if runs == [] {
      assert log + [] == log;
    } else {
      var init, last := runs[..|runs| - 1], runs[|runs| - 1];
      KeepsTheNewest(log, init);
      var kept, all := After(log, init), log + Appended(init);
      hide Recorded, Newest;
      assert log + Appended(runs) == all + (if last.trouble.NotAppended? then [] else [last.line]);
      RecordedKeepsTheNewest(all, kept, last.line, last.trouble);
    }
  }

  lemma RecordedKeepsTheNewest(all: seq<Line>, kept: seq<Line>, line: Line, trouble: Trouble)
    requires kept == Newest(all, |kept|) && |kept| <= |all| && (|kept| < |all| ==> |kept| >= LOG_RUNS)
    ensures var more, next := all + (if trouble.NotAppended? then [] else [line]), Recorded(kept, line, trouble);
            && next == Newest(more, |next|)
            && |next| <= |more|
            && (|next| < |more| ==> |next| >= LOG_RUNS)
            && (trouble.NoTrouble? ==> |next| <= 2 * LOG_RUNS)
  {
    SuffixGrows(all, |kept|, line);
  }

  /** The newest lines and one more are the newest of all and one more; the newest of those are newest too. */
  lemma SuffixGrows(all: seq<Line>, count: nat, line: Line)
    requires count <= |all|
    ensures Newest(all, count) + [line] == Newest(all + [line], count + 1)
    ensures all + [] == all
    ensures count + 1 >= LOG_RUNS
            ==> Newest(Newest(all + [line], count + 1), LOG_RUNS) == Newest(all + [line], LOG_RUNS)
  {
    var more := all + [line];
    if count < |all| {
      assert more[|more| - (count + 1)..] == all[|all| - count..] + [line];
    } else {
      assert all[0..] == all;
    }
  }
}
