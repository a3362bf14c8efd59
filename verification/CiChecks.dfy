/**
 What CI says of a task's commits: judged on the tips of its work, each by the first
 commit at or after it that CI ran on. Git and GitHub are asked, not modelled.
 */
module CiChecks {
  import opened Options
  import opened Sorting
  import opened Ranking

  const DESCENDANTS_TRIED: nat := 20
  const CI_START_GRACE_SECONDS: int := 15 * 60

  type Sha = string

  datatype CheckRun = CheckRun(name: string, status: string, conclusion: Option<string>)
  datatype Status = Status(context: string, state: string)
  datatype Reading = Reading(runs: seq<CheckRun>, statuses: seq<Status>)

  datatype Why =
    | NoGithubRemote
    | UnknownCommit(sha: string)
    | NoCiRan(lookedAt: nat)
    | Said(reason: string)

  datatype Outcome =
    | Passed
    | Failed(failing: seq<string>)
    | Pending(waiting: seq<string>)
    | Unreadable(why: seq<Why>)

  /** What git answers. `isAncestor` holds of a commit and itself. */
  datatype Git = Git(
    remote: Option<string>, resolve: string -> Option<Sha>, isAncestor: (Sha, Sha) -> bool,
    pushedBranch: Sha -> Option<string>, commitsAfter: (Sha, string) -> seq<Sha>, madeAt: Sha -> int)

  type Reader = (string, Sha) -> Result<Reading, string>

  // ------------------------------------------------------------ the remote

  function StripPrefix(s: string, prefix: string): Option<string> {
    if prefix <= s then Some(s[|prefix|..]) else None
  }

  function EndsWith(s: string, suffix: string): bool {
    |suffix| <= |s| && s[|s| - |suffix|..] == suffix
  }

  /** Takes the suffix off for as long as it is there. */
  function TrimEndMatches(s: string, suffix: string): string
    requires suffix != ""
    decreases |s|
  {
    if EndsWith(s, suffix) then TrimEndMatches(s[..|s| - |suffix|], suffix) else s
  }

  function SlashAt(s: string): Option<nat> {
    if s == "" then None
    else if s[0] == '/' then Some(0)
    else
      var at := SlashAt(s[1..]);
      if at.Some? then Some(at.value + 1) else None
  }

  const REMOTE_PREFIXES: seq<string> := ["git@github.com:", "ssh://git@github.com/", "https://github.com/"]

  function PathOf(remote: string): Option<string> {
    if StripPrefix(remote, REMOTE_PREFIXES[0]).Some? then StripPrefix(remote, REMOTE_PREFIXES[0])
    else if StripPrefix(remote, REMOTE_PREFIXES[1]).Some? then StripPrefix(remote, REMOTE_PREFIXES[1])
    else StripPrefix(remote, REMOTE_PREFIXES[2])
  }

  function GithubRepository(remote: string): Option<string> {
    var stripped := PathOf(remote);
    if stripped.None? then None
    else
      var path := TrimEndMatches(TrimEndMatches(stripped.value, "/"), ".git");
      var at := SlashAt(path);
      if at.None? || at.value >= |path| then None
      else
        var owner, name := path[..at.value], path[at.value + 1..];
        if owner != "" && name != "" && '/' !in name then Some(owner + "/" + name) else None
  }

  // ----------------------------------------------------------- classifying

  function Dedup(names: seq<string>): seq<string> {
    if |names| <= 1 then names
    else if names[0] == names[1] then Dedup(names[1..])
    else [names[0]] + Dedup(names[1..])
  }

  const BY_NAME: (string, string) -> bool := (a, b) => NameLeq(a, b)

  function SortedNames(names: seq<string>): seq<string> {
    Dedup(Sort(BY_NAME, names))
  }

  function OutcomeOf(failing: seq<string>, waiting: seq<string>): Outcome {
    if failing != [] then Failed(SortedNames(failing))
    else if waiting != [] then Pending(SortedNames(waiting))
    else Passed
  }

  const PASSING_CONCLUSIONS: set<string> := {"success", "neutral", "skipped"}

  predicate RunWaits(run: CheckRun) {
    run.status != "completed"
  }

  predicate RunFails(run: CheckRun) {
    !RunWaits(run) && (run.conclusion.None? || run.conclusion.value !in PASSING_CONCLUSIONS)
  }

  predicate StatusWaits(status: Status) {
    status.state == "pending"
  }

  predicate StatusFails(status: Status) {
    status.state != "success" && status.state != "pending"
  }

  function RunNames(runs: seq<CheckRun>, which: CheckRun -> bool): seq<string> {
    if runs == [] then []
    else RunNames(runs[..|runs| - 1], which) + (if which(runs[|runs| - 1]) then [runs[|runs| - 1].name] else [])
  }

  function StatusNames(statuses: seq<Status>, which: Status -> bool): seq<string> {
    if statuses == [] then []
    else StatusNames(statuses[..|statuses| - 1], which)
         + (if which(statuses[|statuses| - 1]) then [statuses[|statuses| - 1].context] else [])
  }

  function Failing(r: Reading): seq<string> {
    RunNames(r.runs, RunFails) + StatusNames(r.statuses, StatusFails)
  }

  function Waiting(r: Reading): seq<string> {
    RunNames(r.runs, RunWaits) + StatusNames(r.statuses, StatusWaits)
  }

  function Classified(r: Reading): Option<Outcome> {
    if r.runs == [] && r.statuses == [] then None else Some(OutcomeOf(Failing(r), Waiting(r)))
  }

  method ClassifyChecks(r: Reading) returns (outcome: Option<Outcome>)
    ensures outcome == Classified(r)
  {
    if r.runs == [] && r.statuses == [] {
      return None;
    }
    var failing, waiting: seq<string> := [], [];
    var i := 0;
    while i < |r.runs|
      invariant 0 <= i <= |r.runs|
      invariant failing == RunNames(r.runs[..i], RunFails) && waiting == RunNames(r.runs[..i], RunWaits)
    {
      assert r.runs[..i + 1][..i] == r.runs[..i];
      if RunWaits(r.runs[i]) {
        waiting := waiting + [r.runs[i].name];
      } else if RunFails(r.runs[i]) {
        failing := failing + [r.runs[i].name];
      }
      i := i + 1;
    }
    assert r.runs[..|r.runs|] == r.runs;
    ghost var failed, waited := failing, waiting;
    i := 0;
    while i < |r.statuses|
      invariant 0 <= i <= |r.statuses|
      invariant failing == failed + StatusNames(r.statuses[..i], StatusFails)
      invariant waiting == waited + StatusNames(r.statuses[..i], StatusWaits)
    {
      assert r.statuses[..i + 1][..i] == r.statuses[..i];
      match r.statuses[i].state {
        case "success" =>
        case "pending" => waiting := waiting + [r.statuses[i].context];
        case _ => failing := failing + [r.statuses[i].context];
      }
      i := i + 1;
    }
    assert r.statuses[..|r.statuses|] == r.statuses;
    outcome := Some(OutcomeOf(failing, waiting));
  }

  function NamesFailing(outcomes: seq<Outcome>): seq<string> {
    if outcomes == [] then []
    else NamesFailing(outcomes[..|outcomes| - 1])
         + (if outcomes[|outcomes| - 1].Failed? then outcomes[|outcomes| - 1].failing else [])
  }

  function NamesWaiting(outcomes: seq<Outcome>): seq<string> {
    if outcomes == [] then []
    else NamesWaiting(outcomes[..|outcomes| - 1])
         + (if outcomes[|outcomes| - 1].Pending? then outcomes[|outcomes| - 1].waiting else [])
  }

  function Reasons(outcomes: seq<Outcome>): seq<Why> {
    if outcomes == [] then []
    else Reasons(outcomes[..|outcomes| - 1])
         + (if outcomes[|outcomes| - 1].Unreadable? then outcomes[|outcomes| - 1].why else [])
  }

  function Combined(outcomes: seq<Outcome>): Outcome {
    var failing, waiting, why := NamesFailing(outcomes), NamesWaiting(outcomes), Reasons(outcomes);
    if failing == [] && waiting == [] && why != [] then Unreadable(why) else OutcomeOf(failing, waiting)
  }

  // ------------------------------------------------------------------ judging

  predicate IsTip(git: Git, full: seq<Sha>, candidate: Sha) {
    !exists other :: other in full && other != candidate && git.isAncestor(candidate, other)
  }

  function Tips(git: Git, full: seq<Sha>): seq<Sha> {
    Filter((candidate: Sha) => IsTip(git, full, candidate), full)
  }

  function Resolved(git: Git, commits: seq<string>): Result<seq<Sha>, string> {
    if commits == [] then Ok([])
    else
      var before := Resolved(git, commits[..|commits| - 1]);
      var last := commits[|commits| - 1];
      if before.Err? then before
      else if git.resolve(last).None? then Err(last)
      else Ok(before.value + [git.resolve(last).value])
  }

  function Candidates(git: Git, tip: Sha, branch: string): seq<Sha> {
    var after := git.commitsAfter(tip, branch);
    [tip] + after[..if |after| < DESCENDANTS_TRIED then |after| else DESCENDANTS_TRIED]
  }

  /** What one candidate settles, if CI said anything of it or could not be read. */
  function Settles(reader: Reader, repository: string, candidate: Sha): Option<Outcome> {
    match reader(repository, candidate)
    case Err(why) => Some(Unreadable([Said(why)]))
    case Ok(reading) => Classified(reading)
  }

  function FirstSettled(reader: Reader, repository: string, candidates: seq<Sha>): Option<(Sha, Outcome)> {
    if candidates == [] then None
    else if Settles(reader, repository, candidates[0]).Some?
    then Some((candidates[0], Settles(reader, repository, candidates[0]).value))
    else FirstSettled(reader, repository, candidates[1..])
  }

  function NoChecks(ageSeconds: int, lookedAt: nat): Outcome {
    if ageSeconds < CI_START_GRACE_SECONDS then Pending(["CI to start"]) else Unreadable([NoCiRan(lookedAt)])
  }

  /** The outcome of one tip and the commit it was judged on. */
  function JudgedTip(git: Git, reader: Reader, repository: string, now: int, tip: Sha): (Outcome, Sha) {
    var branch := git.pushedBranch(tip);
    if branch.None? then (Pending(["the push to GitHub"]), tip)
    else
      var candidates := Candidates(git, tip, branch.value);
      var settled := FirstSettled(reader, repository, candidates);
      if settled.Some? then (settled.value.1, settled.value.0)
      else (NoChecks(now - git.madeAt(tip), |candidates| - 1), tip)
  }

  method JudgeTip(git: Git, reader: Reader, repository: string, now: int, tip: Sha)
    returns (outcome: Outcome, judged: Sha)
    ensures (outcome, judged) == JudgedTip(git, reader, repository, now, tip)
  {
    var branch := git.pushedBranch(tip);
    if branch.None? {
      return Pending(["the push to GitHub"]), tip;
    }
    var candidates := Candidates(git, tip, branch.value);
    var lookedAt := 0;
    while lookedAt < |candidates|
      invariant 0 <= lookedAt <= |candidates|
      invariant FirstSettled(reader, repository, candidates)
                == FirstSettled(reader, repository, candidates[lookedAt..])
    {
      var candidate := candidates[lookedAt];
      assert candidates[lookedAt..][1..] == candidates[lookedAt + 1..];
      match reader(repository, candidate) {
        case Err(why) => return Unreadable([Said(why)]), candidate;
        case Ok(reading) =>
          var classified := ClassifyChecks(reading);
          if classified.Some? {
            return classified.value, candidate;
          }
      }
      lookedAt := lookedAt + 1;
    }
    outcome, judged := NoChecks(now - git.madeAt(tip), lookedAt - 1), tip;
  }

  datatype Observation = Observation(judged: seq<Sha>, outcome: Outcome)

  function JudgedOn(git: Git, reader: Reader, repository: string, now: int, tips: seq<Sha>): seq<Sha> {
    seq(|tips|, i requires 0 <= i < |tips| => JudgedTip(git, reader, repository, now, tips[i]).1)
  }

  function OutcomesOf(git: Git, reader: Reader, repository: string, now: int, tips: seq<Sha>): seq<Outcome> {
    seq(|tips|, i requires 0 <= i < |tips| => JudgedTip(git, reader, repository, now, tips[i]).0)
  }

  function Observed(git: Git, reader: Reader, now: int, commits: seq<string>): Observation {
    var repository := if git.remote.None? then None else GithubRepository(git.remote.value);
    if repository.None? then Observation([], Unreadable([NoGithubRemote]))
    else
      var full := Resolved(git, commits);
      if full.Err? then Observation([], Unreadable([UnknownCommit(full.error)]))
      else
        var tips := Tips(git, full.value);
        Observation(JudgedOn(git, reader, repository.value, now, tips),
                    Combined(OutcomesOf(git, reader, repository.value, now, tips)))
  }

  method Judge(git: Git, reader: Reader, now: int, commits: seq<string>) returns (observation: Observation)
    ensures observation == Observed(git, reader, now, commits)
  {
    hide Combined, JudgedTip, GithubRepository;
    if git.remote.None? {
      return Observation([], Unreadable([NoGithubRemote]));
    }
    var repository := GithubRepository(git.remote.value);
    if repository.None? {
      return Observation([], Unreadable([NoGithubRemote]));
    }
    var full: seq<Sha> := [];
    var i := 0;
    while i < |commits|
      invariant 0 <= i <= |commits|
      invariant Resolved(git, commits[..i]) == Ok(full)
    {
      assert commits[..i + 1][..i] == commits[..i];
      var resolved := git.resolve(commits[i]);
      if resolved.None? {
        FirstUnknown(git, commits, i);
        return Observation([], Unreadable([UnknownCommit(commits[i])]));
      }
      full := full + [resolved.value];
      i := i + 1;
    }
    assert commits[..|commits|] == commits;
    var tips := Tips(git, full);
    var outcomes: seq<Outcome> := [];
    var judged: seq<Sha> := [];
    i := 0;
    while i < |tips|
      invariant 0 <= i <= |tips| == |Tips(git, full)|
      invariant judged == JudgedOn(git, reader, repository.value, now, tips)[..i]
      invariant outcomes == OutcomesOf(git, reader, repository.value, now, tips)[..i]
    {
      var outcome, on := JudgeTip(git, reader, repository.value, now, tips[i]);
      outcomes := outcomes + [outcome];
      judged := judged + [on];
      i := i + 1;
    }
    assert judged == JudgedOn(git, reader, repository.value, now, tips);
    assert outcomes == OutcomesOf(git, reader, repository.value, now, tips);
    observation := Observation(judged, Combined(outcomes));
  }

  lemma {:induction false} FirstUnknown(git: Git, commits: seq<string>, i: nat)
    requires i < |commits| && Resolved(git, commits[..i]).Ok? && git.resolve(commits[i]).None?
    ensures Resolved(git, commits) == Err(commits[i])
    decreases |commits|
  {
    if i == |commits| - 1 {
      assert commits[..i] == commits[..|commits| - 1];
    } else {
      FirstUnknown(git, commits[..|commits| - 1], i) by {
        assert commits[..|commits| - 1][..i] == commits[..i];
      }
    }
  }

  // -------------------------------------------------------- tips of the work

  /** Ancestry among the commits, as git has it: nothing is its own ancestor by a detour. */
  ghost predicate IsDag(git: Git, full: seq<Sha>) {
    && (forall a, b :: a in full && b in full && git.isAncestor(a, b) && git.isAncestor(b, a) ==> a == b)
    && (forall a, b, c :: a in full && b in full && c in full && git.isAncestor(a, b) && git.isAncestor(b, c)
          ==> git.isAncestor(a, c))
  }

  function Above(git: Git, full: seq<Sha>, c: Sha): set<Sha> {
    set other | other in full && other != c && git.isAncestor(c, other)
  }

  lemma {:induction false} FilterHolds(keep: Sha -> bool, s: seq<Sha>, x: Sha)
    ensures x in Filter(keep, s) <==> x in s && keep(x)
  {
    if s != [] {
      FilterHolds(keep, s[1..], x);
    }
  }

  lemma TipsAre(git: Git, full: seq<Sha>, x: Sha)
    ensures x in Tips(git, full) <==> x in full && IsTip(git, full, x)
  {
    FilterHolds((candidate: Sha) => IsTip(git, full, candidate), full, x);
  }

  /** Climbing from a commit ends at a tip. */
  lemma {:induction false} TipAbove(git: Git, full: seq<Sha>, c: Sha) returns (tip: Sha)
    requires IsDag(git, full) && c in full
    ensures tip in full && IsTip(git, full, tip) && (tip == c || git.isAncestor(c, tip))
    decreases |Above(git, full, c)|
  {
    tip := c;
    if !IsTip(git, full, c) {
      var other :| other in full && other != c && git.isAncestor(c, other);
      var below, above := Above(git, full, c), Above(git, full, other);
      assert above <= below && other in below && other !in above;
      FewerAbove(above, below, other);
      tip := TipAbove(git, full, other);
    }
  }

  lemma FewerAbove(above: set<Sha>, below: set<Sha>, other: Sha)
    requires above <= below && other in below && other !in above
    ensures |above| < |below|
  {
    assert above <= below - {other};
    var rest := below - {other} - above;
    assert below - {other} == above + rest;
  }

  /**
   The tips cover the work and no more: every commit is a tip or an ancestor of one,
   no tip is an ancestor of a different tip, and there is none only of no commits.
   */
  lemma TipsCoverTheWork(git: Git, full: seq<Sha>)
    requires IsDag(git, full)
    ensures forall c :: c in full ==> exists tip :: tip in Tips(git, full) && (tip == c || git.isAncestor(c, tip))
    ensures forall a, b :: a in Tips(git, full) && b in Tips(git, full) && git.isAncestor(a, b) ==> a == b
    ensures forall tip :: tip in Tips(git, full) ==> tip in full
    ensures Tips(git, full) == [] <==> full == []
  {
    forall c | c in full
      ensures exists tip :: tip in Tips(git, full) && (tip == c || git.isAncestor(c, tip))
    {
      var tip := TipAbove(git, full, c);
      TipsAre(git, full, tip);
    }
    forall a | a in Tips(git, full)
      ensures a in full && IsTip(git, full, a)
    {
      TipsAre(git, full, a);
    }
    if full != [] {
      assert full[0] in full;
    }
  }

  /**
   A tip is judged on itself or on one of its first twenty listed descendants: the
   first of them that CI said anything of, or that could not be read. Where there is
   no such commit, or the tip was not pushed, it stands for itself and never passes.
   */
  lemma JudgedOnTheFirstThatSettles(git: Git, reader: Reader, repository: string, now: int, tip: Sha)
    ensures var (outcome, judged) := JudgedTip(git, reader, repository, now, tip);
            var branch := git.pushedBranch(tip);
            if branch.None? then judged == tip && outcome == Pending(["the push to GitHub"])
            else
              var candidates := Candidates(git, tip, branch.value);
              var after := git.commitsAfter(tip, branch.value);
              && candidates == [tip] + (if |after| <= 20 then after else after[..20])
              && ((exists k :: 0 <= k < |candidates| && candidates[k] == judged
                            && SaysOf(reader, repository, judged, outcome)
                            && forall i :: 0 <= i < k ==> Silent(reader, repository, candidates[i]))
                  || ((forall i :: 0 <= i < |candidates| ==> Silent(reader, repository, candidates[i]))
                      && judged == tip
                      && outcome == if now - git.madeAt(tip) < 15 * 60 then Pending(["CI to start"])
                                    else Unreadable([NoCiRan(|candidates| - 1)])))
  {
    var branch := git.pushedBranch(tip);
    if branch.Some? {
      forall c
        ensures Settles(reader, repository, c).None? <==> Silent(reader, repository, c)
        ensures forall o :: Settles(reader, repository, c) == Some(o) ==> SaysOf(reader, repository, c, o)
      {
      }
      hide Settles, Silent, SaysOf;
      FirstSettledIs(reader, repository, Candidates(git, tip, branch.value));
    }
  }

  /** The commit was read, and CI had said nothing of it. */
  ghost predicate Silent(reader: Reader, repository: string, c: Sha) {
    reader(repository, c) == Ok(Reading([], []))
  }

  /** Why the commit could not be read, or what its checks come to. */
  ghost predicate SaysOf(reader: Reader, repository: string, c: Sha, outcome: Outcome) {
    match reader(repository, c)
    case Err(why) => outcome == Unreadable([Said(why)])
    case Ok(reading) => Classified(reading) == Some(outcome)
  }

  lemma {:induction false} FirstSettledIs(reader: Reader, repository: string, candidates: seq<Sha>)
    ensures var first := FirstSettled(reader, repository, candidates);
            if first.Some?
            then exists k :: 0 <= k < |candidates| && first.value.0 == candidates[k]
                          && Settles(reader, repository, candidates[k]) == Some(first.value.1)
                          && forall i :: 0 <= i < k ==> Settles(reader, repository, candidates[i]).None?
            else forall i :: 0 <= i < |candidates| ==> Settles(reader, repository, candidates[i]).None?
  {
    if candidates != [] && Settles(reader, repository, candidates[0]).None? {
      hide Settles;
      FirstSettledIs(reader, repository, candidates[1..]);
      var first := FirstSettled(reader, repository, candidates[1..]);
      if first.Some? {
        var k :| 0 <= k < |candidates| - 1 && first.value.0 == candidates[1..][k]
                 && Settles(reader, repository, candidates[1..][k]) == Some(first.value.1)
                 && forall i :: 0 <= i < k ==> Settles(reader, repository, candidates[1..][i]).None?;
        forall i | 0 <= i < k + 1
          ensures Settles(reader, repository, candidates[i]).None?
        {
          assert i > 0 ==> candidates[i] == candidates[1..][i - 1];
        }
        assert candidates[k + 1] == candidates[1..][k];
      } else {
        forall i | 0 <= i < |candidates|
          ensures Settles(reader, repository, candidates[i]).None?
        {
          assert i > 0 ==> candidates[i] == candidates[1..][i - 1];
        }
      }
    }
  }

  // ------------------------------------------------------- what an outcome means

  /** Outcomes that name what they blame, as every one made here does. */
  predicate SaysWhy(outcome: Outcome) {
    match outcome
    case Passed => true
    case Failed(failing) => failing != []
    case Pending(waiting) => waiting != []
    case Unreadable(why) => why != []
  }

  lemma {:induction false} DedupKeeps(names: seq<string>, n: string)
    ensures n in Dedup(names) <==> n in names
    ensures Dedup(names) == [] <==> names == []
    ensures names != [] ==> Dedup(names)[0] == names[0]
    decreases |names|
  {
    if |names| > 1 {
      DedupKeeps(names[1..], n);
    }
  }

  /** Names come in order and once each. */
  lemma SortedNamesRise(names: seq<string>)
    ensures forall i, j :: 0 <= i < j < |SortedNames(names)| ==> NameLess(SortedNames(names)[i], SortedNames(names)[j])
  {
    NameOrderIsTotal();
    SortSorts(BY_NAME, names);
    DedupRises(Sort(BY_NAME, names));
  }

  lemma {:induction false} DedupRises(names: seq<string>)
    requires Sorted(BY_NAME, names)
    ensures forall i, j :: 0 <= i < j < |Dedup(names)| ==> NameLess(Dedup(names)[i], Dedup(names)[j])
    ensures forall n :: n in Dedup(names) ==> n in names
    decreases |names|
  {
    if |names| > 1 {
      hide NameLeq;
      var rest := names[1..];
      DedupRises(rest);
      DedupKeeps(rest, rest[0]);
      if names[0] != names[1] {
        forall j | 0 <= j < |Dedup(rest)|
          ensures NameLess(names[0], Dedup(rest)[j])
        {
          SecondOnward(names, Dedup(rest)[j]);
        }
      }
    }
  }

  lemma SecondOnward(names: seq<string>, n: string)
    requires Sorted(BY_NAME, names) && |names| > 1 && names[0] != names[1] && n in names[1..]
    ensures NameLess(names[0], n)
  {
    hide NameLeq;
    var k :| 0 <= k < |names| - 1 && names[1..][k] == n;
    assert names[k + 1] == n && BY_NAME(names[0], names[k + 1]) && BY_NAME(names[0], names[1]);
    if n == names[0] && k > 0 {
      assert BY_NAME(names[1], names[k + 1]);
      NameLeqIsTotal(names[0], names[1]);
    }
  }

  /** The names blamed are the names given, as a set. */
  lemma SortedNamesKeep(names: seq<string>, n: string)
    ensures n in SortedNames(names) <==> n in names
    ensures SortedNames(names) == [] <==> names == []
  {
    NameOrderIsTotal();
    SortSorts(BY_NAME, names);
    DedupKeeps(Sort(BY_NAME, names), n);
    assert n in multiset(Sort(BY_NAME, names)) <==> n in multiset(names);
  }

  lemma NameOrderIsTotal()
    ensures TotalPreorder(BY_NAME)
  {
    hide NameLeq;
    forall a, b
      ensures BY_NAME(a, b) || BY_NAME(b, a)
    {
      NameLeqIsTotal(a, b);
    }
    forall a, b, c | BY_NAME(a, b) && BY_NAME(b, c)
      ensures BY_NAME(a, c)
    {
      NameLeqIsTransitive(a, b, c);
    }
  }

  lemma {:induction false} RunNamesAre(runs: seq<CheckRun>, which: CheckRun -> bool, n: string)
    ensures n in RunNames(runs, which) <==> exists r :: r in runs && which(r) && r.name == n
    ensures RunNames(runs, which) == [] <==> forall r :: r in runs ==> !which(r)
  {
    if runs != [] {
      RunNamesAre(runs[..|runs| - 1], which, n);
      assert runs == runs[..|runs| - 1] + [runs[|runs| - 1]];
    }
  }

  lemma {:induction false} StatusNamesAre(statuses: seq<Status>, which: Status -> bool, n: string)
    ensures n in StatusNames(statuses, which) <==> exists s :: s in statuses && which(s) && s.context == n
    ensures StatusNames(statuses, which) == [] <==> forall s :: s in statuses ==> !which(s)
  {
    if statuses != [] {
      StatusNamesAre(statuses[..|statuses| - 1], which, n);
      assert statuses == statuses[..|statuses| - 1] + [statuses[|statuses| - 1]];
    }
  }

  /** A run of this name that has completed in any way but these three, or a status neither good nor pending. */
  ghost predicate Blames(r: Reading, n: string) {
    (exists run :: run in r.runs && run.name == n && run.status == "completed"
                   && run.conclusion !in {Some("success"), Some("neutral"), Some("skipped")})
    || (exists s :: s in r.statuses && s.context == n && s.state != "success" && s.state != "pending")
  }

  ghost predicate Awaits(r: Reading, n: string) {
    (exists run :: run in r.runs && run.name == n && run.status != "completed")
    || (exists s :: s in r.statuses && s.context == n && s.state == "pending")
  }

  ghost predicate AllWell(r: Reading) {
    && (forall run :: run in r.runs ==>
          run.status == "completed" && run.conclusion in {Some("success"), Some("neutral"), Some("skipped")})
    && (forall s :: s in r.statuses ==> s.state == "success")
  }

  /**
   A commit passes exactly when CI ran on it and everything it ran finished well;
   it fails exactly when something ended any other way, and then exactly those names
   are blamed; it is pending exactly when nothing failed and something has not ended.
   */
  lemma ClassifiedMeans(r: Reading, n: string)
    ensures Classified(r).None? <==> r.runs == [] && r.statuses == []
    ensures Classified(r).Some? ==>
              var o := Classified(r).value;
              && SaysWhy(o) && !o.Unreadable?
              && (o.Passed? <==> AllWell(r))
              && (o.Failed? ==> (n in o.failing <==> Blames(r, n)))
              && (o.Failed? <==> exists m :: Blames(r, m))
              && (o.Pending? ==> (n in o.waiting <==> Awaits(r, n)))
              && (o.Pending? <==> (forall m :: !Blames(r, m)) && exists m :: Awaits(r, m))
  {
    hide SortedNames, Failing, Waiting, Blames, Awaits, AllWell;
    forall m
      ensures m in Failing(r) <==> Blames(r, m)
      ensures m in Waiting(r) <==> Awaits(r, m)
    {
      FailingAreBlamed(r, m);
    }
    NoneOrSome(Failing(r));
    NoneOrSome(Waiting(r));
    WellMeansNeither(r);
    SortedNamesKeep(Failing(r), n);
    SortedNamesKeep(Waiting(r), n);
  }

  lemma NoneOrSome(names: seq<string>)
    ensures names == [] <==> forall m :: m !in names
  {
    if names != [] {
      assert names[0] in names;
    }
  }

  lemma FailingAreBlamed(r: Reading, n: string)
    ensures n in Failing(r) <==> Blames(r, n)
    ensures n in Waiting(r) <==> Awaits(r, n)
  {
    RunNamesAre(r.runs, RunFails, n);
    RunNamesAre(r.runs, RunWaits, n);
    StatusNamesAre(r.statuses, StatusFails, n);
    StatusNamesAre(r.statuses, StatusWaits, n);
  }

  lemma WellMeansNeither(r: Reading)
    ensures AllWell(r) <==> forall m :: !Blames(r, m) && !Awaits(r, m)
  {
    if forall m :: !Blames(r, m) && !Awaits(r, m) {
      forall run | run in r.runs
        ensures run.status == "completed" && run.conclusion in {Some("success"), Some("neutral"), Some("skipped")}
      {
        assert !Blames(r, run.name) && !Awaits(r, run.name);
      }
      forall s | s in r.statuses
        ensures s.state == "success"
      {
        assert !Blames(r, s.context) && !Awaits(r, s.context);
      }
    }
  }

  lemma {:induction false} FailingAre(outcomes: seq<Outcome>, n: string)
    requires forall o :: o in outcomes ==> SaysWhy(o)
    ensures n in NamesFailing(outcomes) <==> exists o :: o in outcomes && o.Failed? && n in o.failing
    ensures NamesFailing(outcomes) == [] <==> forall o :: o in outcomes ==> !o.Failed?
    decreases |outcomes|
  {
    if outcomes != [] {
      FailingAre(outcomes[..|outcomes| - 1], n);
      assert outcomes == outcomes[..|outcomes| - 1] + [outcomes[|outcomes| - 1]];
    }
  }

  lemma {:induction false} WaitingAre(outcomes: seq<Outcome>)
    requires forall o :: o in outcomes ==> SaysWhy(o)
    ensures NamesWaiting(outcomes) == [] <==> forall o :: o in outcomes ==> !o.Pending?
    decreases |outcomes|
  {
    if outcomes != [] {
      WaitingAre(outcomes[..|outcomes| - 1]);
      assert outcomes == outcomes[..|outcomes| - 1] + [outcomes[|outcomes| - 1]];
    }
  }

  lemma {:induction false} ReasonsAre(outcomes: seq<Outcome>)
    requires forall o :: o in outcomes ==> SaysWhy(o)
    ensures Reasons(outcomes) == [] <==> forall o :: o in outcomes ==> !o.Unreadable?
    decreases |outcomes|
  {
    if outcomes != [] {
      ReasonsAre(outcomes[..|outcomes| - 1]);
      assert outcomes == outcomes[..|outcomes| - 1] + [outcomes[|outcomes| - 1]];
    }
  }

  /** One outcome for several: any failure first, then anything unfinished, then anything unreadable. */
  lemma CombinedMeans(outcomes: seq<Outcome>, n: string)
    requires forall o :: o in outcomes ==> SaysWhy(o)
    ensures var c := Combined(outcomes);
            && (c.Passed? <==> forall o :: o in outcomes ==> o.Passed?)
            && (c.Failed? <==> exists o :: o in outcomes && o.Failed?)
            && (c.Failed? ==> (n in c.failing <==> exists o :: o in outcomes && o.Failed? && n in o.failing))
            && (c.Pending? <==> (forall o :: o in outcomes ==> !o.Failed?) && exists o :: o in outcomes && o.Pending?)
  {
    hide SortedNames;
    FailingAre(outcomes, n);
    WaitingAre(outcomes);
    ReasonsAre(outcomes);
    SortedNamesKeep(NamesFailing(outcomes), n);
  }

  lemma SettlesSaysWhy(reader: Reader, repository: string, candidate: Sha)
    requires Settles(reader, repository, candidate).Some?
    ensures SaysWhy(Settles(reader, repository, candidate).value)
  {
    if reader(repository, candidate).Ok? {
      ClassifiedMeans(reader(repository, candidate).value, "");
    }
  }

  lemma JudgedSaysWhy(git: Git, reader: Reader, repository: string, now: int, tip: Sha)
    ensures SaysWhy(JudgedTip(git, reader, repository, now, tip).0)
  {
    hide Candidates, Settles, FirstSettled;
    var branch := git.pushedBranch(tip);
    if branch.Some? {
      var candidates := Candidates(git, tip, branch.value);
      FirstSettledIs(reader, repository, candidates);
      var settled := FirstSettled(reader, repository, candidates);
      if settled.Some? {
        var k :| 0 <= k < |candidates| && settled.value.0 == candidates[k]
                 && Settles(reader, repository, candidates[k]) == Some(settled.value.1);
        SettlesSaysWhy(reader, repository, candidates[k]);
      }
    }
  }

  /**
   Once the repository and the commits resolve, exactly one commit is judged for each
   tip, and the whole passes exactly when every tip does. Where they do not resolve,
   nothing is judged and nothing passes.
   */
  lemma OneJudgementPerTip(git: Git, reader: Reader, now: int, commits: seq<string>)
    ensures var o := Observed(git, reader, now, commits);
            var repository := if git.remote.None? then None else GithubRepository(git.remote.value);
            var full := Resolved(git, commits);
            if repository.None? || full.Err? then o.judged == [] && o.outcome.Unreadable?
            else
              var tips := Tips(git, full.value);
              && |o.judged| == |tips|
              && (forall i :: 0 <= i < |tips| ==>
                    o.judged[i] == JudgedTip(git, reader, repository.value, now, tips[i]).1)
              && (o.outcome.Passed? <==>
                    forall i :: 0 <= i < |tips| ==> JudgedTip(git, reader, repository.value, now, tips[i]).0.Passed?)
              && (o.outcome.Failed? <==>
                    exists i :: 0 <= i < |tips| && JudgedTip(git, reader, repository.value, now, tips[i]).0.Failed?)
  {
    var repository := if git.remote.None? then None else GithubRepository(git.remote.value);
    var full := Resolved(git, commits);
    hide Combined, GithubRepository, Resolved, JudgedTip, Tips, SaysWhy;
    if repository.Some? && full.Ok? {
      WholeMeans(git, reader, repository.value, now, Tips(git, full.value));
    }
  }

  lemma WholeMeans(git: Git, reader: Reader, repository: string, now: int, tips: seq<Sha>)
    ensures var c := Combined(OutcomesOf(git, reader, repository, now, tips));
            && (c.Passed? <==>
                  forall i :: 0 <= i < |tips| ==> JudgedTip(git, reader, repository, now, tips[i]).0.Passed?)
            && (c.Failed? <==>
                  exists i :: 0 <= i < |tips| && JudgedTip(git, reader, repository, now, tips[i]).0.Failed?)
  {
    hide Combined, JudgedTip, SaysWhy;
    var outcomes := OutcomesOf(git, reader, repository, now, tips);
    forall o | o in outcomes
      ensures SaysWhy(o)
    {
      var i :| 0 <= i < |outcomes| && outcomes[i] == o;
      JudgedSaysWhy(git, reader, repository, now, tips[i]);
    }
    CombinedMeans(outcomes, "");
    assert forall i :: 0 <= i < |tips| ==>
             outcomes[i] == JudgedTip(git, reader, repository, now, tips[i]).0 && outcomes[i] in outcomes;
  }

  /** Work without commits has no tips, so it passes with nothing judged. */
  lemma NoCommitsPass(git: Git, reader: Reader, now: int)
    requires git.remote.Some? && GithubRepository(git.remote.value).Some?
    ensures Observed(git, reader, now, []) == Observation([], Passed)
  {
    hide GithubRepository;
  }

  // ------------------------------------------------------ remotes read back

  const REMOTE_SUFFIXES: seq<string> := ["", ".git", "/", ".git/"]

  lemma NotTrimmed(s: string, suffix: string)
    requires suffix != "" && !EndsWith(s, suffix)
    ensures TrimEndMatches(s, suffix) == s
  {
  }

  lemma TrimmedOnce(s: string, suffix: string)
    requires suffix != "" && !EndsWith(s, suffix)
    ensures TrimEndMatches(s + suffix, suffix) == s
  {
    assert (s + suffix)[|s|..] == suffix && (s + suffix)[..|s|] == s;
  }

  lemma {:induction false} SlashIsFound(owner: string, name: string)
    requires '/' !in owner
    ensures SlashAt(owner + "/" + name) == Some(|owner|)
    decreases |owner|
  {
    var s := owner + "/" + name;
    if owner != "" {
      SlashIsFound(owner[1..], name);
      assert s[1..] == owner[1..] + "/" + name;
      assert s[0] == owner[0];
      assert owner[0] in owner;
    }
  }

  lemma PathIsStripped(path: string, p: nat)
    requires p < |REMOTE_PREFIXES|
    ensures PathOf(REMOTE_PREFIXES[p] + path) == Some(path)
  {
    var remote := REMOTE_PREFIXES[p] + path;
    assert REMOTE_PREFIXES[p] <= remote && remote[|REMOTE_PREFIXES[p]|..] == path;
    assert remote[0] == REMOTE_PREFIXES[p][0];
  }

  lemma DotGitEnds(path: string)
    ensures !EndsWith(path + ".git", "/")
  {
    var s := path + ".git";
    assert s[|s| - 1] == 't';
    assert s[|s| - 1..][0] == 't';
  }

  /** Nothing a remote may end with is part of the path. */
  lemma SuffixIsTrimmed(path: string, q: nat)
    requires q < |REMOTE_SUFFIXES| && !EndsWith(path, "/") && !EndsWith(path, ".git")
    ensures TrimEndMatches(TrimEndMatches(path + REMOTE_SUFFIXES[q], "/"), ".git") == path
  {
    hide TrimEndMatches;
    assert path + "" == path;
    assert path + ".git/" == path + ".git" + "/";
    NotTrimmed(path, "/");
    NotTrimmed(path, ".git");
    TrimmedOnce(path, "/");
    TrimmedOnce(path, ".git");
    DotGitEnds(path);
    NotTrimmed(path + ".git", "/");
    TrimmedOnce(path + ".git", "/");
  }

  /** However a repository's remote is written, it reads as its owner and name. */
  lemma RemoteReadsBack(owner: string, name: string, prefix: string, suffix: string)
    requires prefix in {"git@github.com:", "ssh://git@github.com/", "https://github.com/"}
    requires suffix in {"", "/", ".git", ".git/"}
    requires owner != "" && name != "" && '/' !in owner && '/' !in name && !EndsWith(name, ".git")
    ensures GithubRepository(prefix + (owner + "/" + name + suffix)) == Some(owner + "/" + name)
  {
    hide GithubRepository, EndsWith;
    var p := if prefix == "git@github.com:" then 0 else if prefix == "ssh://git@github.com/" then 1 else 2;
    var q := if suffix == "" then 0 else if suffix == ".git" then 1 else if suffix == "/" then 2 else 3;
    assert REMOTE_PREFIXES[p] == prefix && REMOTE_SUFFIXES[q] == suffix;
    ReadsBackAt(owner, name, p, q);
  }

  /** What a remote reads as is an owner and a name, each something and neither with a slash in it. */
  lemma RemoteNamesARepository(remote: string)
    requires GithubRepository(remote).Some?
    ensures exists owner, name :: owner != "" && name != "" && '/' !in owner && '/' !in name
                                  && GithubRepository(remote).value == owner + "/" + name
  {
    hide PathOf, TrimEndMatches;
    var path := TrimEndMatches(TrimEndMatches(PathOf(remote).value, "/"), ".git");
    FirstSlash(path);
    var at := SlashAt(path);
    var owner, name := path[..at.value], path[at.value + 1..];
    assert owner != "" && name != "" && '/' !in owner && '/' !in name;
  }

  lemma {:induction false} FirstSlash(s: string)
    ensures SlashAt(s).Some? ==> SlashAt(s).value < |s| && '/' !in s[..SlashAt(s).value]
  {
    if s != "" && s[0] != '/' {
      FirstSlash(s[1..]);
      if SlashAt(s).Some? {
        assert s[..SlashAt(s).value] == [s[0]] + s[1..][..SlashAt(s[1..]).value];
      }
    }
  }

  lemma ReadsBackAt(owner: string, name: string, p: nat, q: nat)
    requires p < |REMOTE_PREFIXES| && q < |REMOTE_SUFFIXES|
    requires owner != "" && name != "" && '/' !in owner && '/' !in name && !EndsWith(name, ".git")
    ensures GithubRepository(REMOTE_PREFIXES[p] + (owner + "/" + name + REMOTE_SUFFIXES[q])) == Some(owner + "/" + name)
  {
    hide PathOf, TrimEndMatches, SlashAt, EndsWith;
    var path := owner + "/" + name;
    PathIsStripped(path + REMOTE_SUFFIXES[q], p);
    PathEnds(owner, name);
    SuffixIsTrimmed(path, q);
    SlashIsFound(owner, name);
    assert path[..|owner|] == owner && path[|owner| + 1..] == name;
  }

  lemma PathEnds(owner: string, name: string)
    requires name != "" && '/' !in name && !EndsWith(name, ".git")
    ensures !EndsWith(owner + "/" + name, "/") && !EndsWith(owner + "/" + name, ".git")
  {
    var path := owner + "/" + name;
    assert path[|path| - 1] == name[|name| - 1];
    assert name[|name| - 1] in name;
    if |name| >= 4 {
      assert path[|path| - 4..] == name[|name| - 4..];
    } else {
      assert path[|owner|] == '/';
      NoSlashInDotGit(path, |owner|);
    }
  }

  lemma NoSlashInDotGit(path: string, i: nat)
    requires |path| - 4 <= i < |path| && path[i] == '/'
    ensures !EndsWith(path, ".git")
  {
    if |path| >= 4 {
      assert path[|path| - 4..][i - (|path| - 4)] == '/';
      assert '/' !in ".git";
    }
  }
}
