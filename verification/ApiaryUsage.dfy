/**
 What an Apiary spent: counts added with saturating arithmetic by Hive, by model
 and by workspace, which have to agree however the rows were grouped on the way.
 */
module ApiaryUsage {
  import opened Options
  import opened Sorting
  import opened Ranking

  const MAX: int := 0x7FFF_FFFF_FFFF_FFFF
  const MIN: int := -MAX - 1

  type I64 = x: int | MIN <= x <= MAX

  function Sat(x: int): I64 {
    if x > MAX then MAX else if x < MIN then MIN else x
  }

  /** Figures of one bucket, or of one row; exact sums of them may pass 64 bits. */
  datatype Totals = Totals(
    input: int, cacheWrite: int, cacheRead: int, output: int, messages: int, weighted: int, activeSeconds: int)
  {
    function Plus(other: Totals): Totals {
      Totals(input + other.input, cacheWrite + other.cacheWrite, cacheRead + other.cacheRead, output + other.output,
             messages + other.messages, weighted + other.weighted, activeSeconds + other.activeSeconds)
    }

    function Clamped(): Totals {
      Totals(Sat(input), Sat(cacheWrite), Sat(cacheRead), Sat(output), Sat(messages), Sat(weighted), Sat(activeSeconds))
    }

    /** Saturating addition, figure by figure. */
    function Add(other: Totals): Totals {
      Plus(other).Clamped()
    }

    predicate NonNegative() {
      && 0 <= input && 0 <= cacheWrite && 0 <= cacheRead && 0 <= output
      && 0 <= messages && 0 <= weighted && 0 <= activeSeconds
    }

    /** Below the ceiling in every figure. */
    predicate Unsaturated() {
      && input < MAX && cacheWrite < MAX && cacheRead < MAX && output < MAX
      && messages < MAX && weighted < MAX && activeSeconds < MAX
    }
  }

  const ZERO := Totals(0, 0, 0, 0, 0, 0, 0)

  datatype UsageTokens = UsageTokens(
    day: string, workspace: string, model: string,
    input: I64, cacheWrite: I64, cacheRead: I64, output: I64, messages: I64)

  datatype UsageActive = UsageActive(day: string, workspace: string, seconds: I64)

  // ---------------------------------------------------------------- weight

  const SCALE: int := 100
  const W_INPUT: int := 100
  const W_CACHE_WRITE: int := 125
  const W_CACHE_READ: int := 10
  const W_OUTPUT: int := 500

  function Lowered(c: char): char {
    if 'A' <= c <= 'Z' then c + 32 as char else c
  }

  predicate Contains(text: string, part: string) {
    part <= text || (text != "" && Contains(text[1..], part))
  }

  function ModelMilli(model: string): int {
    var lower := seq(|model|, i requires 0 <= i < |model| => Lowered(model[i]));
    if Contains(lower, "sonnet") then 200
    else if Contains(lower, "haiku") then 55
    else 1000
  }

  /** Division as the source's integers have it, toward zero. */
  function Truncated(x: int, divisor: int): int
    requires divisor > 0
  {
    if x >= 0 then x / divisor else -(-x / divisor)
  }

  function Weigh(row: UsageTokens): I64 {
    var raw := row.input * W_INPUT + row.cacheWrite * W_CACHE_WRITE + row.cacheRead * W_CACHE_READ
               + row.output * W_OUTPUT;
    var weight := Truncated(Truncated(raw * ModelMilli(row.model), 1000), SCALE);
    if MIN <= weight <= MAX then weight else MAX
  }

  predicate NonNegativeRow(row: UsageTokens) {
    0 <= row.input && 0 <= row.cacheWrite && 0 <= row.cacheRead && 0 <= row.output && 0 <= row.messages
  }

  lemma WeightIsNonNegative(row: UsageTokens)
    requires NonNegativeRow(row)
    ensures Weigh(row) >= 0
  {
    var raw := row.input * W_INPUT + row.cacheWrite * W_CACHE_WRITE + row.cacheRead * W_CACHE_READ
               + row.output * W_OUTPUT;
    assert raw >= 0;
    var milli := ModelMilli(row.model);
    assert milli == 200 || milli == 55 || milli == 1000;
    assert raw * milli >= 0;
  }

  /** The word stands somewhere in the name, in letters of either case. */
  ghost predicate HasWord(name: string, word: string) {
    exists i :: 0 <= i <= |name| - |word| && WordAt(name, word, i)
  }

  ghost predicate WordAt(name: string, word: string, i: int) {
    && 0 <= i <= |name| - |word|
    && forall k :: 0 <= k < |word| ==>
         name[i + k] == word[k] || ('A' <= name[i + k] <= 'Z' && name[i + k] as int + 32 == word[k] as int)
  }

  /** A word without capitals is found in a lowered name exactly when it is in the name in either case. */
  lemma {:induction false} ContainsIsHasWord(name: string, word: string)
    requires word != "" && forall k :: 0 <= k < |word| ==> 'a' <= word[k] <= 'z'
    ensures Contains(seq(|name|, i requires 0 <= i < |name| => Lowered(name[i])), word) <==> HasWord(name, word)
    decreases |name|
  {
    var lower := seq(|name|, i requires 0 <= i < |name| => Lowered(name[i]));
    if name != "" {
      var rest := name[1..];
      ContainsIsHasWord(rest, word);
      assert lower[1..] == seq(|rest|, i requires 0 <= i < |rest| => Lowered(rest[i]));
      assert word <= lower <==> WordAt(name, word, 0);
      if HasWord(rest, word) {
        var i :| 0 <= i <= |rest| - |word| && WordAt(rest, word, i);
        assert WordAt(name, word, i + 1);
      }
      if HasWord(name, word) {
        var i :| 0 <= i <= |name| - |word| && WordAt(name, word, i);
        assert i > 0 ==> WordAt(rest, word, i - 1);
      }
    }
  }

  /** A name of a Sonnet costs a fifth, one of a Haiku some eighteenth part, and any other the whole. */
  lemma ModelsWeigh(model: string)
    ensures ModelMilli(model) == if HasWord(model, "sonnet") then 200 else if HasWord(model, "haiku") then 55 else 1000
  {
    hide Contains, HasWord;
    ContainsIsHasWord(model, "sonnet");
    ContainsIsHasWord(model, "haiku");
  }

  /**
   A row's weight is its cost in hundredths and thousandths, cut toward zero: an input
   counts 100, a cache write 125, a cache read 10 and an output 500, all by the model's
   part of a thousand. A cost that 64 bits cannot hold, of either sign, is the largest.
   */
  lemma WeightIsTheCost(row: UsageTokens)
    ensures var cost := (100 * row.input + 125 * row.cacheWrite + 10 * row.cacheRead + 500 * row.output)
                        * ModelMilli(row.model);
            var weight := Weigh(row);
            || (cost >= 0 && weight * 100000 <= cost < (weight + 1) * 100000)
            || (cost < 0 && weight * 100000 >= cost > (weight - 1) * 100000)
            || (weight == 0x7FFF_FFFF_FFFF_FFFF
                && (cost >= 0x8000_0000_0000_0000 * 100000 || cost <= -0x8000_0000_0000_0001 * 100000))
  {
    hide ModelMilli;
    var raw := row.input * W_INPUT + row.cacheWrite * W_CACHE_WRITE + row.cacheRead * W_CACHE_READ
               + row.output * W_OUTPUT;
    CutTwice(raw * ModelMilli(row.model));
  }

  lemma CutTwice(x: int)
    ensures var w := Truncated(Truncated(x, 1000), SCALE);
            if x >= 0 then w * 100000 <= x < (w + 1) * 100000 else w * 100000 >= x > (w - 1) * 100000
  {
  }

  /** A member's row as it reports it: nothing below zero. */
  function Reported(row: UsageTokens): UsageTokens {
    row.(input := Floored(row.input), cacheWrite := Floored(row.cacheWrite), cacheRead := Floored(row.cacheRead),
         output := Floored(row.output), messages := Floored(row.messages))
  }

  function Floored(x: I64): I64 {
    if x < 0 then 0 else x
  }

  lemma ReportedIsNonNegative(row: UsageTokens)
    ensures NonNegativeRow(Reported(row))
    ensures NonNegativeRow(row) <==> Reported(row) == row
  {
  }

  // ------------------------------------------------------------- buckets

  /** One row of either kind. */
  datatype Part = Spent(tokens: UsageTokens) | Busy(active: UsageActive)
  {
    function Amount(): Totals {
      match this
      case Spent(row) =>
        Totals(row.input, row.cacheWrite, row.cacheRead, row.output, row.messages, Weigh(row), 0)
      case Busy(row) => ZERO.(activeSeconds := row.seconds)
    }

    predicate NonNegative() {
      match this
      case Spent(row) => NonNegativeRow(row)
      case Busy(row) => 0 <= row.seconds
    }

    /** The bucket of this kind the row falls in, if it falls in any. */
    function Key(kind: Kind): Option<string> {
      match kind
      case ByModel => if Spent? then Some(tokens.model) else None
      case ByWorkspace => Some(if Spent? then tokens.workspace else active.workspace)
    }
  }

  datatype Kind = ByModel | ByWorkspace

  /** Rows within the window, tokens first. */
  function TokenParts(rows: seq<UsageTokens>, windowStart: string): seq<Part> {
    if rows == [] then []
    else TokenParts(rows[..|rows| - 1], windowStart)
         + (if NameLeq(windowStart, rows[|rows| - 1].day) then [Spent(rows[|rows| - 1])] else [])
  }

  function ActiveParts(rows: seq<UsageActive>, windowStart: string): seq<Part> {
    if rows == [] then []
    else ActiveParts(rows[..|rows| - 1], windowStart)
         + (if NameLeq(windowStart, rows[|rows| - 1].day) then [Busy(rows[|rows| - 1])] else [])
  }

  function Parts(tokens: seq<UsageTokens>, active: seq<UsageActive>, windowStart: string): seq<Part> {
    TokenParts(tokens, windowStart) + ActiveParts(active, windowStart)
  }

  function Amounts(parts: seq<Part>): seq<Totals> {
    if parts == [] then [] else Amounts(parts[..|parts| - 1]) + [parts[|parts| - 1].Amount()]
  }

  /** The parts in one bucket, in order. */
  function In(parts: seq<Part>, kind: Kind, key: string): seq<Part> {
    if parts == [] then []
    else In(parts[..|parts| - 1], kind, key)
         + (if parts[|parts| - 1].Key(kind) == Some(key) then [parts[|parts| - 1]] else [])
  }

  /** Adding up with saturation, one after another. */
  function SatSum(amounts: seq<Totals>): Totals {
    if amounts == [] then ZERO else SatSum(amounts[..|amounts| - 1]).Add(amounts[|amounts| - 1])
  }

  function ExactSum(amounts: seq<Totals>): Totals {
    if amounts == [] then ZERO else ExactSum(amounts[..|amounts| - 1]).Plus(amounts[|amounts| - 1])
  }

  function Keys(parts: seq<Part>, kind: Kind): set<string> {
    set p | p in parts && p.Key(kind).Some? :: p.Key(kind).value
  }

  function Buckets(parts: seq<Part>, kind: Kind): map<string, Totals> {
    map k | k in Keys(parts, kind) :: SatSum(Amounts(In(parts, kind, k)))
  }

  /** Biggest spender first, then busiest. */
  predicate Heavier(a: Row<Totals>, b: Row<Totals>) {
    a.value.weighted > b.value.weighted
    || (a.value.weighted == b.value.weighted && a.value.activeSeconds >= b.value.activeSeconds)
  }

  const HEAVIER: (Row<Totals>, Row<Totals>) -> bool := (a, b) => Heavier(a, b)

  lemma HeavierIsAPreorder()
    ensures TotalPreorder(HEAVIER)
  {
  }

  /** A ranking begins with the biggest spender; level ones go by busy time, and then by name. */
  lemma BiggestSpenderIsFirst(m: map<string, Totals>, rows: seq<Row<Totals>>, i: nat, j: nat)
    requires IsRanking(m, HEAVIER, rows) && i < j < |rows|
    ensures rows[i].value.weighted >= rows[j].value.weighted
    ensures rows[i].value.weighted == rows[j].value.weighted
            ==> rows[i].value.activeSeconds >= rows[j].value.activeSeconds
    ensures rows[i].value.weighted == rows[j].value.weighted
            && rows[i].value.activeSeconds == rows[j].value.activeSeconds
            ==> NameLess(rows[i].name, rows[j].name)
  {
    HeavierIsAPreorder();
    NamesApart(m, HEAVIER, rows, i, j);
    assert Ahead(HEAVIER, rows[i], rows[j]);
  }

  datatype HiveUsage = HiveUsage(totals: Totals, byModel: seq<Row<Totals>>, byWorkspace: seq<Row<Totals>>)

  function Entry(m: map<string, Totals>, key: string): Totals {
    if key in m then m[key] else ZERO
  }

  lemma KeysOfOneMore(parts: seq<Part>, p: Part, kind: Kind)
    ensures Keys(parts + [p], kind) == Keys(parts, kind) + (if p.Key(kind).Some? then {p.Key(kind).value} else {})
  {
    hide Part.Key;
    assert forall q :: q in parts + [p] <==> q in parts || q == p;
  }

  lemma BucketOfOneMore(parts: seq<Part>, p: Part, kind: Kind, k: string)
    ensures SatSum(Amounts(In(parts + [p], kind, k)))
            == if p.Key(kind) == Some(k) then SatSum(Amounts(In(parts, kind, k))).Add(p.Amount())
               else SatSum(Amounts(In(parts, kind, k)))
  {
    hide Totals.Add, Part.Amount, Part.Key, Amounts, SatSum;
    assert (parts + [p])[..|parts|] == parts;
    AmountsAppend(In(parts, kind, k), p);
    AppendSum(Amounts(In(parts, kind, k)), p.Amount());
    assert In(parts, kind, k) + [] == In(parts, kind, k);
  }

  lemma EmptyBucket(parts: seq<Part>, kind: Kind, k: string)
    requires k !in Keys(parts, kind)
    ensures SatSum(Amounts(In(parts, kind, k))) == ZERO
  {
    NothingIn(parts, kind, k);
  }

  /** One more row goes to one bucket and leaves the others. */
  lemma OneMorePart(parts: seq<Part>, p: Part, kind: Kind)
    ensures SatSum(Amounts(parts + [p])) == SatSum(Amounts(parts)).Add(p.Amount())
    ensures p.Key(kind).None? ==> Buckets(parts + [p], kind) == Buckets(parts, kind)
    ensures p.Key(kind).Some? ==>
              var k := p.Key(kind).value;
              Buckets(parts + [p], kind) == Buckets(parts, kind)[k := Entry(Buckets(parts, kind), k).Add(p.Amount())]
  {
    hide Totals.Add, Part.Amount, Part.Key, Amounts, SatSum, In, Keys;
    AmountsAppend(parts, p);
    AppendSum(Amounts(parts), p.Amount());
    KeysOfOneMore(parts, p, kind);
    forall k
      ensures k !in Keys(parts, kind) ==> SatSum(Amounts(In(parts, kind, k))) == ZERO
      ensures SatSum(Amounts(In(parts + [p], kind, k)))
              == if p.Key(kind) == Some(k) then SatSum(Amounts(In(parts, kind, k))).Add(p.Amount())
                 else SatSum(Amounts(In(parts, kind, k)))
    {
      BucketOfOneMore(parts, p, kind, k);
      if k !in Keys(parts, kind) {
        EmptyBucket(parts, kind, k);
      }
    }
  }

  lemma AmountsAppend(parts: seq<Part>, p: Part)
    ensures Amounts(parts + [p]) == Amounts(parts) + [p.Amount()]
  {
    assert (parts + [p])[..|parts|] == parts;
  }

  lemma AppendSum(amounts: seq<Totals>, a: Totals)
    ensures SatSum(amounts + [a]) == SatSum(amounts).Add(a)
    ensures ExactSum(amounts + [a]) == ExactSum(amounts).Plus(a)
  {
    assert (amounts + [a])[..|amounts|] == amounts;
  }

  lemma {:induction false} NothingIn(parts: seq<Part>, kind: Kind, k: string)
    ensures k !in Keys(parts, kind) <==> In(parts, kind, k) == []
  {
    if parts != [] {
      hide Keys, Part.Key;
      NothingIn(parts[..|parts| - 1], kind, k);
      assert parts == parts[..|parts| - 1] + [parts[|parts| - 1]];
      KeysOfOneMore(parts[..|parts| - 1], parts[|parts| - 1], kind);
    }
  }

  method Summarise(tokens: seq<UsageTokens>, active: seq<UsageActive>, windowStart: string)
    returns (usage: HiveUsage)
    ensures var parts := Parts(tokens, active, windowStart);
            && usage.totals == SatSum(Amounts(parts))
            && IsRanking(Buckets(parts, ByModel), HEAVIER, usage.byModel)
            && IsRanking(Buckets(parts, ByWorkspace), HEAVIER, usage.byWorkspace)
  {
    hide SatSum, Amounts, Buckets, NameLeq, IsRanking, TokenParts, ActiveParts, Totals.Add, Weigh;
    var totals, byModel, byWorkspace := ZERO, map[], map[];
    ghost var parts: seq<Part> := [];
    NoParts(tokens, active, windowStart);
    var i := 0;
    while i < |tokens|
      invariant 0 <= i <= |tokens|
      invariant parts == TokenParts(tokens[..i], windowStart)
      invariant totals == SatSum(Amounts(parts))
      invariant byModel == Buckets(parts, ByModel) && byWorkspace == Buckets(parts, ByWorkspace)
    {
      var row := tokens[i];
      NextToken(tokens, i, windowStart);
      if NameLeq(windowStart, row.day) {
        OneMorePart(parts, Spent(row), ByModel);
        OneMorePart(parts, Spent(row), ByWorkspace);
        totals := totals.Add(Spent(row).Amount());
        byModel := byModel[row.model := Entry(byModel, row.model).Add(Spent(row).Amount())];
        byWorkspace := byWorkspace[row.workspace := Entry(byWorkspace, row.workspace).Add(Spent(row).Amount())];
        parts := parts + [Spent(row)];
      }
      i := i + 1;
    }
    assert tokens[..|tokens|] == tokens;
    i := 0;
    while i < |active|
      invariant 0 <= i <= |active|
      invariant parts == TokenParts(tokens, windowStart) + ActiveParts(active[..i], windowStart)
      invariant totals == SatSum(Amounts(parts))
      invariant byModel == Buckets(parts, ByModel) && byWorkspace == Buckets(parts, ByWorkspace)
    {
      var row := active[i];
      NextActive(active, i, windowStart);
      if NameLeq(windowStart, row.day) {
        OneMorePart(parts, Busy(row), ByModel);
        OneMorePart(parts, Busy(row), ByWorkspace);
        totals := totals.Add(Busy(row).Amount());
        byWorkspace := byWorkspace[row.workspace := Entry(byWorkspace, row.workspace).Add(Busy(row).Amount())];
        parts := parts + [Busy(row)];
      }
      i := i + 1;
    }
    assert active[..|active|] == active;
    HeavierIsAPreorder();
    var rankedModels := Ranked(byModel, HEAVIER);
    var rankedWorkspaces := Ranked(byWorkspace, HEAVIER);
    usage := HiveUsage(totals, rankedModels, rankedWorkspaces);
  }

  lemma NoParts(tokens: seq<UsageTokens>, active: seq<UsageActive>, windowStart: string)
    ensures TokenParts(tokens[..0], windowStart) == [] && ActiveParts(active[..0], windowStart) == []
    ensures SatSum(Amounts([])) == ZERO && Buckets([], ByModel) == map[] && Buckets([], ByWorkspace) == map[]
  {
  }

  lemma NextToken(tokens: seq<UsageTokens>, i: nat, windowStart: string)
    requires i < |tokens|
    ensures TokenParts(tokens[..i + 1], windowStart)
         == TokenParts(tokens[..i], windowStart)
            + (if NameLeq(windowStart, tokens[i].day) then [Spent(tokens[i])] else [])
  {
    assert tokens[..i + 1][..i] == tokens[..i];
  }

  lemma NextActive(active: seq<UsageActive>, i: nat, windowStart: string)
    requires i < |active|
    ensures ActiveParts(active[..i + 1], windowStart)
         == ActiveParts(active[..i], windowStart)
            + (if NameLeq(windowStart, active[i].day) then [Busy(active[i])] else [])
  {
    assert active[..i + 1][..i] == active[..i];
  }

  // ------------------------------------------------------- the whole Apiary

  function Flattened(hives: seq<HiveUsage>): seq<Row<Totals>> {
    if hives == [] then [] else Flattened(hives[..|hives| - 1]) + hives[|hives| - 1].byModel
  }

  function HiveTotals(hives: seq<HiveUsage>): seq<Totals> {
    if hives == [] then [] else HiveTotals(hives[..|hives| - 1]) + [hives[|hives| - 1].totals]
  }

  /** What the rows of one name hold, in order. */
  function Named(rows: seq<Row<Totals>>, name: string): seq<Totals> {
    if rows == [] then []
    else Named(rows[..|rows| - 1], name)
         + (if rows[|rows| - 1].name == name then [rows[|rows| - 1].value] else [])
  }

  function Names(rows: seq<Row<Totals>>): set<string> {
    set r | r in rows :: r.name
  }

  function Merged(rows: seq<Row<Totals>>): map<string, Totals> {
    map n | n in Names(rows) :: SatSum(Named(rows, n))
  }

  lemma OneMoreRow(rows: seq<Row<Totals>>, r: Row<Totals>)
    ensures Merged(rows + [r]) == Merged(rows)[r.name := Entry(Merged(rows), r.name).Add(r.value)]
  {
    hide Totals.Add;
    var more := rows + [r];
    assert more[..|rows|] == rows && more[|rows|] == r;
    assert forall q :: q in more <==> q in rows || q == r;
    forall n
      ensures n !in Names(rows) ==> Named(rows, n) == []
      ensures Named(more, n) == Named(rows, n) + (if r.name == n then [r.value] else [])
      ensures SatSum(Named(more, n))
              == if r.name == n then SatSum(Named(rows, n)).Add(r.value) else SatSum(Named(rows, n))
    {
      NothingNamed(rows, n);
      AppendSum(Named(rows, n), r.value);
      assert Named(rows, n) + [] == Named(rows, n);
    }
  }

  lemma NamesOfOneMore(before: seq<Row<Totals>>, r: Row<Totals>)
    ensures Names(before + [r]) == Names(before) + {r.name}
  {
    assert forall q :: q in before + [r] <==> q in before || q == r;
  }

  lemma {:induction false} NothingNamed(rows: seq<Row<Totals>>, n: string)
    ensures n !in Names(rows) <==> Named(rows, n) == []
  {
    if rows != [] {
      hide Names;
      NothingNamed(rows[..|rows| - 1], n);
      assert rows == rows[..|rows| - 1] + [rows[|rows| - 1]];
      NamesOfOneMore(rows[..|rows| - 1], rows[|rows| - 1]);
    }
  }

  /** The Apiary's own figures, added up from what each Hive's already are. */
  method AddUp(hives: seq<HiveUsage>) returns (totals: Totals, byModel: seq<Row<Totals>>)
    ensures totals == SatSum(HiveTotals(hives))
    ensures IsRanking(Merged(Flattened(hives)), HEAVIER, byModel)
  {
    hide SatSum, Merged, IsRanking, Totals.Add, Flattened, HiveTotals, TotalPreorder;
    totals := ZERO;
    var merged := map[];
    NoHives(hives);
    var i := 0;
    while i < |hives|
      invariant 0 <= i <= |hives|
      invariant totals == SatSum(HiveTotals(hives[..i]))
      invariant merged == Merged(Flattened(hives[..i]))
    {
      NextHive(hives, i);
      AppendSum(HiveTotals(hives[..i]), hives[i].totals);
      totals := totals.Add(hives[i].totals);
      var rows := hives[i].byModel;
      var j := 0;
      assert Flattened(hives[..i]) + rows[..0] == Flattened(hives[..i]);
      while j < |rows|
        invariant 0 <= j <= |rows|
        invariant merged == Merged(Flattened(hives[..i]) + rows[..j])
      {
        OneMoreRow(Flattened(hives[..i]) + rows[..j], rows[j]);
        assert Flattened(hives[..i]) + rows[..j] + [rows[j]] == Flattened(hives[..i]) + rows[..j + 1];
        merged := merged[rows[j].name := Entry(merged, rows[j].name).Add(rows[j].value)];
        j := j + 1;
      }
      assert rows[..|rows|] == rows;
      i := i + 1;
    }
    assert hives[..|hives|] == hives;
    HeavierIsAPreorder();
    byModel := Ranked(merged, HEAVIER);
  }

  lemma NextHive(hives: seq<HiveUsage>, i: nat)
    requires i < |hives|
    ensures Flattened(hives[..i + 1]) == Flattened(hives[..i]) + hives[i].byModel
    ensures HiveTotals(hives[..i + 1]) == HiveTotals(hives[..i]) + [hives[i].totals]
  {
    assert hives[..i + 1][..i] == hives[..i];
  }

  lemma NoHives(hives: seq<HiveUsage>)
    ensures SatSum(HiveTotals(hives[..0])) == ZERO && Merged(Flattened(hives[..0])) == map[]
  {
  }

  // ---------------------------------------------- saturation and regrouping

  ghost predicate AllNonNegative(amounts: seq<Totals>) {
    forall a :: a in amounts ==> a.NonNegative()
  }

  ghost predicate NonNegativeParts(parts: seq<Part>) {
    forall p :: p in parts ==> p.NonNegative()
  }

  lemma PartIsNonNegative(p: Part)
    requires p.NonNegative()
    ensures p.Amount().NonNegative()
  {
    if p.Spent? {
      WeightIsNonNegative(p.tokens);
    }
  }

  lemma {:induction false} AmountsAreNonNegative(parts: seq<Part>)
    requires NonNegativeParts(parts)
    ensures AllNonNegative(Amounts(parts))
  {
    if parts != [] {
      AmountsAreNonNegative(parts[..|parts| - 1]);
      PartIsNonNegative(parts[|parts| - 1]);
    }
  }

  /** Clamping on the way and clamping at the end come to the same. */
  lemma ClampedAdd(a: Totals, b: Totals)
    requires a.NonNegative() && b.NonNegative()
    ensures a.Clamped().Add(b.Clamped()) == a.Plus(b).Clamped()
    ensures a.Clamped().Add(b) == a.Plus(b).Clamped()
    ensures a.Plus(b).NonNegative() && a.Clamped().NonNegative()
  {
  }

  /** For figures that are not negative, adding with saturation gives the exact sum, capped. */
  lemma {:induction false} SaturatedSumIsCapped(amounts: seq<Totals>)
    requires AllNonNegative(amounts)
    ensures SatSum(amounts) == ExactSum(amounts).Clamped()
    ensures ExactSum(amounts).NonNegative()
  {
    if amounts != [] {
      hide Totals.Add, Totals.Plus, Totals.Clamped;
      var init := amounts[..|amounts| - 1];
      SaturatedSumIsCapped(init);
      ClampedAdd(ExactSum(init), amounts[|amounts| - 1]);
    } else {
      assert ZERO.Clamped() == ZERO;
    }
  }

  lemma PlusIsAMonoid(a: Totals, b: Totals, c: Totals)
    ensures a.Plus(b).Plus(c) == a.Plus(b.Plus(c))
    ensures a.Plus(b) == b.Plus(a)
    ensures a.Plus(ZERO) == a
  {
  }

  lemma {:induction false} ExactSumAppend(a: seq<Totals>, b: seq<Totals>)
    ensures ExactSum(a + b) == ExactSum(a).Plus(ExactSum(b))
    decreases |b|
  {
    hide Totals.Plus;
    if b == [] {
      assert a + b == a;
      PlusIsAMonoid(ExactSum(a), ZERO, ZERO);
    } else {
      var init, last := b[..|b| - 1], b[|b| - 1];
      ExactSumAppend(a, init);
      assert (a + b)[..|a + b| - 1] == a + init;
      PlusIsAMonoid(ExactSum(a), ExactSum(init), last);
    }
  }

  /** An exact sum does not depend on the order. */
  lemma {:induction false} ExactSumOfAnyOrder(a: seq<Totals>, b: seq<Totals>)
    requires multiset(a) == multiset(b)
    ensures ExactSum(a) == ExactSum(b)
    decreases |a|
  {
    assert |a| == |multiset(a)| == |multiset(b)| == |b|;
    if a != [] {
      hide Totals.Plus;
      var i := TakeOut(a, b);
      var last, rest := b[i], b[..i] + b[i + 1..];
      ExactSumOfAnyOrder(a[..|a| - 1], rest);
      SumWithout(b, i);
    }
  }

  lemma SumWithout(b: seq<Totals>, i: nat)
    requires i < |b|
    ensures ExactSum(b) == ExactSum(b[..i] + b[i + 1..]).Plus(b[i])
  {
    hide Totals.Plus, ExactSum;
    var front, back := b[..i], b[i + 1..];
    assert b == front + [b[i]] + back;
    ExactSumAppend(front + [b[i]], back);
    AppendSum(front, b[i]);
    ExactSumAppend(front, back);
    PlusIsAMonoid(ExactSum(front), b[i], ExactSum(back));
    PlusIsAMonoid(b[i], ExactSum(back), ZERO);
    PlusIsAMonoid(ExactSum(front), ExactSum(back), b[i]);
  }

  lemma {:induction false} AmountsOfBoth(a: seq<Part>, b: seq<Part>)
    ensures Amounts(a + b) == Amounts(a) + Amounts(b)
    decreases |b|
  {
    hide Part.Amount;
    if b == [] {
      assert a + b == a;
    } else {
      AmountsOfBoth(a, b[..|b| - 1]);
      assert a + b == a + b[..|b| - 1] + [b[|b| - 1]];
      AmountsAppend(a + b[..|b| - 1], b[|b| - 1]);
    }
  }

  lemma {:induction false} InBoth(a: seq<Part>, b: seq<Part>, kind: Kind, k: string)
    ensures In(a + b, kind, k) == In(a, kind, k) + In(b, kind, k)
    decreases |b|
  {
    hide Part.Key;
    if b == [] {
      assert a + b == a;
    } else {
      InBoth(a, b[..|b| - 1], kind, k);
      assert (a + b)[..|a + b| - 1] == a + b[..|b| - 1];
    }
  }

  lemma {:induction false} InIsAmong(parts: seq<Part>, kind: Kind, k: string)
    ensures forall p :: p in In(parts, kind, k) ==> p in parts
  {
    if parts != [] {
      InIsAmong(parts[..|parts| - 1], kind, k);
    }
  }

  /** A bucket's exact figures. */
  function ExactIn(parts: seq<Part>, kind: Kind, k: string): Totals {
    ExactSum(Amounts(In(parts, kind, k)))
  }

  lemma BucketIsCapped(parts: seq<Part>, kind: Kind, k: string)
    requires NonNegativeParts(parts)
    ensures SatSum(Amounts(In(parts, kind, k))) == ExactIn(parts, kind, k).Clamped()
    ensures ExactIn(parts, kind, k).NonNegative()
  {
    InIsAmong(parts, kind, k);
    AmountsAreNonNegative(In(parts, kind, k));
    SaturatedSumIsCapped(Amounts(In(parts, kind, k)));
  }

  lemma {:induction false} AmountsOfAnyOrder(a: seq<Part>, b: seq<Part>)
    requires multiset(a) == multiset(b)
    ensures multiset(Amounts(a)) == multiset(Amounts(b))
    decreases |a|
  {
    assert |a| == |multiset(a)| == |multiset(b)| == |b|;
    if a != [] {
      hide Part.Amount;
      var i := TakeOut(a, b);
      var last, rest := b[i], b[..i] + b[i + 1..];
      AmountsOfAnyOrder(a[..|a| - 1], rest);
      AmountsOfBoth(b[..i] + [last], b[i + 1..]);
      AmountsOfBoth(b[..i], b[i + 1..]);
      AmountsAppend(b[..i], last);
    }
  }

  lemma InOneMore(parts: seq<Part>, p: Part, kind: Kind, k: string)
    ensures In(parts + [p], kind, k) == In(parts, kind, k) + (if p.Key(kind) == Some(k) then [p] else [])
  {
    assert (parts + [p])[..|parts|] == parts;
  }

  /** A bucket holds each of its rows as often as it came. */
  lemma {:induction false} InCounts(parts: seq<Part>, kind: Kind, k: string, p: Part)
    ensures multiset(In(parts, kind, k))[p] == if p.Key(kind) == Some(k) then multiset(parts)[p] else 0
  {
    if parts != [] {
      var init, last := parts[..|parts| - 1], parts[|parts| - 1];
      InCounts(init, kind, k, p);
      hide *;
      assert parts == init + [last];
      InOneMore(init, last, kind, k);
    }
  }

  lemma InOfAnyOrder(a: seq<Part>, b: seq<Part>, kind: Kind, k: string)
    requires multiset(a) == multiset(b)
    ensures multiset(In(a, kind, k)) == multiset(In(b, kind, k))
  {
    hide In;
    forall p
      ensures multiset(In(a, kind, k))[p] == multiset(In(b, kind, k))[p]
    {
      InCounts(a, kind, k, p);
      InCounts(b, kind, k, p);
    }
  }

  lemma SameParts(a: seq<Part>, b: seq<Part>)
    requires multiset(a) == multiset(b)
    ensures forall p :: p in a <==> p in b
  {
    forall p
      ensures p in a <==> p in b
    {
      assert p in multiset(a) <==> p in multiset(b);
    }
  }

  lemma SumOfAnyOrder(a: seq<Part>, b: seq<Part>)
    requires NonNegativeParts(a) && multiset(a) == multiset(b)
    ensures SatSum(Amounts(a)) == SatSum(Amounts(b)) == ExactSum(Amounts(a)).Clamped()
  {
    hide SatSum, ExactSum, Amounts, Totals.Clamped;
    SameParts(a, b);
    AmountsAreNonNegative(a);
    AmountsAreNonNegative(b);
    SaturatedSumIsCapped(Amounts(a));
    SaturatedSumIsCapped(Amounts(b));
    AmountsOfAnyOrder(a, b);
    ExactSumOfAnyOrder(Amounts(a), Amounts(b));
  }

  /**
   However rows that are not negative are ordered, every figure is the exact sum
   capped at 64 bits: the totals, and each bucket by model and by workspace.
   */
  lemma OrderDoesNotMatter(a: seq<Part>, b: seq<Part>, kind: Kind)
    requires NonNegativeParts(a) && multiset(a) == multiset(b)
    ensures SatSum(Amounts(a)) == SatSum(Amounts(b)) == ExactSum(Amounts(a)).Clamped()
    ensures Buckets(a, kind) == Buckets(b, kind)
    ensures forall k :: k in Buckets(a, kind) ==> Buckets(a, kind)[k] == ExactIn(a, kind, k).Clamped()
  {
    hide SatSum, ExactSum, Amounts, In, Totals.Clamped, Part.Key;
    SumOfAnyOrder(a, b);
    SameParts(a, b);
    assert Keys(a, kind) == Keys(b, kind);
    forall k
      ensures SatSum(Amounts(In(a, kind, k))) == SatSum(Amounts(In(b, kind, k))) == ExactIn(a, kind, k).Clamped()
    {
      InIsAmong(a, kind, k);
      InOfAnyOrder(a, b, kind, k);
      SumOfAnyOrder(In(a, kind, k), In(b, kind, k));
    }
  }

  function Joined(groups: seq<seq<Part>>): seq<Part> {
    if groups == [] then [] else Joined(groups[..|groups| - 1]) + groups[|groups| - 1]
  }

  /** Each Hive's figures are what its own rows come to. */
  ghost predicate SummarisedFrom(groups: seq<seq<Part>>, hives: seq<HiveUsage>) {
    && |groups| == |hives|
    && forall i :: 0 <= i < |hives| ==>
         && NonNegativeParts(groups[i])
         && hives[i].totals == SatSum(Amounts(groups[i]))
         && IsRanking(Buckets(groups[i], ByModel), HEAVIER, hives[i].byModel)
  }

  lemma {:induction false} JoinedIsNonNegative(groups: seq<seq<Part>>)
    requires forall i :: 0 <= i < |groups| ==> NonNegativeParts(groups[i])
    ensures NonNegativeParts(Joined(groups))
  {
    if groups != [] {
      JoinedIsNonNegative(groups[..|groups| - 1]);
    }
  }

  lemma {:induction false} TotalsAgree(groups: seq<seq<Part>>, hives: seq<HiveUsage>)
    requires SummarisedFrom(groups, hives)
    ensures SatSum(HiveTotals(hives)) == ExactSum(Amounts(Joined(groups))).Clamped()
    ensures ExactSum(Amounts(Joined(groups))).NonNegative()
    decreases |groups|
  {
    hide Totals.Add, Totals.Plus, Totals.Clamped, Totals.NonNegative;
    if groups == [] {
      CappedZero();
    } else {
      var n := |groups| - 1;
      TotalsAgree(groups[..n], hives[..n]);
      AppendSum(HiveTotals(hives[..n]), hives[n].totals);
      AmountsOfBoth(Joined(groups[..n]), groups[n]);
      ExactSumAppend(Amounts(Joined(groups[..n])), Amounts(groups[n]));
      AmountsAreNonNegative(groups[n]);
      SaturatedSumIsCapped(Amounts(groups[n]));
      ClampedAdd(ExactSum(Amounts(Joined(groups[..n]))), ExactSum(Amounts(groups[n])));
    }
  }

  lemma CappedZero()
    ensures ZERO.Clamped() == ZERO && ZERO.NonNegative()
  {
  }

  lemma {:induction false} NamedInBoth(a: seq<Row<Totals>>, b: seq<Row<Totals>>, n: string)
    ensures Named(a + b, n) == Named(a, n) + Named(b, n)
    decreases |b|
  {
    if b == [] {
      assert a + b == a;
    } else {
      NamedInBoth(a, b[..|b| - 1], n);
      assert (a + b)[..|a + b| - 1] == a + b[..|b| - 1];
    }
  }

  /** A ranking has one row of each name. */
  lemma NamedInRanking(m: map<string, Totals>, rows: seq<Row<Totals>>, n: string)
    requires IsRanking(m, HEAVIER, rows)
    ensures Named(rows, n) == if n in m then [m[n]] else []
    ensures Names(rows) == m.Keys
  {
    HeavierIsAPreorder();
    forall k
      ensures k in Names(rows) <==> k in m.Keys
    {
      if k in m {
        assert Row(k, m[k]) in rows;
      }
    }
    if n !in m {
      NothingNamed(rows, n);
    } else {
      var i :| 0 <= i < |rows| && rows[i] == Row(n, m[n]);
      forall j | 0 <= j < |rows| && j != i
        ensures rows[j].name != n
      {
        if j < i {
          NamesApart(m, HEAVIER, rows, j, i);
        } else {
          NamesApart(m, HEAVIER, rows, i, j);
        }
      }
      NamedOnce(rows, n, i);
    }
  }

  lemma {:induction false} NamedOnce(rows: seq<Row<Totals>>, n: string, i: nat)
    requires i < |rows| && rows[i].name == n
    requires forall j :: 0 <= j < |rows| && j != i ==> rows[j].name != n
    ensures Named(rows, n) == [rows[i].value]
    decreases |rows|
  {
    var init := rows[..|rows| - 1];
    if i == |init| {
      NothingNamed(init, n);
    } else {
      NamedOnce(init, n, i);
    }
  }

  /** One more Hive adds its own bucket of a model, if it has one. */
  lemma ModelOfOneMore(before: seq<Part>, group: seq<Part>, n: string)
    requires NonNegativeParts(group) && ExactIn(before, ByModel, n).NonNegative()
    ensures var own := SatSum(Amounts(In(group, ByModel, n)));
            && ExactIn(before, ByModel, n).Clamped().Add(own) == ExactIn(before + group, ByModel, n).Clamped()
            && ExactIn(before + group, ByModel, n).NonNegative()
            && (n !in Keys(group, ByModel) ==> ExactIn(before + group, ByModel, n) == ExactIn(before, ByModel, n))
  {
    hide SatSum, Totals.Add, Totals.Plus, Totals.Clamped, Totals.NonNegative;
    InBoth(before, group, ByModel, n);
    AmountsOfBoth(In(before, ByModel, n), In(group, ByModel, n));
    ExactSumAppend(Amounts(In(before, ByModel, n)), Amounts(In(group, ByModel, n)));
    BucketIsCapped(group, ByModel, n);
    ClampedAdd(ExactIn(before, ByModel, n), ExactIn(group, ByModel, n));
    NothingIn(group, ByModel, n);
    PlusIsAMonoid(ExactIn(before, ByModel, n), ZERO, ZERO);
  }

  lemma NamesOfBoth(before: seq<Row<Totals>>, rows: seq<Row<Totals>>)
    ensures Names(before + rows) == Names(before) + Names(rows)
  {
    assert forall r :: r in before + rows <==> r in before || r in rows;
  }

  lemma KeysOfBoth(a: seq<Part>, b: seq<Part>, kind: Kind)
    ensures Keys(a + b, kind) == Keys(a, kind) + Keys(b, kind)
  {
    hide Part.Key;
    assert forall p :: p in a + b <==> p in a || p in b;
  }

  lemma OneMoreHive(groups: seq<seq<Part>>, hives: seq<HiveUsage>)
    requires SummarisedFrom(groups, hives) && groups != []
    ensures var last := |groups| - 1;
            && SummarisedFrom(groups[..last], hives[..last])
            && NonNegativeParts(groups[last])
            && IsRanking(Buckets(groups[last], ByModel), HEAVIER, hives[last].byModel)
            && Joined(groups) == Joined(groups[..last]) + groups[last]
            && Flattened(hives) == Flattened(hives[..last]) + hives[last].byModel
  {
  }

  /** Whether a list of rows holds of a model what these parts come to. */
  ghost predicate Agrees(rows: seq<Row<Totals>>, parts: seq<Part>, n: string) {
    && SatSum(Named(rows, n)) == ExactIn(parts, ByModel, n).Clamped()
    && ExactIn(parts, ByModel, n).NonNegative()
    && (n in Names(rows) <==> n in Keys(parts, ByModel))
  }

  lemma AgreesWithOneMore(
    before: seq<Row<Totals>>, rows: seq<Row<Totals>>, prior: seq<Part>, group: seq<Part>, n: string)
    requires Agrees(before, prior, n)
    requires NonNegativeParts(group) && IsRanking(Buckets(group, ByModel), HEAVIER, rows)
    ensures Agrees(before + rows, prior + group, n)
  {
    hide SatSum, Named, ExactIn, Names, Totals.Add, Totals.Clamped, Totals.NonNegative, IsRanking, NonNegativeParts,
         Keys;
    NamedInBoth(before, rows, n);
    NamedInRanking(Buckets(group, ByModel), rows, n);
    ModelOfOneMore(prior, group, n);
    AppendSum(Named(before, n), SatSum(Amounts(In(group, ByModel, n))));
    assert Named(before, n) + [] == Named(before, n);
    NamesOfBoth(before, rows);
    KeysOfBoth(prior, group, ByModel);
  }

  lemma {:induction false} ModelAgrees(groups: seq<seq<Part>>, hives: seq<HiveUsage>, n: string)
    requires SummarisedFrom(groups, hives)
    ensures Agrees(Flattened(hives), Joined(groups), n)
    decreases |groups|
  {
    if groups == [] {
      CappedZero();
    } else {
      hide Agrees, IsRanking, NonNegativeParts, Joined, Flattened;
      var last := |groups| - 1;
      OneMoreHive(groups, hives);
      ModelAgrees(groups[..last], hives[..last], n);
      AgreesWithOneMore(Flattened(hives[..last]), hives[last].byModel, Joined(groups[..last]), groups[last], n);
    }
  }

  /**
   The Apiary's totals and buckets by model, added up from what each Hive's had
   already been capped to, are what all the rows together come to: grouping by Hive
   first loses nothing and adds nothing, even past 64 bits.
   */
  lemma RegroupingAgrees(groups: seq<seq<Part>>, hives: seq<HiveUsage>)
    requires SummarisedFrom(groups, hives)
    ensures SatSum(HiveTotals(hives)) == SatSum(Amounts(Joined(groups)))
    ensures Merged(Flattened(hives)) == Buckets(Joined(groups), ByModel)
  {
    hide SatSum, Named, Flattened, In, Amounts, Joined, Names, Keys, ExactSum, ExactIn, Totals.Clamped;
    JoinedIsNonNegative(groups);
    TotalsAgree(groups, hives);
    AmountsAreNonNegative(Joined(groups));
    SaturatedSumIsCapped(Amounts(Joined(groups)));
    forall n
      ensures SatSum(Named(Flattened(hives), n)) == SatSum(Amounts(In(Joined(groups), ByModel, n)))
      ensures n in Names(Flattened(hives)) <==> n in Keys(Joined(groups), ByModel)
    {
      ModelAgrees(groups, hives, n);
      BucketIsCapped(Joined(groups), ByModel, n);
    }
  }

  // ------------------------------------------------------- nothing left over

  function ExactByName(parts: seq<Part>, kind: Kind, names: seq<string>): seq<Totals> {
    seq(|names|, i requires 0 <= i < |names| => ExactIn(parts, kind, names[i]))
  }

  /** What a row counts for among buckets of this kind: busy time has no model. */
  function Kept(t: Totals, kind: Kind): Totals {
    if kind.ByWorkspace? then t else t.(activeSeconds := 0)
  }

  lemma ExactInOneMore(parts: seq<Part>, p: Part, kind: Kind, k: string)
    ensures ExactIn(parts + [p], kind, k)
         == if p.Key(kind) == Some(k) then ExactIn(parts, kind, k).Plus(p.Amount()) else ExactIn(parts, kind, k)
  {
    hide In, Part.Key, Amounts, ExactSum, Totals.Plus, Part.Amount;
    InOneMore(parts, p, kind, k);
    AmountsAppend(In(parts, kind, k), p);
    AppendSum(Amounts(In(parts, kind, k)), p.Amount());
    assert In(parts, kind, k) + [] == In(parts, kind, k);
  }

  predicate Distinct(names: seq<string>) {
    forall i, j :: 0 <= i < j < |names| ==> names[i] != names[j]
  }

  lemma ByNameStep(parts: seq<Part>, kind: Kind, names: seq<string>, last: string)
    ensures ExactSum(ExactByName(parts, kind, names + [last]))
         == ExactSum(ExactByName(parts, kind, names)).Plus(ExactIn(parts, kind, last))
  {
    hide Totals.Plus, ExactIn;
    assert ExactByName(parts, kind, names + [last]) == ExactByName(parts, kind, names) + [ExactIn(parts, kind, last)];
    AppendSum(ExactByName(parts, kind, names), ExactIn(parts, kind, last));
  }

  lemma AddedBefore(a: Totals, b: Totals, c: Totals)
    ensures a.Plus(b).Plus(c) == a.Plus(c).Plus(b) && a.Plus(b.Plus(c)) == a.Plus(b).Plus(c)
  {
  }

  /** One more row adds to the sum over the buckets, once, if its own is among them. */
  lemma {:induction false} OneMoreByName(parts: seq<Part>, p: Part, kind: Kind, names: seq<string>)
    requires Distinct(names)
    ensures ExactSum(ExactByName(parts + [p], kind, names))
         == if p.Key(kind).Some? && p.Key(kind).value in names
            then ExactSum(ExactByName(parts, kind, names)).Plus(p.Amount())
            else ExactSum(ExactByName(parts, kind, names))
    decreases |names|
  {
    if names != [] {
      hide Totals.Plus, Part.Key, Part.Amount, ExactIn, ExactSum, ExactByName;
      var init, last := names[..|names| - 1], names[|names| - 1];
      assert names == init + [last];
      OneMoreByName(parts, p, kind, init);
      ExactInOneMore(parts, p, kind, last);
      ByNameStep(parts + [p], kind, init, last);
      ByNameStep(parts, kind, init, last);
      AddedBefore(ExactSum(ExactByName(parts, kind, init)), p.Amount(), ExactIn(parts, kind, last));
      AddedBefore(ExactSum(ExactByName(parts, kind, init)), ExactIn(parts, kind, last), p.Amount());
      assert p.Key(kind) == Some(last) ==> last !in init;
    }
  }

  lemma {:induction false} NoBuckets(kind: Kind, names: seq<string>)
    ensures ExactSum(ExactByName([], kind, names)) == ZERO
    decreases |names|
  {
    if names != [] {
      hide ExactSum, ExactByName, Totals.Plus, ExactIn;
      var init, last := names[..|names| - 1], names[|names| - 1];
      assert names == init + [last];
      NoBuckets(kind, init);
      ByNameStep([], kind, init, last);
      EmptyBucketIsZero(kind, last);
      PlusIsAMonoid(ZERO, ZERO, ZERO);
    }
  }

  lemma EmptyBucketIsZero(kind: Kind, k: string)
    ensures ExactIn([], kind, k) == ZERO
  {
  }

  lemma KeptAdds(t: Totals, p: Part, kind: Kind)
    ensures Kept(t.Plus(p.Amount()), kind)
         == if p.Key(kind).Some? then Kept(t, kind).Plus(p.Amount()) else Kept(t, kind)
  {
  }

  /** Over names that cover every bucket, the buckets partition the rows. */
  lemma {:induction false} BucketsPartition(parts: seq<Part>, kind: Kind, names: seq<string>)
    requires Distinct(names) && forall k :: k in Keys(parts, kind) ==> k in names
    ensures ExactSum(ExactByName(parts, kind, names)) == Kept(ExactSum(Amounts(parts)), kind)
    decreases |parts|
  {
    if parts == [] {
      NoBuckets(kind, names);
    } else {
      hide Totals.Plus, Part.Key, Part.Amount, Keys, Kept, ExactSum, ExactByName;
      var init, last := parts[..|parts| - 1], parts[|parts| - 1];
      assert parts == init + [last];
      KeysOfOneMore(init, last, kind);
      BucketsPartition(init, kind, names);
      OneMoreByName(init, last, kind, names);
      AmountsAppend(init, last);
      AppendSum(Amounts(init), last.Amount());
      KeptAdds(ExactSum(Amounts(init)), last, kind);
    }
  }

  function Values(rows: seq<Row<Totals>>): seq<Totals> {
    seq(|rows|, i requires 0 <= i < |rows| => rows[i].value)
  }

  function NamesOf(rows: seq<Row<Totals>>): seq<string> {
    seq(|rows|, i requires 0 <= i < |rows| => rows[i].name)
  }

  /** Each row holds its bucket's exact figures, capped. */
  ghost predicate AllCapped(parts: seq<Part>, kind: Kind, rows: seq<Row<Totals>>) {
    forall i :: 0 <= i < |rows| ==> rows[i].value == ExactIn(parts, kind, rows[i].name).Clamped()
  }

  lemma {:induction false} CappedOneByOne(capped: seq<Totals>, exact: seq<Totals>)
    requires |capped| == |exact| && forall i :: 0 <= i < |exact| ==> exact[i].NonNegative()
    requires forall i :: 0 <= i < |exact| ==> capped[i] == exact[i].Clamped()
    ensures SatSum(capped) == ExactSum(exact).Clamped()
    ensures ExactSum(exact).NonNegative()
  {
    if exact == [] {
      CappedZero();
    } else {
      hide Totals.Plus, Totals.Clamped, Totals.Add, Totals.NonNegative;
      CappedOneByOne(capped[..|exact| - 1], exact[..|exact| - 1]);
      ClampedAdd(ExactSum(exact[..|exact| - 1]), exact[|exact| - 1]);
    }
  }

  /** Capping each bucket before adding them changes nothing after the cap. */
  lemma CappedBuckets(parts: seq<Part>, kind: Kind, rows: seq<Row<Totals>>)
    requires NonNegativeParts(parts) && AllCapped(parts, kind, rows)
    ensures SatSum(Values(rows)) == ExactSum(ExactByName(parts, kind, NamesOf(rows))).Clamped()
  {
    hide ExactIn, Totals.Clamped, Totals.NonNegative, ExactSum, SatSum, NonNegativeParts;
    var names := NamesOf(rows);
    var exact := ExactByName(parts, kind, names);
    forall i | 0 <= i < |rows|
      ensures exact[i].NonNegative() && Values(rows)[i] == exact[i].Clamped()
    {
      BucketIsCapped(parts, kind, names[i]);
    }
    CappedOneByOne(Values(rows), exact);
  }

  /**
   A breakdown loses nothing: its buckets, each already capped, add up to the
   totals, except that busy time has no model to go to.
   */
  lemma BreakdownAddsUp(parts: seq<Part>, kind: Kind, rows: seq<Row<Totals>>)
    requires NonNegativeParts(parts) && IsRanking(Buckets(parts, kind), HEAVIER, rows)
    ensures SatSum(Values(rows)) == Kept(SatSum(Amounts(parts)), kind)
  {
    hide IsRanking, ExactSum, SatSum, Totals.Clamped, In, Amounts, ExactIn, ExactByName, Keys, Values;
    RankedBuckets(parts, kind, rows);
    CappedBuckets(parts, kind, rows);
    BucketsPartition(parts, kind, NamesOf(rows));
    AmountsAreNonNegative(parts);
    SaturatedSumIsCapped(Amounts(parts));
    ClampedKept(ExactSum(Amounts(parts)), kind);
  }

  lemma ClampedKept(t: Totals, kind: Kind)
    ensures Kept(t, kind).Clamped() == Kept(t.Clamped(), kind)
  {
  }

  lemma RankedBuckets(parts: seq<Part>, kind: Kind, rows: seq<Row<Totals>>)
    requires NonNegativeParts(parts) && IsRanking(Buckets(parts, kind), HEAVIER, rows)
    ensures Distinct(NamesOf(rows))
    ensures forall k :: k in Keys(parts, kind) ==> k in NamesOf(rows)
    ensures AllCapped(parts, kind, rows)
  {
    hide ExactIn, Totals.Clamped, In, Amounts, SatSum, Keys, Ahead;
    HeavierIsAPreorder();
    var m := Buckets(parts, kind);
    forall i, j | 0 <= i < j < |rows|
      ensures rows[i].name != rows[j].name
    {
      NamesApart(m, HEAVIER, rows, i, j);
    }
    forall k | k in Keys(parts, kind)
      ensures k in NamesOf(rows)
    {
      assert Row(k, m[k]) in rows;
      var i :| 0 <= i < |rows| && rows[i] == Row(k, m[k]);
      assert NamesOf(rows)[i] == k;
    }
    forall i | 0 <= i < |rows|
      ensures rows[i].value == ExactIn(parts, kind, rows[i].name).Clamped()
    {
      assert rows[i] in rows;
      BucketIsCapped(parts, kind, rows[i].name);
    }
  }

  /** Below 64 bits the same holds of plain addition. */
  lemma BreakdownAddsUpExactly(parts: seq<Part>, kind: Kind, rows: seq<Row<Totals>>)
    requires NonNegativeParts(parts) && IsRanking(Buckets(parts, kind), HEAVIER, rows)
    requires SatSum(Amounts(parts)).Unsaturated()
    ensures ExactSum(Values(rows)) == Kept(SatSum(Amounts(parts)), kind)
  {
    hide IsRanking, ExactSum, SatSum, In, Amounts, ExactIn, Values, Buckets, Totals.Clamped;
    BreakdownAddsUp(parts, kind, rows);
    RankedBuckets(parts, kind, rows);
    ValuesAreNonNegative(parts, kind, rows);
    SaturatedSumIsCapped(Values(rows));
    UnsaturatedIsExact(ExactSum(Values(rows)));
  }

  lemma UnsaturatedIsExact(t: Totals)
    requires t.NonNegative() && t.Clamped().Unsaturated()
    ensures t.Clamped() == t
  {
  }

  lemma ValuesAreNonNegative(parts: seq<Part>, kind: Kind, rows: seq<Row<Totals>>)
    requires NonNegativeParts(parts) && AllCapped(parts, kind, rows)
    ensures AllNonNegative(Values(rows))
  {
    hide ExactIn;
    forall i | 0 <= i < |rows|
      ensures Values(rows)[i].NonNegative()
    {
      BucketIsCapped(parts, kind, rows[i].name);
    }
  }

  // ------------------------------------------------- one figure of any sign

  function SatFold(xs: seq<int>): I64 {
    if xs == [] then 0 else Sat(SatFold(xs[..|xs| - 1]) + xs[|xs| - 1])
  }

  function Rising(xs: seq<int>): nat {
    if xs == [] then 0
    else Rising(xs[..|xs| - 1]) + (if xs[|xs| - 1] > 0 then xs[|xs| - 1] else 0)
  }

  function Falling(xs: seq<int>): nat {
    if xs == [] then 0
    else Falling(xs[..|xs| - 1]) + (if xs[|xs| - 1] < 0 then -xs[|xs| - 1] else 0)
  }

  /** Figures all of one sign, or too small together ever to reach a bound. */
  predicate Harmless(xs: seq<int>) {
    Falling(xs) == 0 || Rising(xs) == 0 || (Rising(xs) <= MAX && Falling(xs) <= -MIN)
  }

  lemma {:induction false} SignsOfAnyOrder(xs: seq<int>, ys: seq<int>)
    requires multiset(xs) == multiset(ys)
    ensures Rising(xs) == Rising(ys) && Falling(xs) == Falling(ys)
    decreases |xs|
  {
    assert |xs| == |multiset(xs)| == |multiset(ys)| == |ys|;
    if xs != [] {
      var i := TakeOut(xs, ys);
      SignsOfAnyOrder(xs[..|xs| - 1], ys[..i] + ys[i + 1..]);
      SignsOfBoth(ys[..i] + [ys[i]], ys[i + 1..]);
      SignsOfBoth(ys[..i], [ys[i]]);
      SignsOfBoth(ys[..i], ys[i + 1..]);
      SignsOfOne(ys[i]);
    }
  }

  lemma SignsOfOne(x: int)
    ensures Rising([x]) == (if x > 0 then x else 0) && Falling([x]) == (if x < 0 then -x else 0)
  {
    assert [x][..0] == [];
  }

  lemma {:induction false} SignsOfBoth(a: seq<int>, b: seq<int>)
    ensures Rising(a + b) == Rising(a) + Rising(b) && Falling(a + b) == Falling(a) + Falling(b)
    decreases |b|
  {
    if b == [] {
      assert a + b == a;
    } else {
      SignsOfBoth(a, b[..|b| - 1]);
      assert (a + b)[..|a + b| - 1] == a + b[..|b| - 1];
    }
  }

  lemma {:induction false} HarmlessFold(xs: seq<int>)
    requires Harmless(xs)
    ensures SatFold(xs) == Sat(Rising(xs) - Falling(xs))
    decreases |xs|
  {
    if xs != [] {
      HarmlessFold(xs[..|xs| - 1]);
    }
  }

  /** The figures that rise, and those that fall, each in order. */
  function Where(xs: seq<int>, rising: bool): seq<int> {
    if xs == [] then []
    else Where(xs[..|xs| - 1], rising) + (if (xs[|xs| - 1] > 0) == rising then [xs[|xs| - 1]] else [])
  }

  lemma WhereStep(xs: seq<int>, x: int)
    ensures Where(xs + [x], x > 0) == Where(xs, x > 0) + [x]
    ensures Where(xs + [x], x <= 0) == Where(xs, x <= 0)
  {
    assert (xs + [x])[..|xs|] == xs;
  }

  lemma {:induction false} WhereKeepsAll(xs: seq<int>)
    ensures multiset(Where(xs, true) + Where(xs, false)) == multiset(xs)
    decreases |xs|
  {
    if xs != [] {
      hide Where;
      var init, last := xs[..|xs| - 1], xs[|xs| - 1];
      assert xs == init + [last];
      WhereKeepsAll(init);
      WhereStep(init, last);
    }
  }

  lemma {:induction false} WhereSplits(xs: seq<int>, rising: bool)
    ensures Rising(Where(xs, rising)) == if rising then Rising(xs) else 0
    ensures Falling(Where(xs, rising)) == if rising then 0 else Falling(xs)
    decreases |xs|
  {
    if xs != [] {
      hide Rising, Falling, Where;
      var init, last := xs[..|xs| - 1], xs[|xs| - 1];
      WhereSplits(init, rising);
      assert xs == init + [last];
      WhereStep(init, last);
      SignsOfBoth(init, [last]);
      SignsOfOne(last);
      SignsOfBoth(Where(init, rising), [last]);
    }
  }

  /** Adding figures that only fall after others, or only rise. */
  lemma {:induction false} FoldOneWay(before: seq<int>, xs: seq<int>)
    requires Rising(xs) == 0 || Falling(xs) == 0
    ensures SatFold(before + xs) == Sat(SatFold(before) + Rising(xs) - Falling(xs))
    decreases |xs|
  {
    if xs == [] {
      assert before + xs == before;
    } else {
      hide SatFold, Rising, Falling, Sat;
      var init, last := xs[..|xs| - 1], xs[|xs| - 1];
      assert xs == init + [last];
      SignsOfBoth(init, [last]);
      SignsOfOne(last);
      FoldOneWay(before, init);
      assert before + xs == before + init + [last];
      FoldStep(before + init, last);
      SatOneWay(SatFold(before), Rising(init) - Falling(init), last);
    }
  }

  lemma FoldStep(xs: seq<int>, x: int)
    ensures SatFold(xs + [x]) == Sat(SatFold(xs) + x)
  {
    assert (xs + [x])[..|xs|] == xs;
  }

  lemma SatOneWay(start: I64, moved: int, x: int)
    requires (moved >= 0 && x >= 0) || (moved <= 0 && x <= 0)
    ensures Sat(Sat(start + moved) + x) == Sat(start + moved + x)
  {
  }

  lemma OneOrderIsOff(up: int, down: int)
    requires up > 0 && down > 0 && (up > MAX || down > -MIN)
    ensures Sat(Sat(up) - down) != Sat(up - down) || Sat(Sat(-down) + up) != Sat(up - down)
  {
  }

  /** Of figures that are not harmless, those that rise first or those that fall first add up wrong. */
  lemma OneOfTwoOrdersIsOff(xs: seq<int>)
    requires !Harmless(xs)
    ensures var (up, down) := (Where(xs, true), Where(xs, false));
            var sum := Sat(Rising(xs) - Falling(xs));
            SatFold(up + down) != sum || SatFold(down + up) != sum
  {
    hide SatFold, Rising, Falling, Sat, Where;
    WhereSplits(xs, true);
    WhereSplits(xs, false);
    var up, down := Where(xs, true), Where(xs, false);
    HarmlessFold(up);
    HarmlessFold(down);
    FoldOneWay(up, down);
    FoldOneWay(down, up);
    OneOrderIsOff(Rising(xs), Falling(xs));
  }

  /** One of the figures of a row or a total. */
  datatype Figure = Input | CacheWrite | CacheRead | Output | Messages | Weighted | ActiveSeconds
  {
    function Of(t: Totals): int {
      match this
      case Input => t.input
      case CacheWrite => t.cacheWrite
      case CacheRead => t.cacheRead
      case Output => t.output
      case Messages => t.messages
      case Weighted => t.weighted
      case ActiveSeconds => t.activeSeconds
    }
  }

  function Figures(parts: seq<Part>, figure: Figure): seq<int> {
    if parts == [] then []
    else Figures(parts[..|parts| - 1], figure) + [figure.Of(parts[|parts| - 1].Amount())]
  }

  /** Each figure of the totals is added up by itself, and its exact sum is what rises less what falls. */
  lemma {:induction false} FiguresAddUpAlone(parts: seq<Part>, figure: Figure)
    ensures figure.Of(SatSum(Amounts(parts))) == SatFold(Figures(parts, figure))
    ensures figure.Of(ExactSum(Amounts(parts))) == Rising(Figures(parts, figure)) - Falling(Figures(parts, figure))
  {
    if parts != [] {
      var init, last := parts[..|parts| - 1], parts[|parts| - 1];
      FiguresAddUpAlone(init, figure);
      assert parts == init + [last];
      FiguresOneMore(init, last, figure);
    } else {
      assert figure.Of(ZERO) == 0;
    }
  }

  lemma FiguresOneMore(parts: seq<Part>, p: Part, figure: Figure)
    requires figure.Of(SatSum(Amounts(parts))) == SatFold(Figures(parts, figure))
    requires figure.Of(ExactSum(Amounts(parts))) == Rising(Figures(parts, figure)) - Falling(Figures(parts, figure))
    ensures var xs := Figures(parts + [p], figure);
            && figure.Of(SatSum(Amounts(parts + [p]))) == SatFold(xs)
            && figure.Of(ExactSum(Amounts(parts + [p]))) == Rising(xs) - Falling(xs)
  {
    hide *;
    AmountsAppend(parts, p);
    var x := figure.Of(p.Amount());
    FiguresEnd(parts, p, figure);
    AppendSum(Amounts(parts), p.Amount());
    FigureOfSum(SatSum(Amounts(parts)), p.Amount(), figure);
    FigureOfSum(ExactSum(Amounts(parts)), p.Amount(), figure);
    FoldStep(Figures(parts, figure), x);
    SignsOfBoth(Figures(parts, figure), [x]);
    SignsOfOne(x);
  }

  lemma FiguresEnd(parts: seq<Part>, p: Part, figure: Figure)
    ensures Figures(parts + [p], figure) == Figures(parts, figure) + [figure.Of(p.Amount())]
  {
    assert (parts + [p])[..|parts|] == parts;
  }

  lemma FigureOfSum(a: Totals, b: Totals, figure: Figure)
    ensures figure.Of(a.Add(b)) == Sat(figure.Of(a) + figure.Of(b))
    ensures figure.Of(a.Plus(b)) == figure.Of(a) + figure.Of(b)
  {
  }

  lemma {:induction false} FiguresOfBoth(a: seq<Part>, b: seq<Part>, figure: Figure)
    ensures Figures(a + b, figure) == Figures(a, figure) + Figures(b, figure)
    decreases |b|
  {
    if b == [] {
      assert a + b == a;
    } else {
      hide Part.Amount;
      FiguresOfBoth(a, b[..|b| - 1], figure);
      assert (a + b)[..|a + b| - 1] == a + b[..|b| - 1];
    }
  }

  // ------------------------------------------------- rows as they are stored

  /** By day, then workspace, then model. */
  predicate KeyLess(a: UsageTokens, b: UsageTokens) {
    NameLess(a.day, b.day)
    || (a.day == b.day && (NameLess(a.workspace, b.workspace)
                           || (a.workspace == b.workspace && NameLess(a.model, b.model))))
  }

  /** A Hive's own rows as they are read: one a day, workspace and model, in that order, all in the window. */
  ghost predicate Stored(rows: seq<UsageTokens>, windowStart: string) {
    && (forall i, j :: 0 <= i < j < |rows| ==> KeyLess(rows[i], rows[j]))
    && forall i :: 0 <= i < |rows| ==> NameLeq(windowStart, rows[i].day)
  }

  /** The figures that a transcript may give any sign. */
  predicate FromTranscript(figure: Figure) {
    figure in {Input, CacheWrite, CacheRead, Output}
  }

  function With(row: UsageTokens, figure: Figure, x: I64): UsageTokens {
    match figure
    case Input => row.(input := x)
    case CacheWrite => row.(cacheWrite := x)
    case CacheRead => row.(cacheRead := x)
    case Output => row.(output := x)
    case _ => row
  }

  /** The same rows, each with the figure given for it. */
  function Assigned(rows: seq<UsageTokens>, figure: Figure, xs: seq<I64>): seq<UsageTokens>
    requires |xs| == |rows|
  {
    seq(|rows|, i requires 0 <= i < |rows| => With(rows[i], figure, xs[i]))
  }

  predicate TotalIsRight(rows: seq<UsageTokens>, active: seq<UsageActive>, windowStart: string, figure: Figure) {
    var amounts := Amounts(Parts(rows, active, windowStart));
    figure.Of(SatSum(amounts)) == Sat(figure.Of(ExactSum(amounts)))
  }

  lemma AssignedIsStored(rows: seq<UsageTokens>, windowStart: string, figure: Figure, xs: seq<I64>)
    requires Stored(rows, windowStart) && |xs| == |rows|
    ensures Stored(Assigned(rows, figure, xs), windowStart)
  {
    hide NameLess, NameLeq;
    var dealt := Assigned(rows, figure, xs);
    forall i | 0 <= i < |rows|
      ensures dealt[i].day == rows[i].day && dealt[i].workspace == rows[i].workspace
      ensures dealt[i].model == rows[i].model
    {
    }
  }

  lemma {:induction false} FiguresOfTokens(rows: seq<UsageTokens>, windowStart: string, figure: Figure, xs: seq<I64>)
    requires FromTranscript(figure) && |xs| == |rows|
    requires forall i :: 0 <= i < |rows| ==> NameLeq(windowStart, rows[i].day)
    ensures Figures(TokenParts(Assigned(rows, figure, xs), windowStart), figure) == xs
  {
    if rows != [] {
      hide Figures, TokenParts, Assigned, With, Part.Amount, Figure.Of, NameLeq;
      var n := |rows| - 1;
      FiguresOfTokens(rows[..n], windowStart, figure, xs[..n]);
      LastToken(rows, windowStart, figure, xs);
      FiguresEnd(TokenParts(Assigned(rows[..n], figure, xs[..n]), windowStart),
                 Spent(With(rows[n], figure, xs[n])), figure);
      FigureGiven(rows[n], figure, xs[n]);
      assert xs == xs[..n] + [xs[n]];
    }
  }

  lemma LastToken(rows: seq<UsageTokens>, windowStart: string, figure: Figure, xs: seq<I64>)
    requires rows != [] && |xs| == |rows| && NameLeq(windowStart, rows[|rows| - 1].day)
    ensures var n := |rows| - 1;
            TokenParts(Assigned(rows, figure, xs), windowStart)
            == TokenParts(Assigned(rows[..n], figure, xs[..n]), windowStart) + [Spent(With(rows[n], figure, xs[n]))]
  {
    hide NameLeq;
    var n, dealt := |rows| - 1, Assigned(rows, figure, xs);
    assert dealt[..n] == Assigned(rows[..n], figure, xs[..n]);
    assert dealt[n].day == rows[n].day;
  }

  lemma FigureGiven(row: UsageTokens, figure: Figure, x: I64)
    requires FromTranscript(figure)
    ensures figure.Of(Spent(With(row, figure, x)).Amount()) == x
  {
    hide Weigh;
  }

  lemma {:induction false} ActiveHasNone(active: seq<UsageActive>, windowStart: string, figure: Figure)
    requires FromTranscript(figure)
    ensures var xs := Figures(ActiveParts(active, windowStart), figure); Rising(xs) == 0 && Falling(xs) == 0
  {
    if active != [] {
      LastActive(active, windowStart);
      BusyHasNone(active[|active| - 1], figure);
      SignsOfOne(0);
      hide *;
      var n := |active| - 1;
      ActiveHasNone(active[..n], windowStart, figure);
      var before := ActiveParts(active[..n], windowStart);
      FiguresEnd(before, Busy(active[n]), figure);
      SignsOfBoth(Figures(before, figure), [0]);
      assert before + [] == before;
    }
  }

  lemma LastActive(active: seq<UsageActive>, windowStart: string)
    requires active != []
    ensures var n := |active| - 1;
            ActiveParts(active, windowStart)
            == ActiveParts(active[..n], windowStart)
               + (if NameLeq(windowStart, active[n].day) then [Busy(active[n])] else [])
  {
    hide NameLeq;
  }

  lemma BusyHasNone(row: UsageActive, figure: Figure)
    requires FromTranscript(figure)
    ensures figure.Of(Busy(row).Amount()) == 0
  {
    hide Weigh;
  }

  lemma TotalOfAssigned(
    rows: seq<UsageTokens>, active: seq<UsageActive>, windowStart: string, figure: Figure, xs: seq<I64>)
    requires Stored(rows, windowStart) && FromTranscript(figure) && |xs| == |rows|
    ensures TotalIsRight(Assigned(rows, figure, xs), active, windowStart, figure)
            <==> SatFold(xs) == Sat(Rising(xs) - Falling(xs))
  {
    hide Amounts, SatSum, ExactSum, SatFold, Rising, Falling, Figures, Assigned, TokenParts, ActiveParts, Figure.Of;
    var tokens := TokenParts(Assigned(rows, figure, xs), windowStart);
    var rest := Figures(ActiveParts(active, windowStart), figure);
    FiguresOfTokens(rows, windowStart, figure, xs);
    ActiveHasNone(active, windowStart, figure);
    FiguresOfBoth(tokens, ActiveParts(active, windowStart), figure);
    FiguresAddUpAlone(Parts(Assigned(rows, figure, xs), active, windowStart), figure);
    FoldOneWay(xs, rest);
    SignsOfBoth(xs, rest);
  }

  /** The same figures in another order are of the same kind. */
  lemma AlsoStored(zs: seq<int>, xs: seq<I64>) returns (ys: seq<I64>)
    requires multiset(zs) == multiset(xs)
    ensures ys == zs && |ys| == |xs| && multiset(ys) == multiset(xs)
  {
    assert |zs| == |multiset(zs)| == |multiset(xs)| == |xs|;
    forall i | 0 <= i < |zs|
      ensures MIN <= zs[i] <= MAX
    {
      assert zs[i] in multiset(zs);
      assert zs[i] in xs;
    }
    ys := zs;
  }

  /**
   A Keeper's own rows come in the one order of their keys, and nothing keeps the
   figures a transcript gives from being negative. Whichever of its days, workspaces
   and models the same figures fall on, its total is their exact sum, capped, exactly
   when they are harmless: if they are not, on some of them the total is wrong.
   */
  lemma TotalIsRightExactlyWhen(
    rows: seq<UsageTokens>, active: seq<UsageActive>, windowStart: string, figure: Figure, xs: seq<I64>)
    requires Stored(rows, windowStart) && FromTranscript(figure) && |xs| == |rows|
    ensures forall ys: seq<I64> :: |ys| == |rows| ==> Stored(Assigned(rows, figure, ys), windowStart)
    ensures Harmless(xs) <==>
            forall ys: seq<I64> :: |ys| == |rows| && multiset(ys) == multiset(xs) ==>
              TotalIsRight(Assigned(rows, figure, ys), active, windowStart, figure)
  {
    hide SatFold, Rising, Falling, Sat, Where, TotalIsRight, Stored, Assigned, FromTranscript;
    forall ys: seq<I64> | |ys| == |rows|
      ensures Stored(Assigned(rows, figure, ys), windowStart)
      ensures TotalIsRight(Assigned(rows, figure, ys), active, windowStart, figure)
              <==> SatFold(ys) == Sat(Rising(ys) - Falling(ys))
    {
      AssignedIsStored(rows, windowStart, figure, ys);
      TotalOfAssigned(rows, active, windowStart, figure, ys);
    }
    if Harmless(xs) {
      forall ys: seq<I64> | |ys| == |rows| && multiset(ys) == multiset(xs)
        ensures TotalIsRight(Assigned(rows, figure, ys), active, windowStart, figure)
      {
        SignsOfAnyOrder(ys, xs);
        HarmlessFold(ys);
      }
    } else {
      var up, down := Where(xs, true), Where(xs, false);
      WhereKeepsAll(xs);
      assert multiset(down + up) == multiset(up + down);
      OneOfTwoOrdersIsOff(xs);
      SignsOfAnyOrder(up + down, xs);
      SignsOfAnyOrder(down + up, xs);
      var first := AlsoStored(up + down, xs);
      var second := AlsoStored(down + up, xs);
    }
  }

  /** One model of one workspace on the days of the new year. */
  function OnDay(day: string, input: I64): UsageTokens {
    UsageTokens(day, "swarm", "claude-opus-5", input, 0, 0, 0, 0)
  }

  function OnDays(first: I64, second: I64, third: I64): seq<UsageTokens> {
    [OnDay("2026-01-01", first), OnDay("2026-01-02", second), OnDay("2026-01-03", third)]
  }

  /** Three days of one model: the same three figures, and on which days they fall decides the total. */
  lemma DaysDecideTheTotal()
    ensures var most := 0x7FFF_FFFF_FFFF_FFFF;
            var (off, right) := (OnDays(most, 1, -1), OnDays(most, -1, 1));
            && Stored(off, "2026-01-01") && Stored(right, "2026-01-01")
            && ExactSum(Amounts(Parts(off, [], "2026-01-01"))).input == most
            && ExactSum(Amounts(Parts(right, [], "2026-01-01"))).input == most
            && SatSum(Amounts(Parts(off, [], "2026-01-01"))).input == most - 1
            && SatSum(Amounts(Parts(right, [], "2026-01-01"))).input == most
    ensures var least := -0x8000_0000_0000_0000;
            SatSum(Amounts(Parts(OnDays(least, -1, 1), [], "2026-01-01"))).input == least + 1
  {
    hide Weigh, OnDays, NameLeq, Parts;
    ThreeDays(MAX, 1, -1);
    ThreeDays(MAX, -1, 1);
    ThreeDays(MIN, -1, 1);
  }

  lemma ThreeDays(first: I64, second: I64, third: I64)
    ensures var rows := OnDays(first, second, third);
            var amounts := Amounts(Parts(rows, [], "2026-01-01"));
            && Stored(rows, "2026-01-01")
            && SatSum(amounts).input == Sat(Sat(first + second) + third)
            && ExactSum(amounts).input == first + second + third
  {
    DaysAreStored(first, second, third);
    DaysRise();
    hide Amounts, SatSum, ExactSum, Weigh, Parts, NameLeq, NameLess, Stored;
    ThreeRows(OnDay("2026-01-01", first), OnDay("2026-01-02", second), OnDay("2026-01-03", third), "2026-01-01");
  }

  lemma ThreeRows(a: UsageTokens, b: UsageTokens, c: UsageTokens, windowStart: string)
    requires NameLeq(windowStart, a.day) && NameLeq(windowStart, b.day) && NameLeq(windowStart, c.day)
    ensures var amounts := Amounts(Parts([a, b, c], [], windowStart));
            && SatSum(amounts).input == Sat(Sat(a.input + b.input) + c.input)
            && ExactSum(amounts).input == a.input + b.input + c.input
  {
    assert Sat(0 + a.input) == a.input;
    hide *;
    ThreeParts(a, b, c, windowStart);
    InARow(Spent(a), Spent(b), Spent(c));
    NoInput();
    OneMoreInput([], a);
    OneMoreInput([] + [Spent(a)], b);
    OneMoreInput([] + [Spent(a)] + [Spent(b)], c);
  }

  lemma InARow<T>(a: T, b: T, c: T)
    ensures [a, b, c] == [] + [a] + [b] + [c]
  {
  }

  lemma DaysAreStored(first: I64, second: I64, third: I64)
    ensures Stored(OnDays(first, second, third), "2026-01-01")
  {
    DaysRise();
    hide NameLeq, NameLess;
  }

  /** What two names begin with alike does not decide their order. */
  lemma {:induction false} BeginAlike(head: string, a: string, b: string)
    ensures NameLeq(head + a, head + b) <==> NameLeq(a, b)
  {
    if head == "" {
      assert head + a == a && head + b == b;
    } else {
      BeginAlike(head[1..], a, b);
      assert (head + a)[1..] == head[1..] + a && (head + b)[1..] == head[1..] + b;
    }
  }

  lemma DaysRise()
    ensures NameLeq("2026-01-01", "2026-01-01")
    ensures NameLess("2026-01-01", "2026-01-02") && NameLess("2026-01-01", "2026-01-03")
    ensures NameLess("2026-01-02", "2026-01-03")
  {
    var head := "2026-01-0";
    assert head + "1" == "2026-01-01" && head + "2" == "2026-01-02" && head + "3" == "2026-01-03";
    BeginAlike(head, "1", "1");
    BeginAlike(head, "1", "2");
    BeginAlike(head, "1", "3");
    BeginAlike(head, "2", "3");
  }

  lemma NoInput()
    ensures SatSum(Amounts([])).input == 0 && ExactSum(Amounts([])).input == 0
  {
  }

  lemma OneMoreInput(parts: seq<Part>, row: UsageTokens)
    ensures SatSum(Amounts(parts + [Spent(row)])).input == Sat(SatSum(Amounts(parts)).input + row.input)
    ensures ExactSum(Amounts(parts + [Spent(row)])).input == ExactSum(Amounts(parts)).input + row.input
  {
    hide Amounts, SatSum, ExactSum, Weigh;
    AmountsAppend(parts, Spent(row));
    AppendSum(Amounts(parts), Spent(row).Amount());
  }

  lemma ThreeParts(a: UsageTokens, b: UsageTokens, c: UsageTokens, windowStart: string)
    requires NameLeq(windowStart, a.day) && NameLeq(windowStart, b.day) && NameLeq(windowStart, c.day)
    ensures Parts([a, b, c], [], windowStart) == [Spent(a), Spent(b), Spent(c)]
  {
    hide NameLeq;
    assert [a, b, c][..2] == [a, b] && [a, b][..1] == [a] && [a][..0] == [];
    assert TokenParts([a], windowStart) == [Spent(a)];
    assert TokenParts([a, b], windowStart) == [Spent(a), Spent(b)];
  }

  // --------------------------------------------------------------- busy time

  const MAX_BUSY_INTERVAL_SECONDS: int := 90

  datatype Profile = Profile(workspace: string, session: Option<nat>)

  predicate IsBusy(p: Profile, busy: set<nat>) {
    p.session.Some? && p.session.value in busy
  }

  function BusyIn(profiles: seq<Profile>, busy: set<nat>, workspace: string): nat {
    if profiles == [] then 0
    else BusyIn(profiles[..|profiles| - 1], busy, workspace)
         + (if IsBusy(profiles[|profiles| - 1], busy) && profiles[|profiles| - 1].workspace == workspace then 1 else 0)
  }

  lemma NobodyBusy(profiles: seq<Profile>, busy: set<nat>)
    ensures forall w :: BusyIn(profiles[..0], busy, w) == 0
  {
  }

  lemma OneMoreProfile(profiles: seq<Profile>, i: nat, busy: set<nat>, elapsed: int)
    requires i < |profiles|
    ensures forall w ::
              var more := if IsBusy(profiles[i], busy) && profiles[i].workspace == w then 1 else 0;
              && BusyIn(profiles[..i + 1], busy, w) == BusyIn(profiles[..i], busy, w) + more
              && elapsed * BusyIn(profiles[..i + 1], busy, w)
                 == elapsed * BusyIn(profiles[..i], busy, w) + elapsed * more
  {
    assert profiles[..i + 1][..i] == profiles[..i];
  }

  /**
   Credits the time since the last look to each busy worker's workspace: once for
   every worker busy there, never more than the longest interval counted, and
   nothing at the first look or after a clock that went back.
   */
  method RecordBusyTime(previous: Option<int>, now: int, profiles: seq<Profile>, busy: set<nat>)
    returns (rows: map<string, int>)
    ensures previous.None? || now <= previous.value ==> rows == map[]
    ensures previous.Some? && now > previous.value ==>
              var gap := now - previous.value;
              var elapsed := if gap > MAX_BUSY_INTERVAL_SECONDS then MAX_BUSY_INTERVAL_SECONDS else gap;
              && (forall w :: w in rows <==> BusyIn(profiles, busy, w) > 0)
              && (forall w :: w in rows ==> rows[w] == elapsed * BusyIn(profiles, busy, w))
  {
    hide BusyIn;
    rows := map[];
    if previous.None? {
      return;
    }
    var elapsed := now - previous.value;
    elapsed := if elapsed < 0 then 0
               else if elapsed > MAX_BUSY_INTERVAL_SECONDS then MAX_BUSY_INTERVAL_SECONDS
               else elapsed;
    if elapsed == 0 {
      return;
    }
    var i := 0;
    assert forall w :: BusyIn(profiles[..0], busy, w) == 0 by { NobodyBusy(profiles, busy); }
    while i < |profiles|
      invariant 0 <= i <= |profiles|
      invariant forall w :: w in rows <==> BusyIn(profiles[..i], busy, w) > 0
      invariant forall w :: w in rows ==> rows[w] == elapsed * BusyIn(profiles[..i], busy, w)
    {
      var p := profiles[i];
      OneMoreProfile(profiles, i, busy, elapsed);
      if IsBusy(p, busy) {
        rows := rows[p.workspace := (if p.workspace in rows then rows[p.workspace] else 0) + elapsed];
      }
      i := i + 1;
    }
    assert profiles[..|profiles|] == profiles;
  }
}
