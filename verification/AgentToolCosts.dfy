/**
 What each agent tool costs to answer: a tally bounded by name, which keeps an
 exact account of every name it has room for and of all the others together.
 */
module AgentToolCosts {
  import opened Sorting
  import opened Ranking
  import opened Utf8

  const CAPACITY: nat := 160
  const NAME_BYTES: nat := 64
  const OVERFLOW := "(other names)"

  const MAX: nat := 0xFFFF_FFFF_FFFF_FFFF

  type U64 = x: int | 0 <= x <= MAX

  function SaturatingAdd(a: nat, b: nat): U64 {
    if a + b > MAX then MAX else a + b
  }

  function Larger(a: nat, b: nat): nat {
    if a > b then a else b
  }

  datatype ToolCost = ToolCost(
    calls: U64, failures: U64, totalMicros: U64, maxMicros: U64, totalBytes: U64, maxBytes: U64)

  const NOTHING := ToolCost(0, 0, 0, 0, 0, 0)

  datatype Call = Call(tool: string, failed: bool, micros: U64, bytes: U64)

  type Tools = map<string, ToolCost>

  /** The row a call is counted in. */
  function RowFor(tools: Tools, tool: string): string {
    if ByteLength(tool) <= NAME_BYTES && (tool in tools || |tools| < CAPACITY) then tool else OVERFLOW
  }

  function Added(cost: ToolCost, call: Call): ToolCost {
    ToolCost(
      SaturatingAdd(cost.calls, 1), SaturatingAdd(cost.failures, if call.failed then 1 else 0),
      SaturatingAdd(cost.totalMicros, call.micros), Larger(cost.maxMicros, call.micros),
      SaturatingAdd(cost.totalBytes, call.bytes), Larger(cost.maxBytes, call.bytes))
  }

  function Recorded(tools: Tools, call: Call): Tools {
    var row := RowFor(tools, call.tool);
    tools[row := Added(if row in tools then tools[row] else NOTHING, call)]
  }

  /** Most time spent answering first, and then by name. */
  predicate Costlier(a: Row<ToolCost>, b: Row<ToolCost>) {
    a.value.totalMicros > b.value.totalMicros
    || (a.value.totalMicros == b.value.totalMicros && NameLeq(a.name, b.name))
  }

  const COSTLIER: (Row<ToolCost>, Row<ToolCost>) -> bool := (a, b) => Costlier(a, b)

  lemma CostlierIsAPreorder()
    ensures TotalPreorder(COSTLIER)
  {
    hide NameLeq;
    forall x, y
      ensures COSTLIER(x, y) || COSTLIER(y, x)
    {
      NameLeqIsTotal(x.name, y.name);
    }
    forall x, y, z | COSTLIER(x, y) && COSTLIER(y, z)
      ensures COSTLIER(x, z)
    {
      if NameLeq(x.name, y.name) && NameLeq(y.name, z.name) {
        NameLeqIsTransitive(x.name, y.name, z.name);
      }
    }
  }

  class AgentToolCosts {
    var tools: Tools

    constructor ()
      ensures tools == map[]
    {
      tools := map[];
    }

    method Record(tool: string, failed: bool, micros: U64, bytes: U64)
      modifies this
      ensures tools == Recorded(old(tools), Call(tool, failed, micros, bytes))
    {
      var name := OVERFLOW;
      if ByteLength(tool) <= NAME_BYTES && (tool in tools || |tools| < CAPACITY) {
        name := tool;
      }
      var cost := if name in tools then tools[name] else NOTHING;
      cost := cost.(calls := SaturatingAdd(cost.calls, 1));
      cost := cost.(failures := SaturatingAdd(cost.failures, if failed then 1 else 0));
      cost := cost.(totalMicros := SaturatingAdd(cost.totalMicros, micros));
      cost := cost.(maxMicros := Larger(cost.maxMicros, micros));
      cost := cost.(totalBytes := SaturatingAdd(cost.totalBytes, bytes));
      cost := cost.(maxBytes := Larger(cost.maxBytes, bytes));
      tools := tools[name := cost];
    }

    /** Every row once, the costliest first and level ones by name. */
    method Reading() returns (rows: seq<Row<ToolCost>>)
      ensures IsRanking(tools, COSTLIER, rows)
    {
      CostlierIsAPreorder();
      rows := Ranked(tools, COSTLIER);
    }
  }

  // ------------------------------------------------- the unbounded account

  function After(calls: seq<Call>): Tools {
    if calls == [] then map[] else Recorded(After(calls[..|calls| - 1]), calls[|calls| - 1])
  }

  /** Names with a row of their own. */
  function Own(tools: Tools): set<string> {
    tools.Keys - {OVERFLOW}
  }

  /** Where a call belongs when these names have rows of their own. */
  function Attributed(call: Call, own: set<string>): string {
    if call.tool in own then call.tool else OVERFLOW
  }

  /** All calls that belong in a row, added up. */
  function Tally(calls: seq<Call>, own: set<string>, name: string): ToolCost {
    if calls == [] then NOTHING
    else
      var before := Tally(calls[..|calls| - 1], own, name);
      if Attributed(calls[|calls| - 1], own) == name then Added(before, calls[|calls| - 1]) else before
  }

  ghost predicate Called(calls: seq<Call>, own: set<string>, name: string) {
    exists i :: 0 <= i < |calls| && Attributed(calls[i], own) == name
  }

  ghost predicate Agrees(calls: seq<Call>, tools: Tools) {
    && |tools| <= CAPACITY + 1
    && |Own(tools)| <= CAPACITY
    && (forall n :: n in Own(tools) ==> ByteLength(n) <= NAME_BYTES)
    && (forall n :: n in tools <==> Called(calls, Own(tools), n))
    && (forall n :: n in tools ==> tools[n] == Tally(calls, Own(tools), n))
    && (forall i :: 0 <= i < |calls| && calls[i].tool !in tools && ByteLength(calls[i].tool) <= NAME_BYTES
          ==> |tools| >= CAPACITY)
  }

  /** A name that gets its row now was never called before, so no call of its own is elsewhere. */
  lemma {:induction false} NewRowTakesNothing(calls: seq<Call>, own: set<string>, added: string, name: string)
    requires added != OVERFLOW
    requires forall i :: 0 <= i < |calls| ==> calls[i].tool != added
    ensures Tally(calls, own + {added}, name) == Tally(calls, own, name)
    ensures Called(calls, own + {added}, name) <==> Called(calls, own, name)
    decreases |calls|
  {
    forall i | 0 <= i < |calls|
      ensures Attributed(calls[i], own + {added}) == Attributed(calls[i], own)
    {
    }
    if calls != [] {
      NewRowTakesNothing(calls[..|calls| - 1], own, added, name);
    }
  }

  lemma TallyOneMore(calls: seq<Call>, call: Call, own: set<string>, name: string)
    ensures Tally(calls + [call], own, name)
         == if Attributed(call, own) == name then Added(Tally(calls, own, name), call) else Tally(calls, own, name)
    ensures Called(calls + [call], own, name) <==> Called(calls, own, name) || Attributed(call, own) == name
  {
    assert (calls + [call])[..|calls|] == calls;
    assert (calls + [call])[|calls|] == call;
    if Called(calls, own, name) {
      var i :| 0 <= i < |calls| && Attributed(calls[i], own) == name;
      assert (calls + [call])[i] == calls[i];
    }
  }

  lemma {:induction false} NeverCalled(calls: seq<Call>, own: set<string>, name: string)
    requires !Called(calls, own, name)
    ensures Tally(calls, own, name) == NOTHING
    decreases |calls|
  {
    if calls != [] {
      var init := calls[..|calls| - 1];
      forall i | 0 <= i < |init|
        ensures Attributed(init[i], own) != name
      {
        assert init[i] == calls[i];
      }
      NeverCalled(init, own, name);
    }
  }

  lemma OwnRows(tools: Tools)
    ensures |tools| == |Own(tools)| + (if OVERFLOW in tools then 1 else 0)
  {
    assert |tools| == |tools.Keys|;
    if OVERFLOW in tools {
      assert tools.Keys == Own(tools) + {OVERFLOW};
    } else {
      assert tools.Keys == Own(tools);
    }
  }

  lemma OneMoreKey(tools: Tools, row: string, cost: ToolCost)
    ensures |tools[row := cost]| == if row in tools then |tools| else |tools| + 1
  {
    var more := tools[row := cost];
    assert |more| == |more.Keys| && |tools| == |tools.Keys|;
    if row in tools {
      assert more.Keys == tools.Keys;
    } else {
      assert more.Keys == tools.Keys + {row};
    }
  }

  lemma OneMoreOwn(tools: Tools, row: string, cost: ToolCost)
    ensures Own(tools[row := cost]) == if row == OVERFLOW || row in tools then Own(tools) else Own(tools) + {row}
  {
  }

  lemma CallKeepsSize(calls: seq<Call>, tools: Tools, call: Call)
    requires Agrees(calls, tools)
    ensures var next := Recorded(tools, call);
            && |next| <= CAPACITY + 1 && |Own(next)| <= CAPACITY
            && forall n :: n in Own(next) ==> ByteLength(n) <= NAME_BYTES
    ensures tools.Keys <= Recorded(tools, call).Keys && |tools| <= |Recorded(tools, call)|
  {
    hide ByteLength, Called, Tally;
    var row := RowFor(tools, call.tool);
    var cost := Recorded(tools, call)[row];
    OneMoreKey(tools, row, cost);
    OneMoreOwn(tools, row, cost);
    OwnRows(tools);
    OwnRows(tools[row := cost]);
  }

  /** A call goes where it belongs among the rows there are afterwards. */
  lemma CallGoesWhereItBelongs(calls: seq<Call>, tools: Tools, call: Call)
    requires Agrees(calls, tools)
    ensures RowFor(tools, call.tool) == Attributed(call, Own(Recorded(tools, call)))
    ensures call.tool !in Recorded(tools, call) && ByteLength(call.tool) <= NAME_BYTES ==> |tools| >= CAPACITY
  {
    hide Called, Tally;
  }

  /** Giving a name its first row moves no earlier call. */
  lemma NothingMoves(calls: seq<Call>, tools: Tools, call: Call, n: string)
    requires Agrees(calls, tools)
    ensures Tally(calls, Own(Recorded(tools, call)), n) == Tally(calls, Own(tools), n)
    ensures Called(calls, Own(Recorded(tools, call)), n) <==> Called(calls, Own(tools), n)
  {
    hide Called, Tally;
    var row := RowFor(tools, call.tool);
    OneMoreOwn(tools, row, Recorded(tools, call)[row]);
    if row != OVERFLOW && row !in tools {
      hide Own;
      NewRowTakesNothing(calls, Own(tools), row, n);
    }
  }

  /** What was agreed of every name stays agreed as the rows grow by one. */
  lemma NameStaysAgreed(calls: seq<Call>, tools: Tools, call: Call, n: string)
    requires Agrees(calls, tools)
    ensures var next := Recorded(tools, call);
            && (n in next <==> Called(calls + [call], Own(next), n))
            && (n in next ==> next[n] == Tally(calls + [call], Own(next), n))
  {
    hide Called, Tally, Own, Added, Attributed;
    CallGoesWhereItBelongs(calls, tools, call);
    NothingMoves(calls, tools, call, n);
    TallyOneMore(calls, call, Own(Recorded(tools, call)), n);
    if n !in tools {
      NeverCalled(calls, Own(tools), n);
    }
  }

  lemma CallKeepsAgreement(calls: seq<Call>, tools: Tools, call: Call)
    requires Agrees(calls, tools)
    ensures Agrees(calls + [call], Recorded(tools, call))
  {
    hide Called, Tally, ByteLength;
    CallKeepsSize(calls, tools, call);
    CallGoesWhereItBelongs(calls, tools, call);
    forall n
      ensures var next := Recorded(tools, call);
              && (n in next <==> Called(calls + [call], Own(next), n))
              && (n in next ==> next[n] == Tally(calls + [call], Own(next), n))
    {
      NameStaysAgreed(calls, tools, call, n);
    }
  }

  lemma NothingAgrees()
    ensures Agrees([], map[])
  {
  }

  /**
   After any calls whatever, there are at most one more rows than the capacity, and
   at most that many names with a row of their own. Each such row is the tally of
   every call its name ever had; the overflow row is the tally of all the rest; and
   a name short enough goes without a row only once the rows are full.
   */
  lemma {:induction false} AgreesWithUnbounded(calls: seq<Call>)
    ensures Agrees(calls, After(calls))
    ensures |After(calls)| <= 161
    ensures forall n :: n in After(calls) ==> n == "(other names)" || ByteLength(n) <= 64
    ensures forall i :: 0 <= i < |calls| && calls[i].tool !in After(calls) && ByteLength(calls[i].tool) <= 64
              ==> |After(calls)| >= 160
  {
    assert CAPACITY == 160 && NAME_BYTES == 64 && OVERFLOW == "(other names)";
    AgreesAlways(calls);
    hide After;
  }

  lemma {:induction false} AgreesAlways(calls: seq<Call>)
    ensures Agrees(calls, After(calls))
  {
    hide Agrees, Recorded;
    if calls == [] {
      NothingAgrees();
    } else {
      AgreesAlways(calls[..|calls| - 1]);
      CallKeepsAgreement(calls[..|calls| - 1], After(calls[..|calls| - 1]), calls[|calls| - 1]);
      assert calls == calls[..|calls| - 1] + [calls[|calls| - 1]];
    }
  }

  /** The one row past the capacity is the overflow row. */
  lemma ExtraRowIsOverflow(calls: seq<Call>)
    ensures |After(calls)| <= CAPACITY + 1
    ensures |After(calls)| == CAPACITY + 1 ==> OVERFLOW in After(calls)
  {
    AgreesWithUnbounded(calls);
    var tools := After(calls);
    assert OVERFLOW !in tools ==> Own(tools) == tools.Keys && |tools| == |tools.Keys|;
  }

  /** A name once admitted keeps every later call. */
  lemma {:induction false} AdmittedKeepsEveryCall(calls: seq<Call>, later: seq<Call>, call: Call)
    requires call.tool in Own(After(calls))
    ensures RowFor(After(calls + later), call.tool) == call.tool
    decreases |later|
  {
    if later == [] {
      assert calls + later == calls;
      AgreesWithUnbounded(calls);
    } else {
      var init := calls + later[..|later| - 1];
      AdmittedKeepsEveryCall(calls, later[..|later| - 1], call);
      assert calls + later == init + [later[|later| - 1]];
      assert (calls + later)[..|calls + later| - 1] == init;
      StaysAdmitted(calls, later, call.tool);
    }
  }

  lemma {:induction false} StaysAdmitted(calls: seq<Call>, later: seq<Call>, tool: string)
    requires tool in After(calls)
    ensures tool in After(calls + later)
    decreases |later|
  {
    if later == [] {
      assert calls + later == calls;
    } else {
      StaysAdmitted(calls, later[..|later| - 1], tool);
      assert (calls + later)[..|calls + later| - 1] == calls + later[..|later| - 1];
    }
  }

  // ------------------------------------------------------ what a row adds up to

  function CountOf(calls: seq<Call>, own: set<string>, name: string): nat {
    if calls == [] then 0
    else CountOf(calls[..|calls| - 1], own, name) + (if Attributed(calls[|calls| - 1], own) == name then 1 else 0)
  }

  function MicrosOf(calls: seq<Call>, own: set<string>, name: string): nat {
    if calls == [] then 0
    else MicrosOf(calls[..|calls| - 1], own, name)
         + (if Attributed(calls[|calls| - 1], own) == name then calls[|calls| - 1].micros else 0)
  }

  function BytesOf(calls: seq<Call>, own: set<string>, name: string): nat {
    if calls == [] then 0
    else BytesOf(calls[..|calls| - 1], own, name)
         + (if Attributed(calls[|calls| - 1], own) == name then calls[|calls| - 1].bytes else 0)
  }

  function FailuresOf(calls: seq<Call>, own: set<string>, name: string): nat {
    if calls == [] then 0
    else FailuresOf(calls[..|calls| - 1], own, name)
         + (if Attributed(calls[|calls| - 1], own) == name && calls[|calls| - 1].failed then 1 else 0)
  }

  function Capped(exact: nat): nat {
    if exact <= 0xFFFF_FFFF_FFFF_FFFF then exact else 0xFFFF_FFFF_FFFF_FFFF
  }

  /**
   A row's figures are the exact ones, capped at 64 bits; its longest call is the
   longest of its calls and its largest the largest, so neither passes its total.
   */
  lemma {:induction false} TallyIsExactBelowTheCap(calls: seq<Call>, own: set<string>, name: string)
    ensures var t := Tally(calls, own, name);
            && t.calls == Capped(CountOf(calls, own, name)) && t.failures == Capped(FailuresOf(calls, own, name))
            && t.totalMicros == Capped(MicrosOf(calls, own, name))
            && t.totalBytes == Capped(BytesOf(calls, own, name))
            && t.failures <= t.calls
            && t.maxMicros <= t.totalMicros && t.maxBytes <= t.totalBytes
            && (forall c :: c in calls && Attributed(c, own) == name
                  ==> c.micros <= t.maxMicros && c.bytes <= t.maxBytes)
            && (Called(calls, own, name) ==>
                  exists c :: c in calls && Attributed(c, own) == name && c.micros == t.maxMicros)
            && (Called(calls, own, name) ==>
                  exists c :: c in calls && Attributed(c, own) == name && c.bytes == t.maxBytes)
            && (!Called(calls, own, name) ==> t == NOTHING)
  {
    TallyAddsUp(calls, own, name);
    LargestIsOfSomeCall(calls, own, name);
    hide *;
  }

  lemma {:induction false} TallyAddsUp(calls: seq<Call>, own: set<string>, name: string)
    ensures var t := Tally(calls, own, name);
            && t.calls == Capped(CountOf(calls, own, name)) && t.failures == Capped(FailuresOf(calls, own, name))
            && t.totalMicros == Capped(MicrosOf(calls, own, name))
            && t.totalBytes == Capped(BytesOf(calls, own, name))
            && t.failures <= t.calls
  {
    if calls != [] {
      var init, last := calls[..|calls| - 1], calls[|calls| - 1];
      TallyAddsUp(init, own, name);
      assert calls == init + [last];
      TallyOneMore(init, last, own, name);
      hide Attributed, Called, Tally;
    }
  }

  lemma {:induction false} LargestIsOfSomeCall(calls: seq<Call>, own: set<string>, name: string)
    ensures var t := Tally(calls, own, name);
            && t.maxMicros <= t.totalMicros && t.maxBytes <= t.totalBytes
            && (forall c :: c in calls && Attributed(c, own) == name
                  ==> c.micros <= t.maxMicros && c.bytes <= t.maxBytes)
            && (Called(calls, own, name) ==>
                  exists c :: c in calls && Attributed(c, own) == name && c.micros == t.maxMicros)
            && (Called(calls, own, name) ==>
                  exists c :: c in calls && Attributed(c, own) == name && c.bytes == t.maxBytes)
            && (!Called(calls, own, name) ==> t == NOTHING)
  {
    if calls != [] {
      var init, last := calls[..|calls| - 1], calls[|calls| - 1];
      LargestIsOfSomeCall(init, own, name);
      assert calls == init + [last];
      TallyOneMore(init, last, own, name);
      hide Attributed, Called, Tally;
    }
  }

  function SumOfCalls(rows: seq<Row<ToolCost>>): nat {
    if rows == [] then 0 else SumOfCalls(rows[..|rows| - 1]) + rows[|rows| - 1].value.calls
  }

  function SumOfCounts(calls: seq<Call>, own: set<string>, rows: seq<Row<ToolCost>>): nat {
    if rows == [] then 0
    else SumOfCounts(calls, own, rows[..|rows| - 1]) + CountOf(calls, own, rows[|rows| - 1].name)
  }

  ghost predicate HasRow(rows: seq<Row<ToolCost>>, name: string) {
    exists i :: 0 <= i < |rows| && rows[i].name == name
  }

  lemma HasRowStep(rows: seq<Row<ToolCost>>, last: Row<ToolCost>, name: string)
    ensures HasRow(rows + [last], name) <==> HasRow(rows, name) || last.name == name
  {
    if HasRow(rows, name) {
      var i :| 0 <= i < |rows| && rows[i].name == name;
      assert (rows + [last])[i].name == name;
    }
    assert (rows + [last])[|rows|] == last;
  }

  /** One more call is counted in exactly one of the rows. */
  lemma {:induction false} OneMoreCounted(calls: seq<Call>, call: Call, own: set<string>, rows: seq<Row<ToolCost>>)
    requires forall i, j :: 0 <= i < j < |rows| ==> rows[i].name != rows[j].name
    ensures SumOfCounts(calls + [call], own, rows)
         == SumOfCounts(calls, own, rows)
            + (if HasRow(rows, Attributed(call, own)) then 1 else 0)
    decreases |rows|
  {
    if rows != [] {
      hide CountOf, Attributed, HasRow;
      var init, last := rows[..|rows| - 1], rows[|rows| - 1];
      OneMoreCounted(calls, call, own, init);
      CountOneMore(calls, call, own, last.name);
      assert rows == init + [last];
      HasRowStep(init, last, Attributed(call, own));
      LastIsNew(init, last);
    }
  }

  lemma CountOneMore(calls: seq<Call>, call: Call, own: set<string>, name: string)
    ensures CountOf(calls + [call], own, name)
         == CountOf(calls, own, name) + (if Attributed(call, own) == name then 1 else 0)
  {
    assert (calls + [call])[..|calls|] == calls;
  }

  lemma LastIsNew(init: seq<Row<ToolCost>>, last: Row<ToolCost>)
    requires forall i :: 0 <= i < |init| ==> init[i].name != last.name
    ensures !HasRow(init, last.name)
  {
  }

  lemma {:induction false} EveryCallIsCounted(calls: seq<Call>, own: set<string>, rows: seq<Row<ToolCost>>)
    requires forall i, j :: 0 <= i < j < |rows| ==> rows[i].name != rows[j].name
    requires forall c :: c in calls ==> HasRow(rows, Attributed(c, own))
    ensures SumOfCounts(calls, own, rows) == |calls|
    decreases |calls|
  {
    if calls == [] {
      NothingCounted(own, rows);
    } else {
      var init, last := calls[..|calls| - 1], calls[|calls| - 1];
      assert calls == init + [last];
      EveryCallIsCounted(init, own, rows);
      OneMoreCounted(init, last, own, rows);
    }
  }

  lemma {:induction false} NothingCounted(own: set<string>, rows: seq<Row<ToolCost>>)
    ensures SumOfCounts([], own, rows) == 0
  {
    if rows != [] {
      NothingCounted(own, rows[..|rows| - 1]);
    }
  }

  lemma {:induction false} UncappedCalls(calls: seq<Call>, own: set<string>, rows: seq<Row<ToolCost>>)
    requires |calls| <= MAX
    requires forall r :: r in rows ==> r.value == Tally(calls, own, r.name)
    ensures SumOfCalls(rows) == SumOfCounts(calls, own, rows)
    decreases |rows|
  {
    if rows != [] {
      var last := rows[|rows| - 1];
      UncappedCalls(calls, own, rows[..|rows| - 1]);
      TallyIsExactBelowTheCap(calls, own, last.name);
      CountIsBounded(calls, own, last.name);
    }
  }

  lemma {:induction false} CountIsBounded(calls: seq<Call>, own: set<string>, name: string)
    ensures CountOf(calls, own, name) <= |calls|
  {
    if calls != [] {
      CountIsBounded(calls[..|calls| - 1], own, name);
    }
  }

  /** A reading begins with the row that took longest to answer, and level rows go by name. */
  lemma ReadingIsCostliestFirst(tools: Tools, rows: seq<Row<ToolCost>>, i: nat, j: nat)
    requires IsRanking(tools, COSTLIER, rows) && i < j < |rows|
    ensures rows[i].value.totalMicros >= rows[j].value.totalMicros
    ensures rows[i].value.totalMicros == rows[j].value.totalMicros ==> NameLess(rows[i].name, rows[j].name)
  {
    CostlierIsAPreorder();
    NamesApart(tools, COSTLIER, rows, i, j);
    assert Ahead(COSTLIER, rows[i], rows[j]);
  }

  /** What a reading shows adds up: no call is left out and none is counted twice. */
  lemma ReadingAddsUp(calls: seq<Call>, rows: seq<Row<ToolCost>>)
    requires IsRanking(After(calls), COSTLIER, rows) && |calls| <= MAX
    ensures SumOfCalls(rows) == |calls|
  {
    hide Ahead, Tally;
    CostlierIsAPreorder();
    AgreesWithUnbounded(calls);
    var tools := After(calls);
    var own := Own(tools);
    forall i, j | 0 <= i < j < |rows|
      ensures rows[i].name != rows[j].name
    {
      NamesApart(tools, COSTLIER, rows, i, j);
    }
    forall c | c in calls
      ensures HasRow(rows, Attributed(c, own))
    {
      var i :| 0 <= i < |calls| && calls[i] == c;
      assert Called(calls, own, Attributed(c, own));
      assert Row(Attributed(c, own), tools[Attributed(c, own)]) in rows;
    }
    EveryCallIsCounted(calls, own, rows);
    UncappedCalls(calls, own, rows);
  }
}
