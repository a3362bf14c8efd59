/** Listing a map by name, as an ordered map iterates, and ranking its rows. */
module Ranking {
  import opened Sorting

  /** Strings in the order of their characters, shorter first. */
  predicate NameLeq(a: string, b: string) {
    a == "" || (b != "" && (a[0] < b[0] || (a[0] == b[0] && NameLeq(a[1..], b[1..]))))
  }

  lemma {:induction false} NameLeqIsTotal(a: string, b: string)
    ensures NameLeq(a, b) || NameLeq(b, a)
    ensures NameLeq(a, b) && NameLeq(b, a) ==> a == b
  {
    if a != "" && b != "" && a[0] == b[0] {
      NameLeqIsTotal(a[1..], b[1..]);
      assert a == [a[0]] + a[1..] && b == [b[0]] + b[1..];
    }
  }

  lemma {:induction false} NameLeqIsTransitive(a: string, b: string, c: string)
    requires NameLeq(a, b) && NameLeq(b, c)
    ensures NameLeq(a, c)
  {
    if a != "" && a[0] == b[0] && b[0] == c[0] {
      NameLeqIsTransitive(a[1..], b[1..], c[1..]);
    }
  }

  predicate NameLess(a: string, b: string) {
    a != b && NameLeq(a, b)
  }

  ghost predicate IsLeast(names: set<string>, n: string) {
    n in names && forall m :: m in names ==> NameLeq(n, m)
  }

  lemma {:induction false} LeastExists(names: set<string>)
    requires names != {}
    ensures exists n :: IsLeast(names, n)
    decreases |names|
  {
    var some :| some in names;
    var rest := names - {some};
    if rest == {} {
      NameLeqIsTotal(some, some);
      assert names == {some};
      assert IsLeast(names, some);
    } else {
      LeastExists(rest);
      var n :| IsLeast(rest, n);
      LeastOfOneMore(names, rest, some, n);
    }
  }

  lemma LeastOfOneMore(names: set<string>, rest: set<string>, some: string, n: string)
    requires names == rest + {some} && IsLeast(rest, n)
    ensures IsLeast(names, if NameLeq(n, some) then n else some)
  {
    hide NameLeq;
    var least := if NameLeq(n, some) then n else some;
    forall m | m in names
      ensures NameLeq(least, m)
    {
      NameLeqIsTotal(n, some);
      NameLeqIsTotal(some, some);
      if m in rest {
        if least == some {
          NameLeqIsTransitive(some, n, m);
        }
      }
    }
  }

  ghost predicate InOrder(names: seq<string>) {
    forall i, j :: 0 <= i < j < |names| ==> NameLess(names[i], names[j])
  }

  /** The keys as an ordered map iterates them. */
  method Listed(keys: set<string>) returns (names: seq<string>)
    ensures InOrder(names)
    ensures |names| == |keys|
    ensures forall n :: n in names <==> n in keys
  {
    names := [];
    var left := keys;
    while left != {}
      invariant left <= keys && |names| + |left| == |keys|
      invariant forall n :: n in names <==> n in keys - left
      invariant InOrder(names)
      invariant forall n, m :: n in names && m in left ==> NameLess(n, m)
      decreases |left|
    {
      LeastExists(left);
      ghost var some :| IsLeast(left, some);
      var least :| least in left && forall m :: m in left ==> NameLeq(least, m);
      names := names + [least];
      left := left - {least};
    }
  }

  datatype Row<V> = Row(name: string, value: V)

  /** Where the ranking puts a row first: ahead of `b` outright, or level with it and first by name. */
  predicate Ahead<V>(le: (Row<V>, Row<V>) -> bool, a: Row<V>, b: Row<V>) {
    le(a, b) && (le(b, a) ==> NameLess(a.name, b.name))
  }

  /** The rows are the map's entries, each once, ranked, and level ones in order of name. */
  ghost predicate IsRanking<V(!new)>(m: map<string, V>, le: (Row<V>, Row<V>) -> bool, rows: seq<Row<V>>) {
    && |rows| == |m|
    && (forall n :: n in m ==> Row(n, m[n]) in rows)
    && (forall r :: r in rows ==> r.name in m && r.value == m[r.name])
    && forall i, j :: 0 <= i < j < |rows| ==> Ahead(le, rows[i], rows[j])
  }

  ghost predicate AllAhead<V(!new)>(le: (Row<V>, Row<V>) -> bool, rows: seq<Row<V>>) {
    forall i, j :: 0 <= i < j < |rows| ==> Ahead(le, rows[i], rows[j])
  }

  lemma {:induction false} InsertKeepsAhead<V(!new)>(le: (Row<V>, Row<V>) -> bool, x: Row<V>, s: seq<Row<V>>)
    requires TotalPreorder(le) && AllAhead(le, s)
    requires forall j :: 0 <= j < |s| ==> NameLess(x.name, s[j].name)
    ensures AllAhead(le, Insert(le, x, s))
  {
    hide NameLeq;
    if s != [] && !le(x, s[0]) {
      InsertKeepsAhead(le, x, s[1..]);
      var inserted := Insert(le, x, s[1..]);
      InsertKeeps(le, x, s[1..]);
      forall j | 0 <= j < |inserted|
        ensures Ahead(le, s[0], inserted[j])
      {
        assert inserted[j] in multiset(inserted);
        if inserted[j] != x {
          assert inserted[j] in multiset(s[1..]);
          var k :| 0 <= k < |s| - 1 && s[1..][k] == inserted[j];
          assert Ahead(le, s[0], s[k + 1]);
        }
      }
    } else if s != [] {
      forall j | 0 <= j < |s|
        ensures Ahead(le, x, s[j])
      {
        assert j == 0 || Ahead(le, s[0], s[j]);
      }
    }
  }

  /** Sorting rows listed by name leaves level rows in order of name. */
  lemma {:induction false} SortRanks<V(!new)>(le: (Row<V>, Row<V>) -> bool, rows: seq<Row<V>>)
    requires TotalPreorder(le)
    requires forall i, j :: 0 <= i < j < |rows| ==> NameLess(rows[i].name, rows[j].name)
    ensures AllAhead(le, Sort(le, rows))
  {
    if rows != [] {
      SortRanks(le, rows[1..]);
      var sorted := Sort(le, rows[1..]);
      SortSorts(le, rows[1..]);
      forall j | 0 <= j < |sorted|
        ensures NameLess(rows[0].name, sorted[j].name)
      {
        assert sorted[j] in multiset(sorted);
        assert sorted[j] in multiset(rows[1..]);
        var k :| 0 <= k < |rows| - 1 && rows[1..][k] == sorted[j];
      }
      InsertKeepsAhead(le, rows[0], sorted);
    }
  }

  method Ranked<V(!new)>(m: map<string, V>, le: (Row<V>, Row<V>) -> bool) returns (rows: seq<Row<V>>)
    requires TotalPreorder(le)
    ensures IsRanking(m, le, rows)
  {
    var names := Listed(m.Keys);
    var listed: seq<Row<V>> := [];
    var i := 0;
    while i < |names|
      invariant 0 <= i <= |names| && |listed| == i
      invariant forall k :: 0 <= k < i ==> names[k] in m && listed[k] == Row(names[k], m[names[k]])
    {
      assert names[i] in names;
      listed := listed + [Row(names[i], m[names[i]])];
      i := i + 1;
    }
    rows := Sort(le, listed);
    SortSorts(le, listed);
    SortRanks(le, listed);
    SameRows(m, names, listed, rows);
  }

  lemma SameRows<V(!new)>(m: map<string, V>, names: seq<string>, listed: seq<Row<V>>, rows: seq<Row<V>>)
    requires |names| == |m.Keys| == |listed| && forall n :: n in names <==> n in m.Keys
    requires forall k :: 0 <= k < |names| ==> names[k] in m && listed[k] == Row(names[k], m[names[k]])
    requires multiset(rows) == multiset(listed)
    ensures |rows| == |m|
    ensures forall n :: n in m ==> Row(n, m[n]) in rows
    ensures forall r :: r in rows ==> r.name in m && r.value == m[r.name]
  {
    assert |multiset(rows)| == |multiset(listed)|;
    forall n | n in m
      ensures Row(n, m[n]) in rows
    {
      var k :| 0 <= k < |names| && names[k] == n;
      assert listed[k] in multiset(listed);
      assert Row(n, m[n]) in multiset(rows);
    }
    forall r | r in rows
      ensures r.name in m && r.value == m[r.name]
    {
      assert r in multiset(rows);
      assert r in multiset(listed);
    }
  }

  /** A ranking is settled by the map: there is only one. */
  lemma {:induction false} RankingIsUnique<V(!new)>(
    m: map<string, V>, le: (Row<V>, Row<V>) -> bool, a: seq<Row<V>>, b: seq<Row<V>>)
    requires TotalPreorder(le) && IsRanking(m, le, a) && IsRanking(m, le, b)
    ensures a == b
    decreases |a|
  {
    RankingHasAll(m, le, a);
    RankingHasAll(m, le, b);
    hide *;
    if |m| > 0 {
      FirstIsFirst(m, le, a, b);
      TailIsRanking(m, le, a);
      TailIsRanking(m, le, b);
      RankingIsUnique(m - {a[0].name}, le, a[1..], b[1..]);
      SameEnds(a, b);
    }
  }

  lemma SameEnds<T>(a: seq<T>, b: seq<T>)
    requires a != [] && b != [] && a[0] == b[0] && a[1..] == b[1..]
    ensures a == b
  {
    assert a == [a[0]] + a[1..] && b == [b[0]] + b[1..];
  }

  lemma RankingHasAll<V(!new)>(m: map<string, V>, le: (Row<V>, Row<V>) -> bool, a: seq<Row<V>>)
    requires IsRanking(m, le, a)
    ensures |a| == |m|
  {
  }

  lemma FirstIsFirst<V(!new)>(m: map<string, V>, le: (Row<V>, Row<V>) -> bool, a: seq<Row<V>>, b: seq<Row<V>>)
    requires TotalPreorder(le) && IsRanking(m, le, a) && IsRanking(m, le, b) && |m| > 0
    ensures a[0] == b[0]
  {
    assert a[0] in a && b[0] in b;
    assert Row(a[0].name, m[a[0].name]) in b && Row(b[0].name, m[b[0].name]) in a;
    var i :| 0 <= i < |b| && b[i] == a[0];
    var j :| 0 <= j < |a| && a[j] == b[0];
    if i > 0 && j > 0 {
      assert Ahead(le, b[0], b[i]) && Ahead(le, a[0], a[j]);
      NameLeqIsTotal(a[0].name, b[0].name);
    }
  }

  /** No two rows have one name. */
  lemma NamesApart<V(!new)>(m: map<string, V>, le: (Row<V>, Row<V>) -> bool, a: seq<Row<V>>, i: nat, j: nat)
    requires TotalPreorder(le) && IsRanking(m, le, a) && i < j < |a|
    ensures a[i].name != a[j].name
  {
    hide NameLeq;
    assert Ahead(le, a[i], a[j]);
    assert a[i] in a && a[j] in a;
    assert le(a[i], a[i]);
    assert a[i] == Row(a[i].name, m[a[i].name]) && a[j] == Row(a[j].name, m[a[j].name]);
  }

  lemma TailIsRanking<V(!new)>(m: map<string, V>, le: (Row<V>, Row<V>) -> bool, a: seq<Row<V>>)
    requires TotalPreorder(le) && IsRanking(m, le, a) && |m| > 0
    ensures IsRanking(m - {a[0].name}, le, a[1..])
  {
    hide Ahead, TotalPreorder;
    TailIsSmaller(m, le, a);
    RestIsInTail(m, le, a);
    forall r | r in a[1..]
      ensures r.name in m && r.name != a[0].name && r.value == m[r.name]
    {
      hide IsRanking;
      RowOfTail(m, le, a, r);
    }
  }

  lemma RestIsInTail<V(!new)>(m: map<string, V>, le: (Row<V>, Row<V>) -> bool, a: seq<Row<V>>)
    requires IsRanking(m, le, a) && |m| > 0
    ensures forall n :: n in m && n != a[0].name ==> Row(n, m[n]) in a[1..]
  {
    hide Ahead;
    forall n | n in m && n != a[0].name
      ensures Row(n, m[n]) in a[1..]
    {
      assert Row(n, m[n]) in a;
    }
  }

  lemma TailIsSmaller<V(!new)>(m: map<string, V>, le: (Row<V>, Row<V>) -> bool, a: seq<Row<V>>)
    requires IsRanking(m, le, a) && |m| > 0
    ensures |m - {a[0].name}| == |a[1..]|
  {
    hide Ahead;
    var rest := m - {a[0].name};
    assert a[0] in a;
    assert rest.Keys == m.Keys - {a[0].name};
    assert |rest| == |rest.Keys| && |m| == |m.Keys|;
  }

  lemma RowOfTail<V(!new)>(m: map<string, V>, le: (Row<V>, Row<V>) -> bool, a: seq<Row<V>>, r: Row<V>)
    requires TotalPreorder(le) && IsRanking(m, le, a) && |m| > 0 && r in a[1..]
    ensures r.name in m && r.name != a[0].name && r.value == m[r.name]
  {
    hide Ahead, TotalPreorder;
    var k :| 0 <= k < |a| - 1 && a[1..][k] == r;
    NamesApart(m, le, a, 0, k + 1);
    assert r in a;
  }
}
