/** A stable sort, as the source's `sort` and `sort_by` are, with what it promises. */
module Sorting {

  ghost predicate TotalPreorder<T(!new)>(le: (T, T) -> bool) {
    && (forall x, y :: le(x, y) || le(y, x))
    && (forall x, y, z :: le(x, y) && le(y, z) ==> le(x, z))
  }

  ghost predicate Sorted<T>(le: (T, T) -> bool, s: seq<T>) {
    forall i, j :: 0 <= i < j < |s| ==> le(s[i], s[j])
  }

  /** Puts `x` before the first element it does not have to follow. */
  function Insert<T>(le: (T, T) -> bool, x: T, s: seq<T>): seq<T> {
    if s == [] || le(x, s[0]) then [x] + s else [s[0]] + Insert(le, x, s[1..])
  }

  function Sort<T>(le: (T, T) -> bool, s: seq<T>): seq<T> {
    if s == [] then [] else Insert(le, s[0], Sort(le, s[1..]))
  }

  lemma {:induction false} InsertKeeps<T(!new)>(le: (T, T) -> bool, x: T, s: seq<T>)
    ensures multiset(Insert(le, x, s)) == multiset{x} + multiset(s)
  {
    if s != [] && !le(x, s[0]) {
      InsertKeeps(le, x, s[1..]);
      assert s == [s[0]] + s[1..];
    }
  }

  lemma {:induction false} InsertSorts<T(!new)>(le: (T, T) -> bool, x: T, s: seq<T>)
    requires TotalPreorder(le) && Sorted(le, s)
    ensures Sorted(le, Insert(le, x, s))
  {
    if s != [] && !le(x, s[0]) {
      InsertSorts(le, x, s[1..]);
      AllFollow(le, s[0], x, s[1..]);
    } else if s != [] {
      forall j | 0 <= j < |s|
        ensures le(x, s[j])
      {
        assert j == 0 || le(s[0], s[j]);
      }
    }
  }

  /** What comes before `x` and all of `s` comes before all of both. */
  lemma AllFollow<T(!new)>(le: (T, T) -> bool, first: T, x: T, s: seq<T>)
    requires le(first, x) && forall j :: 0 <= j < |s| ==> le(first, s[j])
    ensures forall j :: 0 <= j < |Insert(le, x, s)| ==> le(first, Insert(le, x, s)[j])
  {
    InsertKeeps(le, x, s);
    var inserted := Insert(le, x, s);
    forall j | 0 <= j < |inserted|
      ensures le(first, inserted[j])
    {
      assert inserted[j] in multiset(inserted);
      if inserted[j] != x {
        assert inserted[j] in multiset(s);
        var k :| 0 <= k < |s| && s[k] == inserted[j];
      }
    }
  }

  /** The result is in order and holds exactly what was given. */
  lemma {:induction false} SortSorts<T(!new)>(le: (T, T) -> bool, s: seq<T>)
    requires TotalPreorder(le)
    ensures Sorted(le, Sort(le, s))
    ensures multiset(Sort(le, s)) == multiset(s)
    ensures |Sort(le, s)| == |s|
  {
    if s != [] {
      SortSorts(le, s[1..]);
      InsertSorts(le, s[0], Sort(le, s[1..]));
      InsertKeeps(le, s[0], Sort(le, s[1..]));
      assert s == [s[0]] + s[1..];
    }
    assert |Sort(le, s)| == |multiset(Sort(le, s))|;
  }

  /** What is in order already stays as it is. */
  lemma {:induction false} SortKeepsSorted<T(!new)>(le: (T, T) -> bool, s: seq<T>)
    requires Sorted(le, s)
    ensures Sort(le, s) == s
  {
    if s != [] {
      SortKeepsSorted(le, s[1..]);
      assert |s| > 1 ==> le(s[0], s[1]);
      assert s == [s[0]] + s[1..];
    }
  }

  function Filter<T>(keep: T -> bool, s: seq<T>): seq<T> {
    if s == [] then []
    else if keep(s[0]) then [s[0]] + Filter(keep, s[1..])
    else Filter(keep, s[1..])
  }

  lemma {:induction false} InsertIsStable<T(!new)>(le: (T, T) -> bool, keep: T -> bool, x: T, s: seq<T>)
    requires forall y, z :: keep(y) && keep(z) ==> le(y, z)
    ensures Filter(keep, Insert(le, x, s)) == Filter(keep, [x] + s)
  {
    if s != [] && !le(x, s[0]) {
      InsertIsStable(le, keep, x, s[1..]);
      assert ([x] + s)[1..] == s;
      assert ([x] + s[1..])[1..] == s[1..];
      var inserted := [s[0]] + Insert(le, x, s[1..]);
      assert inserted[1..] == Insert(le, x, s[1..]);
    }
  }

  /** Elements that compare equal keep the order they came in. */
  lemma {:induction false} SortIsStable<T(!new)>(le: (T, T) -> bool, keep: T -> bool, s: seq<T>)
    requires forall y, z :: keep(y) && keep(z) ==> le(y, z)
    ensures Filter(keep, Sort(le, s)) == Filter(keep, s)
  {
    if s != [] {
      SortIsStable(le, keep, s[1..]);
      InsertIsStable(le, keep, s[0], Sort(le, s[1..]));
      assert ([s[0]] + Sort(le, s[1..]))[1..] == Sort(le, s[1..]);
    }
  }

  /** The same elements in another order, the last of one taken out of the other. */
  lemma TakeOut<T>(a: seq<T>, b: seq<T>) returns (i: nat)
    requires multiset(a) == multiset(b) && a != []
    ensures |a| == |b| && i < |b| && b[i] == a[|a| - 1]
    ensures multiset(a[..|a| - 1]) == multiset(b[..i] + b[i + 1..])
    ensures b == b[..i] + [b[i]] + b[i + 1..]
  {
    assert |a| == |multiset(a)| == |multiset(b)| == |b|;
    var init, last := a[..|a| - 1], a[|a| - 1];
    assert a == init + [last];
    assert last in multiset(b);
    i :| 0 <= i < |b| && b[i] == last;
    assert b == b[..i] + [b[i]] + b[i + 1..];
    var rest := b[..i] + b[i + 1..];
    assert multiset(b) == multiset(rest) + multiset{last};
    forall x
      ensures multiset(init)[x] == multiset(rest)[x]
    {
      assert (multiset(init) + multiset{last})[x] == (multiset(rest) + multiset{last})[x];
    }
  }
}
