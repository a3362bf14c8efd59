/**
 Evicting units from a target directory: the locks it is done under, the order it
 is done in, where it stops, and what it frees.

 `stuck` holds the entries that cannot be deleted. Removing a directory skips them
 in silence, as `rmtree(ignore_errors=True)` does; removing a file that cannot be
 deleted raises.
 */
module Eviction {
  import opened Options
  import opened DiskTree
  import opened PruneTarget
  import Sorting

  // ------------------------------------------------------------ what goes

  /** Neither `p` nor anything below it is stuck. */
  ghost predicate Removable(t: Tree, stuck: set<Path>, p: Path) {
    forall s :: s in stuck && s in t.entries ==> !(p <= s)
  }

  /** What removing these roots, in any order, deletes. */
  ghost function Gone(t: Tree, stuck: set<Path>, roots: seq<Path>): set<Path> {
    set p | p in BelowAny(t, roots) && Removable(t, stuck, p)
  }

  ghost function Without(t: Tree, gone: set<Path>): Tree {
    t.(entries := map p | p in t.entries && p !in gone :: t.entries[p])
  }

  ghost function Evicted(t: Tree, stuck: set<Path>, roots: seq<Path>): Tree {
    Without(t, Gone(t, stuck, roots))
  }

  lemma EvictedIsValid(t: Tree, stuck: set<Path>, roots: seq<Path>)
    requires Valid(t)
    ensures Valid(Evicted(t, stuck, roots))
  {
    var v := Evicted(t, stuck, roots);
    forall p, n | p in v.entries && 0 < n < |p|
      ensures p[..n] in v.entries && v.At(p[..n]).directory
    {
      assert p[..n] <= p;
    }
  }

  lemma EvictedShrinks(t: Tree, stuck: set<Path>, roots: seq<Path>)
    ensures Evicted(t, stuck, roots).entries.Keys <= t.entries.Keys
  {
  }

  /** Stuck entries stay, so evicting in two rounds deletes what one would. */
  lemma EvictInRounds(t: Tree, stuck: set<Path>, first: seq<Path>, rest: seq<Path>)
    ensures Evicted(Evicted(t, stuck, first), stuck, rest) == Evicted(t, stuck, first + rest)
  {
    var v := Evicted(t, stuck, first);
    forall s | s in stuck && s in t.entries
      ensures s in v.entries
    {
      assert !Removable(t, stuck, s);
    }
    forall p | p in t.entries
      ensures p in Gone(t, stuck, first + rest) <==> p in Gone(t, stuck, first) || p in Gone(v, stuck, rest)
    {
      assert Removable(t, stuck, p) <==> Removable(v, stuck, p);
      if p in BelowAny(t, first + rest) {
        var r :| r in first + rest && r <= p;
        assert r in first || r in rest;
      }
      if p in BelowAny(t, first) {
        var r :| r in first && r <= p;
        assert r in first + rest;
      }
      if p in BelowAny(t, rest) {
        var r :| r in rest && r <= p;
        assert r in first + rest;
      }
    }
    assert Evicted(v, stuck, rest).entries == Evicted(t, stuck, first + rest).entries;
  }

  lemma EvictNothing(t: Tree, stuck: set<Path>)
    ensures Evicted(t, stuck, []) == t
  {
    assert Gone(t, stuck, []) == {};
    assert Evicted(t, stuck, []).entries == t.entries;
  }

  // ------------------------------------------------------ what it gives back

  ghost function AllPaths(units: seq<Unit>): seq<Path> {
    if units == [] then [] else AllPaths(units[..|units| - 1]) + units[|units| - 1].paths
  }

  function TotalFreed(units: seq<Unit>): nat {
    if units == [] then 0 else TotalFreed(units[..|units| - 1]) + units[|units| - 1].freed
  }

  lemma {:induction false} PathsComeFromUnits(units: seq<Unit>, r: Path)
    requires r in AllPaths(units)
    ensures exists k :: 0 <= k < |units| && r in units[k].paths
  {
    var n := |units| - 1;
    if r !in units[n].paths {
      PathsComeFromUnits(units[..n], r);
      var k :| 0 <= k < n && r in units[..n][k].paths;
      assert r in units[k].paths;
    }
  }

  lemma BelowBoth(t: Tree, a: seq<Path>, b: seq<Path>)
    ensures BelowAny(t, a + b) == BelowAny(t, a) + BelowAny(t, b)
  {
    forall p | p in BelowAny(t, a) + BelowAny(t, b)
      ensures p in BelowAny(t, a + b)
    {
      if p in BelowAny(t, a) {
        var r :| r in a && r <= p;
        assert r in a + b;
      } else {
        var r :| r in b && r <= p;
        assert r in a + b;
      }
    }
  }

  ghost predicate UnitsOkApart(t: Tree, units: seq<Unit>)
    requires Valid(t)
  {
    UnitsApart(units) && forall k :: 0 <= k < |units| ==> UnitOk(t, units[k])
  }

  /** What the units add up to is what everything below their paths gives back. */
  lemma {:induction false} UnitsAddUp(t: Tree, units: seq<Unit>)
    requires Valid(t) && UnitsOkApart(t, units)
    ensures TotalFreed(units) == Freed(t, BelowAny(t, AllPaths(units)))
  {
    if units == [] {
      assert BelowAny(t, []) == {};
      assert SoleInodes(t, {}) == {};
    } else {
      var n := |units| - 1;
      var before, last := BelowAny(t, AllPaths(units[..n])), BelowAny(t, units[n].paths);
      UnitsAddUp(t, units[..n]);
      BelowBoth(t, AllPaths(units[..n]), units[n].paths);
      forall p | p in before
        ensures p !in last
      {
        var r :| r in AllPaths(units[..n]) && r <= p;
        PathsComeFromUnits(units[..n], r);
        var k :| 0 <= k < n && r in units[..n][k].paths;
        forall s | s in units[n].paths
          ensures !(s <= p)
        {
          assert r in units[k].paths && Apart(r, s);
          BelowBothMeet(r, s, p);
        }
      }
      FreedOfDisjoint(t, before, last);
    }
  }

  /** What eviction was meant to delete and could not. */
  ghost function LeftBehind(t: Tree, stuck: set<Path>, roots: seq<Path>): set<Path> {
    BelowAny(t, roots) - Gone(t, stuck, roots)
  }

  /** Whether the bytes counted as freed are no more than the usage went down by. */
  ghost predicate Honest(t: Tree, stuck: set<Path>, units: seq<Unit>) {
    var after := Evicted(t, stuck, AllPaths(units));
    Usage(after, after.entries.Keys) + TotalFreed(units) <= Usage(t, t.entries.Keys)
  }

  /** Nothing at or below a path of these units is stuck. */
  ghost predicate NothingStuckIn(t: Tree, stuck: set<Path>, units: seq<Unit>) {
    forall s :: s in stuck ==> s !in BelowAny(t, AllPaths(units))
  }

  /**
   What evicting units does to the usage: it goes down by what they count as freed,
   less what could not be deleted, and by the hard-linked files they held every name
   of, which are not counted.
   */
  lemma EvictionAddsUp(t: Tree, stuck: set<Path>, units: seq<Unit>)
    requires Valid(t) && UnitsOkApart(t, units)
    ensures var roots := AllPaths(units);
            var after := Evicted(t, stuck, roots);
            Usage(after, after.entries.Keys) + TotalFreed(units) + Size(t, Uncounted(t, Gone(t, stuck, roots)))
            == Usage(t, t.entries.Keys) + Freed(t, LeftBehind(t, stuck, roots))
  {
    var roots := AllPaths(units);
    var gone, left := Gone(t, stuck, roots), LeftBehind(t, stuck, roots);
    UnitsAddUp(t, units);
    assert gone + left == BelowAny(t, roots);
    FreedOfDisjoint(t, gone, left);
    RemovalAddsUp(t, gone);
    SameInodes(t, gone);
  }

  /**
   The bytes counted as freed are honest exactly when what could not be deleted is
   made up for by hard-linked files that went and were not counted. They always are
   when nothing at or below an evicted path is stuck.
   */
  lemma FreedIsHonestExactlyWhen(t: Tree, stuck: set<Path>, units: seq<Unit>)
    requires Valid(t) && UnitsOkApart(t, units)
    ensures var roots := AllPaths(units);
            Honest(t, stuck, units)
            <==> Freed(t, LeftBehind(t, stuck, roots)) <= Size(t, Uncounted(t, Gone(t, stuck, roots)))
    ensures NothingStuckIn(t, stuck, units) ==> Honest(t, stuck, units)
  {
    hide UnitsOkApart, Evicted, Gone, Uncounted, Usage, Freed;
    EvictionAddsUp(t, stuck, units);
    if NothingStuckIn(t, stuck, units) {
      NothingIsLeft(t, stuck, units);
    }
  }

  /**
   When nothing below the units is stuck, and no file there has a second link, the
   usage goes down by exactly the bytes counted as freed.
   */
  lemma FreedIsExact(t: Tree, stuck: set<Path>, units: seq<Unit>)
    requires Valid(t) && UnitsOkApart(t, units) && NothingStuckIn(t, stuck, units)
    requires forall p :: p in BelowAny(t, AllPaths(units)) && !t.At(p).directory ==> t.At(p).links <= 1
    ensures var after := Evicted(t, stuck, AllPaths(units));
            Usage(after, after.entries.Keys) + TotalFreed(units) == Usage(t, t.entries.Keys)
  {
    var gone := Gone(t, stuck, AllPaths(units));
    EvictionAddsUp(t, stuck, units);
    NothingIsLeft(t, stuck, units);
    SingleLinksAddUp(t, gone);
    RemovalAddsUp(t, gone);
    hide UnitsOkApart, Evicted, Gone, Uncounted, Usage, Freed, Size;
  }

  lemma NothingIsLeft(t: Tree, stuck: set<Path>, units: seq<Unit>)
    requires NothingStuckIn(t, stuck, units)
    ensures Freed(t, LeftBehind(t, stuck, AllPaths(units))) == 0
  {
    var roots := AllPaths(units);
    forall p | p in BelowAny(t, roots)
      ensures Removable(t, stuck, p)
    {
      var r :| r in roots && r <= p;
      assert forall s :: s in t.entries && p <= s ==> r <= s && s in BelowAny(t, roots);
    }
    assert LeftBehind(t, stuck, roots) == {};
    assert SoleInodes(t, {}) == {};
  }

  /** In particular the figure is overstated by no more than what could not be deleted. */
  lemma FreedIsNeverOverstated(t: Tree, stuck: set<Path>, units: seq<Unit>)
    requires Valid(t) && UnitsOkApart(t, units)
    ensures var after := Evicted(t, stuck, AllPaths(units));
            Usage(after, after.entries.Keys) + TotalFreed(units)
            <= Usage(t, t.entries.Keys) + Freed(t, LeftBehind(t, stuck, AllPaths(units)))
    ensures stuck == {} ==> Honest(t, stuck, units)
  {
    EvictionAddsUp(t, stuck, units);
    FreedIsHonestExactlyWhen(t, stuck, units);
  }

  lemma SameInodes(t: Tree, gone: set<Path>)
    ensures Usage(Without(t, gone), Without(t, gone).entries.Keys) == Usage(t, t.entries.Keys - gone)
  {
    var v := Without(t, gone);
    forall i
      ensures i in Inodes(v, v.entries.Keys) <==> i in Inodes(t, t.entries.Keys - gone)
    {
      if i in Inodes(v, v.entries.Keys) {
        var p :| p in v.entries && v.entries[p] == i;
        assert p in t.entries.Keys - gone && t.entries[p] == i;
      }
      if i in Inodes(t, t.entries.Keys - gone) {
        var p :| p in t.entries.Keys - gone && t.entries[p] == i;
        assert p in v.entries && v.entries[p] == i;
      }
    }
    assert Inodes(v, v.entries.Keys) == Inodes(t, t.entries.Keys - gone);
    SameTable(t, v, Inodes(v, v.entries.Keys));
  }

  lemma {:induction false} SameTable(t: Tree, v: Tree, inodes: set<InodeNumber>)
    requires t.inodes == v.inodes
    ensures Size(t, inodes) == Size(v, inodes)
  {
    if inodes != {} {
      SameTable(t, v, inodes - {Pick(inodes)});
    }
  }

  /** The figure can be wrong when something is stuck: nothing was freed, and 8 bytes are claimed. */
  lemma StuckFilesOverstateFreed()
    ensures var path := ["debug", "build", "a-0123456789abcdef"];
            var t := Tree(map[["debug"] := 1, ["debug", "build"] := 2, path := 3],
                          map[1 := Inode(true, 0, 2, 0.0, 0.0), 2 := Inode(true, 0, 2, 0.0, 0.0),
                              3 := Inode(true, 8, 2, 0.0, 0.0)]);
            var u := Unit([path], 0.0, 8);
            && Valid(t) && UnitsOkApart(t, [u])
            && Evicted(t, {path}, u.paths) == t
            && Usage(t, t.entries.Keys) + u.freed > Usage(t, t.entries.Keys)
  {
    var path := ["debug", "build", "a-0123456789abcdef"];
    var t := Tree(map[["debug"] := 1, ["debug", "build"] := 2, path := 3],
                  map[1 := Inode(true, 0, 2, 0.0, 0.0), 2 := Inode(true, 0, 2, 0.0, 0.0),
                      3 := Inode(true, 8, 2, 0.0, 0.0)]);
    forall p, n | p in t.entries && 0 < n < |p|
      ensures p[..n] in t.entries && t.At(p[..n]).directory
    {
      assert p == path || p == ["debug", "build"];
      assert n == 1 || n == 2;
      assert p[..1] == ["debug"];
      if n == 2 { assert p[..2] == ["debug", "build"]; }
    }
    assert path in [path];
    assert BelowAny(t, [path]) == {path};
    FreedOfOne(t, path);
    assert !Removable(t, {path}, path);
    assert Gone(t, {path}, [path]) == {};
    assert Evicted(t, {path}, [path]).entries == t.entries;
  }

  // ------------------------------------------------------- order of removal

  /** Whether a path lies in a fingerprint directory. */
  predicate IsFingerprint(path: Path) {
    path != [] && FINGERPRINT in path[..|path| - 1]
  }

  /** A fingerprint is what lies anywhere inside a directory of that name, and not the directory itself. */
  lemma FingerprintsLieInside(path: Path)
    ensures IsFingerprint(path)
            <==> exists above, below :: below != [] && path == above + [".fingerprint"] + below
  {
    if IsFingerprint(path) {
      var i :| 0 <= i < |path| - 1 && path[..|path| - 1][i] == ".fingerprint";
      assert path == path[..i] + [".fingerprint"] + path[i + 1..];
    }
    if above, below: Path :| below != [] && path == above + [".fingerprint"] + below {
      assert path[..|path| - 1][|above|] == ".fingerprint";
    }
  }

  predicate FingerprintFirst(p: Path, q: Path) {
    IsFingerprint(p) || !IsFingerprint(q)
  }

  /** The order a unit's paths go in: a stable sort on whether each is a fingerprint. */
  function EvictionOrder(paths: seq<Path>): seq<Path> {
    Sorting.Sort(FingerprintFirst, paths)
  }

  lemma OrderIsAPermutation(paths: seq<Path>)
    ensures Sorting.Sorted(FingerprintFirst, EvictionOrder(paths))
    ensures multiset(EvictionOrder(paths)) == multiset(paths)
    ensures forall p :: p in EvictionOrder(paths) <==> p in paths
  {
    Sorting.SortSorts(FingerprintFirst, paths);
    forall p
      ensures p in EvictionOrder(paths) <==> p in paths
    {
      assert p in multiset(paths) <==> p in multiset(EvictionOrder(paths));
    }
  }

  predicate IsOutput(path: Path) {
    !IsFingerprint(path)
  }

  /** The fingerprints go first and everything else after them, both in the order they were listed. */
  lemma FingerprintsThenOutputs(paths: seq<Path>)
    ensures EvictionOrder(paths) == Sorting.Filter(IsFingerprint, paths) + Sorting.Filter(IsOutput, paths)
  {
    OrderIsAPermutation(paths);
    Sorting.SortIsStable(FingerprintFirst, IsFingerprint, paths);
    Sorting.SortIsStable(FingerprintFirst, IsOutput, paths);
    SortedSplits(EvictionOrder(paths));
  }

  lemma {:induction false} SortedSplits(order: seq<Path>)
    requires Sorting.Sorted(FingerprintFirst, order)
    ensures order == Sorting.Filter(IsFingerprint, order) + Sorting.Filter(IsOutput, order)
  {
    if order != [] {
      SortedSplits(order[1..]);
      assert order == [order[0]] + order[1..];
      if !IsFingerprint(order[0]) {
        assert forall i :: 0 <= i < |order| ==> !IsFingerprint(order[i]);
        NoneOfThem(order[1..]);
      }
    }
  }

  lemma {:induction false} NoneOfThem(order: seq<Path>)
    requires forall i :: 0 <= i < |order| ==> !IsFingerprint(order[i])
    ensures Sorting.Filter(IsFingerprint, order) == []
  {
    if order != [] {
      NoneOfThem(order[1..]);
    }
  }

  /** Whether removing this path raises: a file, still there, that cannot be deleted. */
  predicate Raises(t: Tree, stuck: set<Path>, root: Path) {
    root in t.entries && t.entries[root] in t.inodes && !t.At(root).directory && root in stuck
  }

  /** The paths removed before one that raises, or all of them. */
  function Until(t: Tree, stuck: set<Path>, order: seq<Path>): seq<Path> {
    if order == [] || Raises(t, stuck, order[0]) then [] else [order[0]] + Until(t, stuck, order[1..])
  }

  lemma {:induction false} UntilIsAPrefix(t: Tree, stuck: set<Path>, order: seq<Path>)
    ensures var done := Until(t, stuck, order);
            && |done| <= |order| && done == order[..|done|]
            && (|done| < |order| ==> Raises(t, stuck, order[|done|]))
            && forall i :: 0 <= i < |done| ==> !Raises(t, stuck, order[i])
  {
    if order != [] && !Raises(t, stuck, order[0]) {
      UntilIsAPrefix(t, stuck, order[1..]);
      assert order == [order[0]] + order[1..];
    }
  }

  /** The entries deleted below these roots, one at a time, given how each root's are ordered. */
  ghost function Deletions(roots: seq<Path>, within: Path -> seq<Path>): seq<Path> {
    if roots == [] then [] else within(roots[0]) + Deletions(roots[1..], within)
  }

  /** Each root's deletions are of what can be deleted at or below it, in any order. */
  ghost predicate DeletesEach(t: Tree, stuck: set<Path>, within: Path -> seq<Path>) {
    forall r :: Set(within(r)) == Gone(t, stuck, [r])
  }

  lemma {:induction false} DeletionsAreGone(t: Tree, stuck: set<Path>, roots: seq<Path>, within: Path -> seq<Path>)
    requires DeletesEach(t, stuck, within)
    ensures Set(Deletions(roots, within)) == Gone(t, stuck, roots)
  {
    if roots == [] {
      assert BelowAny(t, []) == {};
    } else {
      hide Removable;
      DeletionsAreGone(t, stuck, roots[1..], within);
      var rest := Deletions(roots[1..], within);
      assert Set(within(roots[0]) + rest) == Set(within(roots[0])) + Set(rest);
      assert roots == [roots[0]] + roots[1..];
      BelowBoth(t, [roots[0]], roots[1..]);
    }
  }

  /** No path lies at or below another. */
  ghost predicate Separate(roots: seq<Path>) {
    forall r, s :: r in roots && s in roots && r != s ==> Apart(r, s)
  }

  lemma OneRootEach(roots: seq<Path>, r: Path, s: Path, p: Path)
    requires Separate(roots) && r in roots && s in roots && r <= p && s <= p
    ensures r == s
  {
    if r != s {
      BelowBothMeet(r, s, p);
    }
  }

  /** A deletion lies at or below one of the roots. */
  lemma DeletionHasRoot(t: Tree, stuck: set<Path>, roots: seq<Path>, within: Path -> seq<Path>, i: nat)
    requires DeletesEach(t, stuck, within) && i < |Deletions(roots, within)|
    ensures exists r :: r in roots && r <= Deletions(roots, within)[i]
  {
    hide Removable;
    DeletionsAreGone(t, stuck, roots, within);
    assert Deletions(roots, within)[i] in Set(Deletions(roots, within));
  }

  lemma WithinIsBelow(t: Tree, stuck: set<Path>, within: Path -> seq<Path>, r: Path, p: Path)
    requires DeletesEach(t, stuck, within) && p in within(r)
    ensures r <= p
  {
    assert p in Set(within(r)) && p in Gone(t, stuck, [r]);
  }

  /** Every deletion below a fingerprint path comes before any below an output. */
  lemma {:induction false} FingerprintsAreDeletedFirst(
      t: Tree, stuck: set<Path>, roots: seq<Path>, within: Path -> seq<Path>,
      i: nat, j: nat, output: Path, fingerprint: Path)
    requires DeletesEach(t, stuck, within) && Separate(roots)
    requires Sorting.Sorted(FingerprintFirst, roots)
    requires i < |Deletions(roots, within)| && j < |Deletions(roots, within)|
    requires output in roots && !IsFingerprint(output) && output <= Deletions(roots, within)[i]
    requires fingerprint in roots && IsFingerprint(fingerprint) && fingerprint <= Deletions(roots, within)[j]
    ensures j < i
  {
    hide DeletesEach;
    var here, rest := within(roots[0]), Deletions(roots[1..], within);
    if IsFingerprint(roots[0]) {
      if i < |here| {
        WithinIsBelow(t, stuck, within, roots[0], here[i]);
        OneRootEach(roots, roots[0], output, here[i]);
      } else if j >= |here| {
        DeletionHasRoot(t, stuck, roots[1..], within, j - |here|);
        var r :| r in roots[1..] && r <= rest[j - |here|];
        OneRootEach(roots, r, fingerprint, rest[j - |here|]);
        FingerprintsAreDeletedFirst(t, stuck, roots[1..], within, i - |here|, j - |here|, output, fingerprint);
      }
    }
  }

  /** The tree when an eviction is interrupted after so many deletions. */
  ghost function Interrupted(
      t: Tree, stuck: set<Path>, order: seq<Path>, within: Path -> seq<Path>, k: nat): Tree
    requires k <= |Deletions(Until(t, stuck, order), within)|
  {
    Without(t, Set(Deletions(Until(t, stuck, order), within)[..k]))
  }

  /** Something at or below an output is gone. */
  ghost predicate OutputMissing(t: Tree, v: Tree, roots: seq<Path>) {
    exists r, p :: r in roots && !IsFingerprint(r) && r <= p && p in t.entries && p !in v.entries
  }

  /** Something at or below a fingerprint is still there. */
  ghost predicate FingerprintRemains(v: Tree, roots: seq<Path>) {
    exists r, p :: r in roots && IsFingerprint(r) && r <= p && p in v.entries
  }

  /** Something at or below a fingerprint path cannot be deleted. */
  ghost predicate FingerprintStuck(t: Tree, stuck: set<Path>, roots: seq<Path>) {
    exists r, s :: r in roots && IsFingerprint(r) && s in stuck && s in t.entries && r <= s
  }

  /** Some output comes before any path that raises, and something at or below it can be deleted. */
  ghost predicate OutputReached(t: Tree, stuck: set<Path>, order: seq<Path>) {
    exists r, p ::
      r in Until(t, stuck, order) && !IsFingerprint(r) && r <= p && p in t.entries && Removable(t, stuck, p)
  }

  lemma OrderIsSeparate(paths: seq<Path>)
    requires AllApart(paths)
    ensures Separate(EvictionOrder(paths))
  {
    hide EvictionOrder, Apart;
    OrderIsAPermutation(paths);
    forall r, s | r in EvictionOrder(paths) && s in EvictionOrder(paths) && r != s
      ensures Apart(r, s)
    {
      var i :| 0 <= i < |paths| && paths[i] == r;
      var j :| 0 <= j < |paths| && paths[j] == s;
      ApartBothWays(paths, i, j);
    }
  }

  lemma ApartBothWays(paths: seq<Path>, i: nat, j: nat)
    requires AllApart(paths) && i < |paths| && j < |paths| && i != j
    ensures Apart(paths[i], paths[j])
  {
    assert i < j ==> Apart(paths[i], paths[j]);
    assert j < i ==> Apart(paths[j], paths[i]);
  }

  /** An eviction that is not interrupted ends where the last of its deletions leaves it. */
  lemma EvictionEndsThere(t: Tree, stuck: set<Path>, order: seq<Path>, within: Path -> seq<Path>)
    requires DeletesEach(t, stuck, within)
    ensures Interrupted(t, stuck, order, within, |Deletions(Until(t, stuck, order), within)|)
         == Evicted(t, stuck, Until(t, stuck, order))
  {
    var deletions := Deletions(Until(t, stuck, order), within);
    assert deletions[..|deletions|] == deletions;
    DeletionsAreGone(t, stuck, Until(t, stuck, order), within);
  }

  /** At the end of an eviction that reached an output, a stuck fingerprint is left over a missing output. */
  lemma StuckFingerprintOutlives(t: Tree, stuck: set<Path>, order: seq<Path>)
    requires FingerprintStuck(t, stuck, order) && OutputReached(t, stuck, order)
    ensures var v := Evicted(t, stuck, Until(t, stuck, order));
            OutputMissing(t, v, order) && FingerprintRemains(v, order)
  {
    hide IsFingerprint, Until;
    var roots := Until(t, stuck, order);
    UntilIsAPrefix(t, stuck, order);
    var r, p :| r in roots && !IsFingerprint(r) && r <= p && p in t.entries && Removable(t, stuck, p);
    assert p in Gone(t, stuck, roots);
    assert r in order;
    var f, s :| f in order && IsFingerprint(f) && s in stuck && s in t.entries && f <= s;
    assert !Removable(t, stuck, s);
    assert s !in Gone(t, stuck, roots);
    assert s in Evicted(t, stuck, roots).entries;
  }

  /** An output found missing was reached, and could be deleted where it is missing. */
  lemma MissingWasReached(
      t: Tree, stuck: set<Path>, order: seq<Path>, within: Path -> seq<Path>, k: nat, r: Path, p: Path)
    requires DeletesEach(t, stuck, within) && Separate(order)
    requires k <= |Deletions(Until(t, stuck, order), within)|
    requires r in order && r <= p && p in t.entries && p !in Interrupted(t, stuck, order, within, k).entries
    ensures r in Until(t, stuck, order) && Removable(t, stuck, p)
    ensures exists i :: 0 <= i < k && Deletions(Until(t, stuck, order), within)[i] == p
  {
    var roots := Until(t, stuck, order);
    var deletions := Deletions(roots, within);
    UntilIsAPrefix(t, stuck, order);
    assert p in Set(deletions[..k]);
    var i :| 0 <= i < k && deletions[..k][i] == p;
    assert deletions[i] == p;
    DeletionsAreGone(t, stuck, roots, within);
    assert p in Set(deletions) && p in Gone(t, stuck, roots);
    var q :| q in roots && q <= p;
    assert q in order;
    OneRootEach(order, q, r, p);
  }

  /** With nothing stuck at or below a fingerprint, none is left by the time an output is touched. */
  lemma NoFingerprintIsLeft(
      t: Tree, stuck: set<Path>, order: seq<Path>, within: Path -> seq<Path>, k: nat,
      output: Path, p: Path, fingerprint: Path, q: Path)
    requires DeletesEach(t, stuck, within) && Separate(order) && Sorting.Sorted(FingerprintFirst, order)
    requires !FingerprintStuck(t, stuck, order)
    requires k <= |Deletions(Until(t, stuck, order), within)|
    requires output in order && !IsFingerprint(output) && output <= p && p in t.entries
    requires p !in Interrupted(t, stuck, order, within, k).entries
    requires fingerprint in order && IsFingerprint(fingerprint) && fingerprint <= q && q in t.entries
    ensures q !in Interrupted(t, stuck, order, within, k).entries
  {
    var roots := Until(t, stuck, order);
    var deletions := Deletions(roots, within);
    UntilIsAPrefix(t, stuck, order);
    MissingWasReached(t, stuck, order, within, k, output, p);
    var i :| 0 <= i < k && deletions[i] == p;
    FingerprintIsReached(t, stuck, order, output, fingerprint);
    assert Removable(t, stuck, q) by {
      forall s | s in stuck && s in t.entries
        ensures !(q <= s)
      {
        assert !(fingerprint <= s);
      }
    }
    DeletionsAreGone(t, stuck, roots, within);
    assert q in BelowAny(t, roots) && q in Set(deletions);
    var j :| 0 <= j < |deletions| && deletions[j] == q;
    assert Separate(roots);
    FingerprintsAreDeletedFirst(t, stuck, roots, within, i, j, output, fingerprint);
    assert deletions[..k][j] == q;
  }

  lemma NoFingerprintAfter(order: seq<Path>, i: nat, j: nat)
    requires Sorting.Sorted(FingerprintFirst, order) && i < |order| && j < |order|
    requires !IsFingerprint(order[i]) && IsFingerprint(order[j])
    ensures j < i
  {
    if i < j {
      FirstComesFirst(order, i, j);
    }
  }

  lemma FirstComesFirst(order: seq<Path>, i: nat, j: nat)
    requires Sorting.Sorted(FingerprintFirst, order) && i < j < |order|
    ensures IsFingerprint(order[i]) || !IsFingerprint(order[j])
  {
    assert FingerprintFirst(order[i], order[j]);
  }

  /** Fingerprints come first, so an output is reached only past every one of them. */
  lemma FingerprintIsReached(t: Tree, stuck: set<Path>, order: seq<Path>, output: Path, fingerprint: Path)
    requires Sorting.Sorted(FingerprintFirst, order)
    requires output in Until(t, stuck, order) && !IsFingerprint(output)
    requires fingerprint in order && IsFingerprint(fingerprint)
    ensures fingerprint in Until(t, stuck, order)
  {
    UntilIsAPrefix(t, stuck, order);
    var roots := Until(t, stuck, order);
    var i :| 0 <= i < |roots| && roots[i] == output;
    var j :| 0 <= j < |order| && order[j] == fingerprint;
    assert order[i] == output;
    NoFingerprintAfter(order, i, j);
    assert roots[j] == fingerprint;
  }

  /**
   Interrupting an eviction. At some point of it something of an output is gone while
   something of a fingerprint remains, exactly when something at or below a fingerprint
   path cannot be deleted and some output is reached and has anything to delete. In
   particular it is safe at every point when nothing at or below a fingerprint is stuck.
   */
  lemma InterruptedEvictionIsSafe(t: Tree, stuck: set<Path>, paths: seq<Path>, within: Path -> seq<Path>)
    requires AllApart(paths) && DeletesEach(t, stuck, within)
    ensures var order := EvictionOrder(paths);
            (exists k: nat :: k <= |Deletions(Until(t, stuck, order), within)|
                           && OutputMissing(t, Interrupted(t, stuck, order, within, k), paths)
                           && FingerprintRemains(Interrupted(t, stuck, order, within, k), paths))
            <==> FingerprintStuck(t, stuck, paths) && OutputReached(t, stuck, order)
  {
    var order := EvictionOrder(paths);
    OrderIsAPermutation(paths);
    OrderIsSeparate(paths);
    hide EvictionOrder, Separate, AllApart, DeletesEach, IsFingerprint, Removable;
    if FingerprintStuck(t, stuck, paths) && OutputReached(t, stuck, order) {
      StuckInOrder(t, stuck, paths, order);
      StuckFingerprintOutlives(t, stuck, order);
      EvictionEndsThere(t, stuck, order, within);
      SameMembers(t, Interrupted(t, stuck, order, within, |Deletions(Until(t, stuck, order), within)|), paths, order);
    }
    forall k: nat | k <= |Deletions(Until(t, stuck, order), within)|
                    && OutputMissing(t, Interrupted(t, stuck, order, within, k), paths)
                    && FingerprintRemains(Interrupted(t, stuck, order, within, k), paths)
      ensures FingerprintStuck(t, stuck, paths) && OutputReached(t, stuck, order)
    {
      var v := Interrupted(t, stuck, order, within, k);
      var r, p :| r in paths && !IsFingerprint(r) && r <= p && p in t.entries && p !in v.entries;
      var f, q :| f in paths && IsFingerprint(f) && f <= q && q in v.entries;
      assert r in order && f in order;
      MissingWasReached(t, stuck, order, within, k, r, p);
      StuckInOrder(t, stuck, paths, order);
      if !FingerprintStuck(t, stuck, order) {
        NoFingerprintIsLeft(t, stuck, order, within, k, r, p, f, q);
      }
    }
  }

  lemma SameMembers(t: Tree, v: Tree, paths: seq<Path>, order: seq<Path>)
    requires forall p :: p in order <==> p in paths
    ensures OutputMissing(t, v, paths) <==> OutputMissing(t, v, order)
    ensures FingerprintRemains(v, paths) <==> FingerprintRemains(v, order)
  {
    hide IsFingerprint;
  }

  lemma StuckInOrder(t: Tree, stuck: set<Path>, paths: seq<Path>, order: seq<Path>)
    requires forall p :: p in order <==> p in paths
    ensures FingerprintStuck(t, stuck, paths) <==> FingerprintStuck(t, stuck, order)
  {
    hide IsFingerprint;
  }

  /** A record outlives its output: a file that cannot be deleted in a fingerprint directory, skipped in silence. */
  lemma FingerprintOutlivesItsOutput()
    ensures var record := ["debug", FINGERPRINT, "a-0123456789abcdef"];
            var lib := ["debug", "deps", "a-0123456789abcdef.o"];
            var t := Tree(map[["debug"] := 1, ["debug", FINGERPRINT] := 2, record := 3, record + ["lib"] := 4,
                              ["debug", "deps"] := 5, lib := 6],
                          map[1 := Inode(true, 0, 2, 0.0, 0.0), 2 := Inode(true, 0, 2, 0.0, 0.0),
                              3 := Inode(true, 0, 2, 0.0, 0.0), 4 := Inode(false, 8, 1, 0.0, 0.0),
                              5 := Inode(true, 0, 2, 0.0, 0.0), 6 := Inode(false, 8, 1, 0.0, 0.0)]);
            var stuck := {record + ["lib"]};
            var left := Evicted(t, stuck, Until(t, stuck, [record, lib]));
            && EvictionOrder([lib, record]) == [record, lib]
            && Until(t, stuck, [record, lib]) == [record, lib]
            && lib in t.entries && lib !in left.entries && record + ["lib"] in left.entries
  {
    var record := ["debug", FINGERPRINT, "a-0123456789abcdef"];
    var lib := ["debug", "deps", "a-0123456789abcdef.o"];
    var t := Tree(map[["debug"] := 1, ["debug", FINGERPRINT] := 2, record := 3, record + ["lib"] := 4,
                      ["debug", "deps"] := 5, lib := 6],
                  map[1 := Inode(true, 0, 2, 0.0, 0.0), 2 := Inode(true, 0, 2, 0.0, 0.0),
                      3 := Inode(true, 0, 2, 0.0, 0.0), 4 := Inode(false, 8, 1, 0.0, 0.0),
                      5 := Inode(true, 0, 2, 0.0, 0.0), 6 := Inode(false, 8, 1, 0.0, 0.0)]);
    var stuck := {record + ["lib"]};
    assert record[..2] == ["debug", FINGERPRINT] && lib[..2] == ["debug", "deps"];
    assert record[..2][1] == FINGERPRINT;
    TwoInOrder(lib, record);
    TwoUntil(t, stuck, record, lib);
    assert (record + ["lib"])[1] == FINGERPRINT && lib[1] == "deps" && |"deps"| != |FINGERPRINT|;
    assert !(lib <= record + ["lib"]);
    assert lib in [record, lib] && lib in Gone(t, stuck, [record, lib]);
    assert !Removable(t, stuck, record + ["lib"]);
  }

  lemma TwoInOrder(output: Path, fingerprint: Path)
    requires IsFingerprint(fingerprint) && !IsFingerprint(output)
    ensures EvictionOrder([output, fingerprint]) == [fingerprint, output]
  {
    assert [output, fingerprint][1..] == [fingerprint];
    assert [fingerprint][1..] == [];
    hide IsFingerprint;
    assert Sorting.Sort(FingerprintFirst, [fingerprint]) == Sorting.Insert(FingerprintFirst, fingerprint, []);
    assert Sorting.Sort(FingerprintFirst, [fingerprint]) == [fingerprint];
    assert !FingerprintFirst(output, fingerprint);
    assert Sorting.Insert(FingerprintFirst, output, [fingerprint])
        == [fingerprint] + Sorting.Insert(FingerprintFirst, output, []);
  }

  lemma TwoUntil(t: Tree, stuck: set<Path>, first: Path, second: Path)
    requires first !in stuck && second !in stuck
    ensures Until(t, stuck, [first, second]) == [first, second]
  {
    assert [first, second][1..] == [second];
    assert [second][1..] == [];
    assert Until(t, stuck, [second]) == [second] + Until(t, stuck, []);
    assert [second] + [] == [second] && [first] + [second] == [first, second];
  }

  /** A unit goes whole exactly when nothing at or below its paths is stuck. */
  lemma UnitGoesWholeUnlessStuck(t: Tree, stuck: set<Path>, u: Unit)
    ensures BelowAny(Evicted(t, stuck, u.paths), u.paths) == {}
            <==> (forall s :: s in stuck && s in t.entries ==> s !in BelowAny(t, u.paths))
  {
    var after := Evicted(t, stuck, u.paths);
    if s :| s in stuck && s in t.entries && s in BelowAny(t, u.paths) {
      assert !Removable(t, stuck, s);
      assert s in BelowAny(after, u.paths);
    } else {
      forall p | p in BelowAny(t, u.paths)
        ensures p in Gone(t, stuck, u.paths)
      {
        var r :| r in u.paths && r <= p;
        forall s | s in stuck && s in t.entries
          ensures !(p <= s)
        {
        }
      }
    }
  }

  // -------------------------------------------------------------- the target

  type Lock = (Path, string)

  function LocksOf(profile: Path): set<Lock> {
    set n | n in LOCK_NAMES :: (profile, n)
  }

  lemma LocksAreCargos(profile: Path)
    ensures LocksOf(profile)
            == {(profile, ".cargo-lock"), (profile, ".cargo-build-lock"), (profile, ".cargo-artifact-lock")}
  {
    assert LOCK_NAMES[0] == ".cargo-lock" && LOCK_NAMES[1] == ".cargo-build-lock"
           && LOCK_NAMES[2] == ".cargo-artifact-lock";
  }

  ghost predicate NoEmptyPath(u: Unit) {
    forall r :: r in u.paths ==> r != []
  }

  class Target {
    var tree: Tree
    var held: set<Lock>
    const busy: set<Lock>
    const stuck: set<Path>

    constructor (tree: Tree, busy: set<Lock>, stuck: set<Path>)
      ensures this.tree == tree && held == {} && this.busy == busy && this.stuck == stuck
    {
      this.tree, this.held, this.busy, this.stuck := tree, {}, busy, stuck;
    }

    /** Takes every cargo lock in `profile` without waiting, or none of them. */
    method LockProfile(profile: Path) returns (locked: bool)
      requires LocksOf(profile) !! held
      modifies this`held
      ensures LocksOf(profile)
              == {(profile, ".cargo-lock"), (profile, ".cargo-build-lock"), (profile, ".cargo-artifact-lock")}
      ensures locked <==> LocksOf(profile) !! busy
      ensures held == if locked then old(held) + LocksOf(profile) else old(held)
    {
      LocksAreCargos(profile);
      var taken: seq<Lock> := [];
      var i := 0;
      while i < |LOCK_NAMES|
        invariant 0 <= i <= |LOCK_NAMES| && |taken| == i
        invariant forall k :: 0 <= k < i ==> taken[k] == (profile, LOCK_NAMES[k]) && taken[k] !in busy
        invariant held == old(held) + Set(taken)
      {
        var lock := (profile, LOCK_NAMES[i]);
        if lock in busy {
          assert lock in LocksOf(profile);
          assert Set(taken) <= LocksOf(profile);
          Unlock(taken);
          return false;
        }
        assert Set(taken + [lock]) == Set(taken) + {lock};
        taken := taken + [lock];
        held := held + {lock};
        i := i + 1;
      }
      assert Set(taken) == LocksOf(profile) by {
        forall l | l in LocksOf(profile)
          ensures l in Set(taken)
        {
          var k :| 0 <= k < |LOCK_NAMES| && l == (profile, LOCK_NAMES[k]);
          assert taken[k] == l;
        }
      }
      return true;
    }

    method Unlock(locks: seq<Lock>)
      modifies this`held
      ensures held == old(held) - Set(locks)
    {
      var i := 0;
      while i < |locks|
        invariant 0 <= i <= |locks|
        invariant held == old(held) - Set(locks[..i])
      {
        assert Set(locks[..i + 1]) == Set(locks[..i]) + {locks[i]};
        held := held - {locks[i]};
        i := i + 1;
      }
      assert locks[..|locks|] == locks;
    }

    /** Deletes a file, or a directory as far as it can be deleted. */
    method Remove(path: Path) returns (raised: bool)
      requires Valid(tree) && path != []
      modifies this`tree
      ensures Valid(tree) && tree == Evicted(old(tree), stuck, [path])
      ensures raised <==> path in old(tree).entries && !old(tree).At(path).directory && path in stuck
    {
      raised := false;
      EvictedIsValid(tree, stuck, [path]);
      if path in tree.entries && tree.At(path).directory {
        ghost var gone := Gone(tree, stuck, [path]);
        var kept := map p | p in tree.entries && !(path <= p && Deletable(tree, stuck, p)) :: tree.entries[p];
        assert kept == Without(tree, gone).entries by {
          forall p | p in tree.entries
            ensures p in gone <==> path <= p && Deletable(tree, stuck, p)
          {
            assert path in [path];
          }
        }
        tree := tree.(entries := kept);
      } else {
        OneFile(tree, stuck, path);
        if path in tree.entries {
          if path in stuck {
            raised := true;
          } else {
            tree := tree.(entries := map p | p in tree.entries && p != path :: tree.entries[p]);
          }
        }
      }
    }

    /** Removes a unit's paths, fingerprints first, unless one of its files cannot be deleted. */
    method Evict(unit: Unit) returns (raised: bool)
      requires Valid(tree) && NoEmptyPath(unit)
      modifies this`tree
      ensures Valid(tree)
      ensures !raised ==> tree == Evicted(old(tree), stuck, unit.paths)
      ensures raised ==> CutShort(old(tree), stuck, unit, tree)
      ensures tree == Evicted(old(tree), stuck, Until(old(tree), stuck, EvictionOrder(unit.paths)))
      ensures raised <==> HoldsUp(old(tree), stuck, unit)
    {
      hide Removable, BelowAny, EvictionOrder, Until, Raises;
      var order := EvictionOrder(unit.paths);
      OrderIsAPermutation(unit.paths);
      EvictNothing(tree, stuck);
      raised := false;
      var i := 0;
      while i < |order|
        invariant 0 <= i <= |order|
        invariant Valid(tree) && tree == Evicted(old(tree), stuck, order[..i])
        invariant forall j :: 0 <= j < i ==> !Raises(old(tree), stuck, order[j])
      {
        assert order[..i + 1] == order[..i] + [order[i]];
        StillRaises(old(tree), stuck, order[..i], order[i]);
        EvictInRounds(old(tree), stuck, order[..i], [order[i]]);
        assert order[i] in order;
        ghost var before := tree;
        raised := Remove(order[i]);
        if raised {
          assert before.At(order[i]) == old(tree).At(order[i]);
          RaisedIsKept(old(tree), stuck, order[..i], order[i]);
          UntilIs(old(tree), stuck, order, i);
          return;
        }
        i := i + 1;
      }
      assert order[..|order|] == order;
      UntilIs(old(tree), stuck, order, i);
      SameRoots(old(tree), stuck, order, unit.paths);
    }

    /** Evicts in the order given until the goal is met. A dry run only counts. */
    method EvictDown(candidates: seq<Unit>, total: nat, goal: nat, dryRun: bool)
        returns (raised: bool, evicted: nat, freed: nat)
      requires Valid(tree) && forall u :: u in candidates ==> NoEmptyPath(u)
      modifies this`tree
      ensures Valid(tree) && evicted <= |candidates|
      ensures freed == TotalFreed(candidates[..evicted])
      ensures forall j :: 0 <= j < evicted ==> total - TotalFreed(candidates[..j]) > goal
      ensures !raised ==> evicted == |candidates| || total - freed <= goal
      ensures dryRun ==> !raised && tree == old(tree)
      ensures !raised && !dryRun ==> tree == Evicted(old(tree), stuck, AllPaths(candidates[..evicted]))
      ensures !dryRun ==> forall j :: 0 <= j < evicted ==> !HoldsUp(old(tree), stuck, candidates[j])
      ensures raised ==> StopsAt(old(tree), stuck, candidates, total, goal, evicted)
                         && tree == EvictedUpTo(old(tree), stuck, candidates, evicted)
    {
      hide Evicted, Valid, CutShort, HoldsUp;
      raised, evicted, freed := false, 0, 0;
      EvictNothing(tree, stuck);
      while evicted < |candidates| && total - freed > goal
        invariant 0 <= evicted <= |candidates|
        invariant freed == TotalFreed(candidates[..evicted])
        invariant forall j :: 0 <= j < evicted ==> total - TotalFreed(candidates[..j]) > goal
        invariant Valid(tree)
        invariant tree == if dryRun then old(tree) else Evicted(old(tree), stuck, AllPaths(candidates[..evicted]))
        invariant !dryRun ==> forall j :: 0 <= j < evicted ==> !HoldsUp(old(tree), stuck, candidates[j])
      {
        ghost var one := candidates[..evicted + 1];
        assert one[..|one| - 1] == candidates[..evicted] && one[|one| - 1] == candidates[evicted];
        if !dryRun {
          raised := Evict(candidates[evicted]);
          HeldUpAlike(old(tree), stuck, AllPaths(candidates[..evicted]), candidates[evicted]);
          if raised {
            return;
          }
          EvictInRounds(old(tree), stuck, AllPaths(candidates[..evicted]), candidates[evicted].paths);
        }
        freed := freed + candidates[evicted].freed;
        evicted := evicted + 1;
      }
    }

    /** Every unit of every profile whose locks could be taken that has gone unused long enough. */
    method Candidates(listing: seq<First>, contents: Path -> Contents, walk: Path -> seq<Path>, now: real)
        returns (candidates: seq<Unit>, locked: seq<Lock>, left: nat)
      requires Valid(tree) && held == {} && ValidWalk(tree, walk)
      requires forall i, j :: 0 <= i < j < |listing| ==> listing[i].name != listing[j].name
      requires forall i :: 0 <= i < |listing| ==> NoDuplicates(NamesOf(listing[i].seconds))
      requires forall p :: ValidContents(contents(p))
      modifies this`held
      ensures held == Set(locked)
      ensures UnitsOkApart(tree, candidates)
      ensures forall u :: u in candidates ==> MayGo(listing, busy, now, u)
      ensures Considered(tree, listing, contents, busy, now, candidates)
      ensures LeftAlone(listing, busy, left)
    {
      hide UnitOk, WholeUnits, BusyCount, LeftAlone, IsProfile;
      var profiles := Profiles(listing);
      candidates, locked, left := [], [], 0;
      ghost var found: map<Path, seq<Unit>> := map[];
      var i := 0;
      NobodyBusy(busy);
      while i < |profiles|
        invariant 0 <= i <= |profiles|
        invariant held == Set(locked)
        invariant forall l :: l in locked ==> l.0 in profiles[..i]
        invariant UnitsOkApart(tree, candidates)
        invariant forall u :: u in candidates ==> MayGo(listing, busy, now, u) && From(profiles[..i], u)
        invariant forall p :: p in profiles[..i] && LocksOf(p) !! busy ==> p in found
        invariant ConsideredIn(tree, contents, now, candidates, found)
        invariant left == BusyCount(profiles[..i], busy)
      {
        var profile := profiles[i];
        assert profiles[..i + 1] == profiles[..i] + [profile];
        OneMoreProfile(profiles[..i], profile, busy);
        assert profile in profiles;
        forall l | l in held
          ensures l !in LocksOf(profile)
        {
          assert l.0 in profiles[..i];
        }
        var taken := LockProfile(profile);
        if !taken {
          left := left + 1;
        } else {
          LockListIsAll(profile);
          assert Set(locked + LockList(profile)) == Set(locked) + LocksOf(profile);
          locked := locked + LockList(profile);
          var units := ProfileUnits(tree, profile, contents(profile), walk);
          AddOld(tree, listing, contents, busy, profiles, i, now, candidates, units, found);
          candidates := candidates + Sorting.Filter(u => OldEnough(now, u), units);
          found := found[profile := units];
        }
        i := i + 1;
      }
      assert profiles[..|profiles|] == profiles;
      LeftAloneAre(listing, profiles, busy);
    }

    /**
     Prunes the target to under `limit` bytes, down to three quarters of it. `whole`
     is what walking the target lists, `walk` what walking each directory does.
     */
    method Prune(
        listing: seq<First>, contents: Path -> Contents, walk: Path -> seq<Path>, whole: seq<Path>,
        limit: nat, now: real, dryRun: bool)
        returns (outcome: Outcome, ghost order: seq<Unit>)
      requires Valid(tree) && held == {} && ValidWalk(tree, walk) && tree.entries.Keys <= Set(whole)
      requires forall i, j :: 0 <= i < j < |listing| ==> listing[i].name != listing[j].name
      requires forall i :: 0 <= i < |listing| ==> NoDuplicates(NamesOf(listing[i].seconds))
      requires forall p :: ValidContents(contents(p))
      modifies this
      // Whatever happens, the locks are let go and the tree stays a tree.
      ensures held == {} && Valid(tree)
      ensures outcome.UnderBound? <==> Usage(old(tree), old(tree).entries.Keys) <= limit
      ensures outcome.UnderBound? || dryRun ==> tree == old(tree)
      // `order` is the candidates, least recently used first.
      ensures !outcome.UnderBound? ==> InOrder(old(tree), listing, contents, busy, now, order)
      // It is refused exactly when the goal asks for a unit with a file that is there and cannot be
      // deleted. Every unit before the first such one is gone, and that one as far as that file.
      ensures var total := Usage(old(tree), old(tree).entries.Keys);
              && (outcome.Refused? <==>
                    total > limit && !dryRun && SomeNeededHoldsUp(old(tree), stuck, order, total, limit * 3 / 4))
              && (outcome.Refused? ==> StoppedRightly(old(tree), tree, stuck, order, total, limit * 3 / 4))
      ensures stuck == {} ==> !outcome.Refused?
      // What was evicted, what was kept, and what that freed.
      ensures outcome.Pruned? ==>
                && outcome.evicted + outcome.kept == order
                && PickedRightly(old(tree), listing, contents, busy, now, limit * 3 / 4, outcome)
                && (!dryRun ==> tree == Evicted(old(tree), stuck, AllPaths(outcome.evicted)))
                && (!dryRun ==> ReportedHonestly(old(tree), tree, stuck, outcome))
    {
      hide UnitOk, WholeUnits, IsProfile, LocksOf, NamesOf, ValidContents, ValidWalk, MayGo, Unused, Apart, Considered,
           Evicted, Usage, PickedRightly, ReportedHonestly, LeftAlone, InOrder, HoldsUp,
           StopsAt, EvictedUpTo, SomeNeededHoldsUp, StoppedRightly, Needed,
           UnitsOkApart, AllPaths, TotalFreed, Sorting.Sorted, Sorting.Sort, OldEnough;
      WalkCoversTree(tree, whole);
      var total := DiskUsage(tree, whole);
      if total <= limit {
        return UnderBound(total), [];
      }
      var goal := limit * 3 / 4;
      var candidates, locked, left := Candidates(listing, contents, walk, now);
      var leastRecent := Sorting.Sort(LessRecent, candidates);
      order := leastRecent;
      SortKeepsCandidates(tree, candidates);
      SameCandidates(tree, listing, contents, busy, now, candidates, order);
      CandidatesAreInOrder(tree, listing, contents, busy, now, order);
      forall u | u in order
        ensures NoEmptyPath(u) && OldEnough(now, u)
      {
        MayGoMeans(listing, busy, now, u);
      }
      var raised, count, freed := EvictDown(leastRecent, total, goal, dryRun);
      Unlock(locked);
      if raised {
        Stopped(old(tree), tree, stuck, order, total, goal, count);
        return Refused, order;
      }
      if !dryRun {
        NotHeldUp(old(tree), stuck, order, total, goal, count);
      }
      if !dryRun {
        EvictedShrinks(old(tree), stuck, AllPaths(order[..count]));
      }
      WalkCoversTree(tree, whole);
      var remaining := DiskUsage(tree, whole);
      outcome := Pruned(total, freed, remaining, leastRecent[..count], leastRecent[count..], left);
      Picked(old(tree), listing, contents, busy, now, goal, order, count, outcome);
      if !dryRun {
        Reported(old(tree), tree, stuck, outcome);
      }
    }
  }

  datatype Outcome =
    | UnderBound(total: nat)
    | Refused
    | Pruned(total: nat, freed: nat, remaining: nat, evicted: seq<Unit>, kept: seq<Unit>, left: nat)

  /** Whether evicting this unit raises: one of its paths is a file that is there and cannot be deleted. */
  ghost predicate HoldsUp(t: Tree, stuck: set<Path>, u: Unit) {
    exists r :: r in u.paths && Raises(t, stuck, r)
  }

  /** Whether what comes before it is not enough to reach the goal. */
  predicate Needed(order: seq<Unit>, total: nat, goal: nat, k: int) {
    0 <= k < |order| && total - TotalFreed(order[..k]) > goal
  }

  /** The first unit that is needed and holds the eviction up. */
  ghost predicate StopsAt(t: Tree, stuck: set<Path>, order: seq<Unit>, total: nat, goal: nat, k: int) {
    && Needed(order, total, goal, k) && HoldsUp(t, stuck, order[k])
    && forall j :: 0 <= j < k ==> !HoldsUp(t, stuck, order[j])
  }

  /** The tree once every unit before this one is evicted, and this one up to the file that raises. */
  ghost function EvictedUpTo(t: Tree, stuck: set<Path>, order: seq<Unit>, k: nat): Tree
    requires k < |order|
  {
    Evicted(t, stuck, AllPaths(order[..k]) + Until(t, stuck, EvictionOrder(order[k].paths)))
  }

  /** Every unit that may go, each unused, the least recently used first. */
  ghost predicate InOrder(
      t: Tree, listing: seq<First>, contents: Path -> Contents, busy: set<Lock>, now: real, order: seq<Unit>)
    requires Valid(t) && forall p :: ValidContents(contents(p))
  {
    && LeastRecentFirst(order) && UnitsOkApart(t, order)
    && (forall u :: u in order ==> MayGo(listing, busy, now, u) && Unused(t, now, u))
    && Considered(t, listing, contents, busy, now, order)
  }

  lemma CandidatesAreInOrder(
      t: Tree, listing: seq<First>, contents: Path -> Contents, busy: set<Lock>, now: real, order: seq<Unit>)
    requires Valid(t) && forall p :: ValidContents(contents(p))
    requires Sorting.Sorted(LessRecent, order) && UnitsOkApart(t, order)
    requires forall u :: u in order ==> MayGo(listing, busy, now, u)
    requires Considered(t, listing, contents, busy, now, order)
    ensures InOrder(t, listing, contents, busy, now, order)
  {
    hide UnitOk, MayGo, Unused, Considered, UnitsApart;
    forall u | u in order
      ensures Unused(t, now, u)
    {
      MayGoMeans(listing, busy, now, u);
      var k :| 0 <= k < |order| && order[k] == u;
      OldUnitIsUnused(t, now, u);
    }
  }

  ghost predicate SomeNeededHoldsUp(t: Tree, stuck: set<Path>, order: seq<Unit>, total: nat, goal: nat) {
    exists k :: Needed(order, total, goal, k) && HoldsUp(t, stuck, order[k])
  }

  ghost predicate StoppedRightly(t: Tree, v: Tree, stuck: set<Path>, order: seq<Unit>, total: nat, goal: nat) {
    exists k :: StopsAt(t, stuck, order, total, goal, k) && v == EvictedUpTo(t, stuck, order, k)
  }

  lemma Stopped(t: Tree, v: Tree, stuck: set<Path>, order: seq<Unit>, total: nat, goal: nat, k: nat)
    requires StopsAt(t, stuck, order, total, goal, k) && v == EvictedUpTo(t, stuck, order, k)
    ensures SomeNeededHoldsUp(t, stuck, order, total, goal) && StoppedRightly(t, v, stuck, order, total, goal)
    ensures stuck != {}
  {
  }

  lemma NotHeldUp(t: Tree, stuck: set<Path>, order: seq<Unit>, total: nat, goal: nat, count: nat)
    requires count <= |order| && (count == |order| || total - TotalFreed(order[..count]) <= goal)
    requires forall j :: 0 <= j < count ==> !HoldsUp(t, stuck, order[j])
    ensures !SomeNeededHoldsUp(t, stuck, order, total, goal)
  {
    NoneNeededPast(order, total, goal, count);
  }

  lemma {:induction false} FreedOfMore(order: seq<Unit>, j: nat, k: nat)
    requires j <= k <= |order|
    ensures TotalFreed(order[..j]) <= TotalFreed(order[..k])
  {
    if j < k {
      FreedOfMore(order, j, k - 1);
      assert order[..k][..k - 1] == order[..k - 1];
    }
  }

  /** Once the goal is reached, no unit further on is needed for it. */
  lemma NoneNeededPast(order: seq<Unit>, total: nat, goal: nat, count: nat)
    requires count <= |order| && (count == |order| || total - TotalFreed(order[..count]) <= goal)
    ensures forall k :: Needed(order, total, goal, k) ==> k < count
  {
    forall k | Needed(order, total, goal, k)
      ensures k < count
    {
      if count < |order| && count <= k {
        FreedOfMore(order, count, k);
      }
    }
  }

  /** What evictions leave of a tree raises where the tree did. */
  lemma HeldUpAlike(t: Tree, stuck: set<Path>, done: seq<Path>, u: Unit)
    requires Valid(t)
    ensures var v := Evicted(t, stuck, done); var order := EvictionOrder(u.paths);
            && (HoldsUp(v, stuck, u) <==> HoldsUp(t, stuck, u))
            && Evicted(v, stuck, Until(v, stuck, order)) == Evicted(t, stuck, done + Until(t, stuck, order))
  {
    hide Evicted, Raises, EvictionOrder;
    forall r
      ensures Raises(Evicted(t, stuck, done), stuck, r) <==> Raises(t, stuck, r)
    {
      RaisesAlike(t, stuck, done, r);
    }
    UntilAlike(t, Evicted(t, stuck, done), stuck, EvictionOrder(u.paths));
    EvictInRounds(t, stuck, done, Until(t, stuck, EvictionOrder(u.paths)));
  }

  lemma RaisesAlike(t: Tree, stuck: set<Path>, done: seq<Path>, r: Path)
    requires Valid(t)
    ensures Raises(Evicted(t, stuck, done), stuck, r) <==> Raises(t, stuck, r)
  {
    hide Evicted;
    StillRaises(t, stuck, done, r);
  }

  lemma {:induction false} UntilAlike(t: Tree, v: Tree, stuck: set<Path>, order: seq<Path>)
    requires forall r :: Raises(v, stuck, r) <==> Raises(t, stuck, r)
    ensures Until(v, stuck, order) == Until(t, stuck, order)
  {
    if order != [] {
      hide Raises;
      UntilAlike(t, v, stuck, order[1..]);
    }
  }

  /**
   The evicted units are the least recently used of the candidates, as few as reach
   the goal, every one of them allowed to go and unused; every unit of a profile no
   build holds was considered.
   */
  ghost predicate PickedRightly(
      t: Tree, listing: seq<First>, contents: Path -> Contents, busy: set<Lock>, now: real, goal: nat, outcome: Outcome)
    requires Valid(t) && outcome.Pruned? && forall p :: ValidContents(contents(p))
  {
    && outcome.total == Usage(t, t.entries.Keys)
    && outcome.freed == TotalFreed(outcome.evicted)
    && ShortestLeastRecent(outcome.total, goal, outcome.evicted, outcome.kept)
    && UnitsOkApart(t, outcome.evicted)
    && (forall u :: u in outcome.evicted ==> MayGo(listing, busy, now, u) && Unused(t, now, u))
    && Considered(t, listing, contents, busy, now, outcome.evicted + outcome.kept)
    && LeftAlone(listing, busy, outcome.left)
  }

  /** When the figure reported is honest, and how far off it is at most. */
  ghost predicate ReportedHonestly(t: Tree, after: Tree, stuck: set<Path>, outcome: Outcome)
    requires Valid(t) && Valid(after) && outcome.Pruned?
  {
    && outcome.remaining == Usage(after, after.entries.Keys)
    && outcome.remaining + outcome.freed
       <= outcome.total + Freed(t, LeftBehind(t, stuck, AllPaths(outcome.evicted)))
    && (outcome.remaining + outcome.freed <= outcome.total
        <==> Freed(t, LeftBehind(t, stuck, AllPaths(outcome.evicted)))
             <= Size(t, Uncounted(t, Gone(t, stuck, AllPaths(outcome.evicted)))))
    && (NothingStuckIn(t, stuck, outcome.evicted) ==> outcome.remaining + outcome.freed <= outcome.total)
  }

  lemma Picked(
      t: Tree, listing: seq<First>, contents: Path -> Contents, busy: set<Lock>, now: real, goal: nat,
      order: seq<Unit>, count: nat, outcome: Outcome)
    requires Valid(t) && forall p :: ValidContents(contents(p))
    requires count <= |order| && outcome.Pruned?
    requires outcome.evicted == order[..count] && outcome.kept == order[count..]
    requires outcome.total == Usage(t, t.entries.Keys) && outcome.freed == TotalFreed(order[..count])
    requires Sorting.Sorted(LessRecent, order) && UnitsOkApart(t, order)
    requires count == |order| || outcome.total - outcome.freed <= goal
    requires forall j :: 0 <= j < count ==> outcome.total - TotalFreed(order[..j]) > goal
    requires forall u :: u in order ==> MayGo(listing, busy, now, u)
    requires Considered(t, listing, contents, busy, now, order) && LeftAlone(listing, busy, outcome.left)
    ensures PickedRightly(t, listing, contents, busy, now, goal, outcome) && UnitsOkApart(t, outcome.evicted)
  {
    hide UnitOk, WholeUnits, IsProfile, LocksOf, MayGo, Unused, Apart, Considered, Freed, LeftAlone;
    assert outcome.evicted + outcome.kept == order;
    assert forall j :: 0 <= j < count ==> outcome.evicted[..j] == order[..j];
    SomeOkApart(t, outcome.evicted, outcome.kept);
    forall u | u in outcome.evicted
      ensures MayGo(listing, busy, now, u) && Unused(t, now, u)
    {
      assert u in order;
      MayGoMeans(listing, busy, now, u);
      var k :| 0 <= k < count && order[k] == u;
      OldUnitIsUnused(t, now, u);
    }
  }

  lemma Reported(t: Tree, after: Tree, stuck: set<Path>, outcome: Outcome)
    requires Valid(t) && Valid(after) && outcome.Pruned?
    requires UnitsOkApart(t, outcome.evicted)
    requires outcome.total == Usage(t, t.entries.Keys) && outcome.remaining == Usage(after, after.entries.Keys)
    requires outcome.freed == TotalFreed(outcome.evicted)
    requires after == Evicted(t, stuck, AllPaths(outcome.evicted))
    ensures ReportedHonestly(t, after, stuck, outcome)
  {
    FreedIsNeverOverstated(t, stuck, outcome.evicted);
    FreedIsHonestExactlyWhen(t, stuck, outcome.evicted);
    hide UnitsOkApart, Evicted, Gone, Uncounted, Usage, Freed;
  }

  /** How many of these profiles a build holds. */
  function BusyCount(profiles: seq<Path>, busy: set<Lock>): nat {
    if profiles == [] then 0
    else BusyCount(profiles[..|profiles| - 1], busy)
         + (if LocksOf(profiles[|profiles| - 1]) !! busy then 0 else 1)
  }

  lemma OneMoreProfile(profiles: seq<Path>, profile: Path, busy: set<Lock>)
    ensures BusyCount(profiles + [profile], busy)
         == BusyCount(profiles, busy) + (if LocksOf(profile) !! busy then 0 else 1)
  {
    assert (profiles + [profile])[..|profiles|] == profiles;
  }

  lemma NobodyBusy(busy: set<Lock>)
    ensures BusyCount([], busy) == 0
  {
  }

  ghost predicate ListsProfiles(listing: seq<First>, profiles: seq<Path>) {
    AllApart(profiles) && forall p :: p in profiles <==> IsProfile(listing, p)
  }

  /** Those of the profiles that a build holds some lock of. */
  ghost function BusyOnes(profiles: seq<Path>, busy: set<Lock>): set<Path> {
    set p | p in profiles && exists l :: l in busy && l in LocksOf(p)
  }

  /** `left` is how many profile directories a build holds some lock of. */
  ghost predicate LeftAlone(listing: seq<First>, busy: set<Lock>, left: nat) {
    exists profiles :: ListsProfiles(listing, profiles) && left == |BusyOnes(profiles, busy)|
  }

  lemma {:induction false} BusyAreCountedOnce(profiles: seq<Path>, busy: set<Lock>)
    requires AllApart(profiles)
    ensures BusyCount(profiles, busy) == |BusyOnes(profiles, busy)|
  {
    hide LocksOf;
    if profiles == [] {
      assert BusyOnes(profiles, busy) == {};
    } else {
      var before, last := profiles[..|profiles| - 1], profiles[|profiles| - 1];
      BusyAreCountedOnce(before, busy);
      assert last !in before by {
        forall i | 0 <= i < |before|
          ensures before[i] != last
        {
          assert Apart(profiles[i], profiles[|profiles| - 1]);
        }
      }
      assert profiles == before + [last];
      if LocksOf(last) !! busy {
        assert BusyOnes(profiles, busy) == BusyOnes(before, busy);
      } else {
        assert BusyOnes(profiles, busy) == BusyOnes(before, busy) + {last};
      }
    }
  }

  lemma LeftAloneAre(listing: seq<First>, profiles: seq<Path>, busy: set<Lock>)
    requires ListsProfiles(listing, profiles)
    ensures LeftAlone(listing, busy, BusyCount(profiles, busy))
  {
    BusyAreCountedOnce(profiles, busy);
  }

  predicate LessRecent(u: Unit, v: Unit) {
    u.lastUsed <= v.lastUsed
  }

  ghost predicate LeastRecentFirst(units: seq<Unit>) {
    forall i, j :: 0 <= i < j < |units| ==> units[i].lastUsed <= units[j].lastUsed
  }

  /**
   `evicted` is the shortest least recently used prefix of the candidates whose
   freed bytes bring the total down to the goal, or all of them if none does.
   */
  ghost predicate ShortestLeastRecent(total: nat, goal: nat, evicted: seq<Unit>, kept: seq<Unit>) {
    && LeastRecentFirst(evicted + kept)
    && (kept == [] || total - TotalFreed(evicted) <= goal)
    && (forall j :: 0 <= j < |evicted| ==> total - TotalFreed(evicted[..j]) > goal)
  }

  /** Nothing at or below the unit's paths was accessed, if a file, or modified in the protected time. */
  ghost predicate Unused(t: Tree, now: real, u: Unit)
    requires Valid(t)
  {
    forall p :: p in BelowAny(t, u.paths) ==>
      now - t.At(p).modified >= 172800.0
      && (!t.At(p).directory ==> now - t.At(p).accessed >= 172800.0)
  }

  lemma OldUnitIsUnused(t: Tree, now: real, u: Unit)
    requires Valid(t) && UnitOk(t, u)
    ensures OldEnough(now, u) ==> Unused(t, now, u)
    ensures Unused(t, now, u) && now >= 172800.0 ==> OldEnough(now, u)
  {
    if OldEnough(now, u) {
      forall p | p in BelowAny(t, u.paths)
        ensures now - t.At(p).modified >= 172800.0
        ensures !t.At(p).directory ==> now - t.At(p).accessed >= 172800.0
      {
        assert Stamp(t, p) <= u.lastUsed;
      }
    }
  }

  lemma WalkCoversTree(t: Tree, whole: seq<Path>)
    requires t.entries.Keys <= Set(whole)
    ensures Usage(t, Set(whole)) == Usage(t, t.entries.Keys)
  {
    assert Inodes(t, Set(whole)) == Inodes(t, t.entries.Keys);
  }

  /** Sorting loses no candidate, repeats none, and keeps them apart. */
  lemma SortKeepsCandidates(t: Tree, candidates: seq<Unit>)
    requires Valid(t) && UnitsOkApart(t, candidates)
    ensures var order := Sorting.Sort(LessRecent, candidates);
            && Sorting.Sorted(LessRecent, order)
            && (forall u :: u in order <==> u in candidates)
            && UnitsOkApart(t, order)
  {
    hide UnitOk, Apart;
    var order := Sorting.Sort(LessRecent, candidates);
    Sorting.SortSorts(LessRecent, candidates);
    forall u
      ensures u in order <==> u in candidates
    {
      assert u in multiset(order) <==> u in multiset(candidates);
    }
    forall k | 0 <= k < |order|
      ensures UnitOk(t, order[k])
    {
      assert order[k] in candidates;
    }
    PermutedStaysApart(candidates, order);
  }

  lemma PermutedStaysApart(units: seq<Unit>, order: seq<Unit>)
    requires UnitsApart(units) && multiset(units) == multiset(order)
    ensures UnitsApart(order)
  {
    forall k, l, r, s | 0 <= k < l < |order| && r in order[k].paths && s in order[l].paths
      ensures Apart(r, s)
    {
      TwoPlaces(units, order, k, l);
      var i, j :| 0 <= i < |units| && 0 <= j < |units| && i != j && units[i] == order[k] && units[j] == order[l];
      StayApart(units, i, j, r, s);
    }
  }

  lemma StayApart(units: seq<Unit>, i: nat, j: nat, r: Path, s: Path)
    requires UnitsApart(units) && i < |units| && j < |units| && i != j
    requires r in units[i].paths && s in units[j].paths
    ensures Apart(r, s)
  {
    assert if i < j then Apart(r, s) else Apart(s, r);
  }

  /** Two places of a permutation hold what two places of the original held. */
  lemma TwoPlaces(original: seq<Unit>, permuted: seq<Unit>, k: nat, l: nat)
    requires multiset(original) == multiset(permuted) && k < l < |permuted|
    ensures exists i, j :: 0 <= i < |original| && 0 <= j < |original| && i != j
                           && original[i] == permuted[k] && original[j] == permuted[l]
  {
    assert permuted[k] in multiset(permuted) && permuted[l] in multiset(permuted);
    var i :| 0 <= i < |original| && original[i] == permuted[k];
    if permuted[k] != permuted[l] {
      var j :| 0 <= j < |original| && original[j] == permuted[l];
    } else {
      CountedTwice(permuted, k, l);
      SomewhereElse(original, i);
    }
  }

  lemma CountedTwice<T>(s: seq<T>, k: nat, l: nat)
    requires k < l < |s| && s[k] == s[l]
    ensures multiset(s)[s[k]] >= 2
  {
    assert s == s[..l] + [s[l]] + s[l + 1..];
    assert s[..l][k] == s[k];
    assert s[k] in multiset(s[..l]);
  }

  lemma SomewhereElse<T>(s: seq<T>, i: nat)
    requires i < |s| && multiset(s)[s[i]] >= 2
    ensures exists j :: 0 <= j < |s| && j != i && s[j] == s[i]
  {
    assert s == s[..i] + [s[i]] + s[i + 1..];
    assert s[i] in multiset(s[..i]) || s[i] in multiset(s[i + 1..]);
    if s[i] in s[..i] {
      var j :| 0 <= j < i && s[..i][j] == s[i];
      assert s[j] == s[i];
    } else {
      var j :| 0 <= j < |s| - i - 1 && s[i + 1..][j] == s[i];
      assert s[i + 1 + j] == s[i];
    }
  }

  lemma SomeOkApart(t: Tree, some: seq<Unit>, rest: seq<Unit>)
    requires Valid(t) && UnitsOkApart(t, some + rest)
    ensures UnitsOkApart(t, some)
  {
    assert forall k :: 0 <= k < |some| ==> some[k] == (some + rest)[k];
  }

  lemma SameCandidates(
      t: Tree, listing: seq<First>, contents: Path -> Contents, busy: set<Lock>, now: real,
      candidates: seq<Unit>, order: seq<Unit>)
    requires Valid(t) && forall p :: ValidContents(contents(p))
    requires Considered(t, listing, contents, busy, now, candidates)
    requires forall u :: u in order <==> u in candidates
    ensures Considered(t, listing, contents, busy, now, order)
  {
    hide WholeUnits, IsProfile, LocksOf;
    var found :|
      (forall p :: IsProfile(listing, p) && LocksOf(p) !! busy ==> p in found)
      && ConsideredIn(t, contents, now, candidates, found);
    assert ConsideredIn(t, contents, now, order, found);
  }

  function LockList(profile: Path): seq<Lock> {
    seq(|LOCK_NAMES|, i requires 0 <= i < |LOCK_NAMES| => (profile, LOCK_NAMES[i]))
  }

  lemma LockListIsAll(profile: Path)
    ensures Set(LockList(profile)) == LocksOf(profile)
    ensures forall l :: l in LockList(profile) ==> l.0 == profile
  {
    forall l | l in LocksOf(profile)
      ensures l in LockList(profile)
    {
      var k :| 0 <= k < |LOCK_NAMES| && l == (profile, LOCK_NAMES[k]);
      assert LockList(profile)[k] == l;
    }
  }

  predicate OldEnough(now: real, u: Unit) {
    now - u.lastUsed >= PROTECT_SECONDS
  }

  /** All of a unit's paths lie two names below this profile. */
  ghost predicate Inside(profile: Path, u: Unit) {
    forall r :: r in u.paths ==> profile <= r && |r| == |profile| + 2
  }

  /** A unit that may be evicted: unused for long enough, in a profile no build holds. */
  ghost predicate MayGo(listing: seq<First>, busy: set<Lock>, now: real, u: Unit) {
    OldEnough(now, u)
    && exists p :: IsProfile(listing, p) && LocksOf(p) !! busy && Inside(p, u)
  }

  lemma MayGoMeans(listing: seq<First>, busy: set<Lock>, now: real, u: Unit)
    requires MayGo(listing, busy, now, u)
    ensures NoEmptyPath(u) && OldEnough(now, u)
  {
  }

  ghost predicate From(profiles: seq<Path>, u: Unit) {
    exists p :: p in profiles && Inside(p, u)
  }

  /** `found` gives the units of some profiles; those unused long enough are candidates. */
  ghost predicate ConsideredIn(
      t: Tree, contents: Path -> Contents, now: real, candidates: seq<Unit>, found: map<Path, seq<Unit>>)
    requires Valid(t) && forall p :: ValidContents(contents(p))
  {
    forall p :: p in found ==>
      && ValidContents(contents(p))
      && WholeUnits(t, p, contents(p), found[p])
      && forall u :: u in found[p] && OldEnough(now, u) ==> u in candidates
  }

  ghost predicate Considered(
      t: Tree, listing: seq<First>, contents: Path -> Contents, busy: set<Lock>, now: real, candidates: seq<Unit>)
    requires Valid(t) && forall p :: ValidContents(contents(p))
  {
    exists found ::
      (forall p :: IsProfile(listing, p) && LocksOf(p) !! busy ==> p in found)
      && ConsideredIn(t, contents, now, candidates, found)
  }

  lemma {:induction false} FilterKeeps<T>(keep: T -> bool, s: seq<T>, x: T)
    ensures x in Sorting.Filter(keep, s) <==> x in s && keep(x)
  {
    if s != [] {
      FilterKeeps(keep, s[1..], x);
    }
  }

  lemma {:induction false} FilterStaysApart(keep: Unit -> bool, units: seq<Unit>)
    requires UnitsApart(units)
    ensures UnitsApart(Sorting.Filter(keep, units))
  {
    if units != [] {
      var rest := Sorting.Filter(keep, units[1..]);
      FilterStaysApart(keep, units[1..]);
      forall k, r, s | 0 <= k < |rest| && r in units[0].paths && s in rest[k].paths
        ensures Apart(r, s)
      {
        FilterKeeps(keep, units[1..], rest[k]);
        var l :| 0 <= l < |units[1..]| && units[1..][l] == rest[k];
        assert s in units[l + 1].paths;
      }
    }
  }

  /** Paths of two units in profiles that lie apart lie apart. */
  lemma ApartBelow(p: Path, q: Path, r: Path, s: Path)
    requires Apart(p, q) && p <= r && q <= s
    ensures Apart(r, s)
  {
    if r <= s {
      BelowBothMeet(p, q, s);
    }
    if s <= r {
      BelowBothMeet(p, q, r);
    }
  }

  /** The units of a profile just listed all lie two names below it. */
  lemma UnitsAreInside(t: Tree, profile: Path, c: Contents, units: seq<Unit>, u: Unit)
    requires Valid(t) && ValidContents(c) && WholeUnits(t, profile, c, units) && u in units
    ensures Inside(profile, u)
  {
    var k :| 0 <= k < |units| && units[k] == u;
    forall r | r in u.paths
      ensures profile <= r && |r| == |profile| + 2
    {
      assert r in units[k].paths;
      if h :| Listed(profile, c, |HASHED_DIRS|, 0, h, r) {
        ListedShape(profile, c, |HASHED_DIRS|, 0, h, r);
      }
    }
  }

  lemma AddOld(
      t: Tree, listing: seq<First>, contents: Path -> Contents, busy: set<Lock>, profiles: seq<Path>, i: nat,
      now: real, candidates: seq<Unit>, units: seq<Unit>, found: map<Path, seq<Unit>>)
    requires Valid(t) && forall p :: ValidContents(contents(p))
    requires i < |profiles| && AllApart(profiles) && IsProfile(listing, profiles[i])
    requires LocksOf(profiles[i]) !! busy && ValidContents(contents(profiles[i]))
    requires WholeUnits(t, profiles[i], contents(profiles[i]), units)
    requires UnitsOkApart(t, candidates)
    requires forall u :: u in candidates ==> MayGo(listing, busy, now, u) && From(profiles[..i], u)
    requires ConsideredIn(t, contents, now, candidates, found)
    ensures var more := candidates + Sorting.Filter(u => OldEnough(now, u), units);
            && UnitsOkApart(t, more)
            && (forall u :: u in more ==> MayGo(listing, busy, now, u) && From(profiles[..i + 1], u))
            && ConsideredIn(t, contents, now, more, found[profiles[i] := units])
  {
    hide UnitOk, IsProfile, LocksOf, NothingExtra, NothingSplit, FingerprintsFirst, OldEnough;
    var keep := u => OldEnough(now, u);
    var added := Sorting.Filter(keep, units);
    var more := candidates + added;
    FilterStaysApart(keep, units);
    forall u
      ensures u in added <==> u in units && OldEnough(now, u)
    {
      FilterKeeps(keep, units, u);
    }
    forall u | u in added
      ensures UnitOk(t, u) && Inside(profiles[i], u)
    {
      var k :| 0 <= k < |units| && units[k] == u;
      UnitsAreInside(t, profiles[i], contents(profiles[i]), units, u);
    }
    forall u | u in more
      ensures MayGo(listing, busy, now, u) && From(profiles[..i + 1], u)
    {
      if u in added {
        assert profiles[i] in profiles[..i + 1];
      } else {
        var p :| p in profiles[..i] && Inside(p, u);
        assert p in profiles[..i + 1];
      }
    }
    forall k, l, r, s | 0 <= k < l < |more| && r in more[k].paths && s in more[l].paths
      ensures Apart(r, s)
    {
      if k < |candidates| <= l {
        assert more[l] in added && more[k] in candidates;
        var p :| p in profiles[..i] && Inside(p, more[k]);
        var j :| 0 <= j < i && profiles[j] == p;
        assert Apart(profiles[j], profiles[i]);
        ApartBelow(p, profiles[i], r, s);
      } else if |candidates| <= k {
        assert more[k] == added[k - |candidates|] && more[l] == added[l - |candidates|];
      }
    }
    forall k | 0 <= k < |more|
      ensures UnitOk(t, more[k])
    {
      assert k < |candidates| || more[k] in added;
    }
  }

  /** An eviction that raised stopped at a file of the unit that cannot be deleted. */
  ghost predicate CutShort(t: Tree, stuck: set<Path>, unit: Unit, v: Tree)
    requires Valid(t)
  {
    exists i :: 0 <= i < |EvictionOrder(unit.paths)|
      && var path := EvictionOrder(unit.paths)[i];
         path in t.entries && path in stuck && !t.At(path).directory
         && v == Evicted(t, stuck, EvictionOrder(unit.paths)[..i + 1])
  }

  /** What raises is never evicted, so it raises after any eviction as it did before. */
  lemma StillRaises(t: Tree, stuck: set<Path>, done: seq<Path>, root: Path)
    requires Valid(t)
    ensures var v := Evicted(t, stuck, done);
            Raises(t, stuck, root) <==>
              root in v.entries && v.entries[root] in v.inodes && !v.At(root).directory && root in stuck
  {
    if Raises(t, stuck, root) {
      assert !Removable(t, stuck, root);
    }
  }

  lemma RaisedIsKept(t: Tree, stuck: set<Path>, done: seq<Path>, root: Path)
    requires Valid(t) && root != [] && Raises(t, stuck, root)
    ensures Evicted(t, stuck, done + [root]) == Evicted(t, stuck, done)
  {
    OneFile(t, stuck, root);
    EvictInRounds(t, stuck, [root], done);
    SameRoots(t, stuck, [root] + done, done + [root]);
  }

  lemma {:induction false} UntilIs(t: Tree, stuck: set<Path>, order: seq<Path>, i: nat)
    requires i <= |order| && forall j :: 0 <= j < i ==> !Raises(t, stuck, order[j])
    requires i < |order| ==> Raises(t, stuck, order[i])
    ensures Until(t, stuck, order) == order[..i]
  {
    UntilIsAPrefix(t, stuck, order);
  }

  lemma SameRoots(t: Tree, stuck: set<Path>, a: seq<Path>, b: seq<Path>)
    requires forall p :: p in a <==> p in b
    ensures Evicted(t, stuck, a) == Evicted(t, stuck, b)
  {
    assert BelowAny(t, a) == BelowAny(t, b);
  }

  predicate Deletable(t: Tree, stuck: set<Path>, p: Path)
    ensures Deletable(t, stuck, p) <==> Removable(t, stuck, p)
  {
    forall s :: s in stuck && s in t.entries ==> !(p <= s)
  }

  lemma ParentIsDirectory(t: Tree, path: Path, p: Path)
    requires Valid(t) && p in t.entries && path < p && path != []
    ensures path in t.entries && t.At(path).directory
  {
    assert p[..|path|] == path;
  }

  /** Below a path that is not a directory there is at most the path itself. */
  lemma OneFile(t: Tree, stuck: set<Path>, path: Path)
    requires Valid(t) && (path in t.entries ==> !t.At(path).directory)
    requires path != []
    ensures Evicted(t, stuck, [path])
         == if path in t.entries && path !in stuck
            then t.(entries := map p | p in t.entries && p != path :: t.entries[p]) else t
  {
    forall p | p in BelowAny(t, [path])
      ensures p == path
    {
      if p != path {
        ParentIsDirectory(t, path, p);
      }
    }
    if path in t.entries {
      assert path in [path] && path in BelowAny(t, [path]);
      forall s | s in t.entries && path <= s
        ensures s == path
      {
        assert s in BelowAny(t, [path]);
      }
      assert path !in stuck <==> path in Gone(t, stuck, [path]);
    }
    var v := Evicted(t, stuck, [path]);
    assert v.entries == if path in t.entries && path !in stuck
                        then map p | p in t.entries && p != path :: t.entries[p] else t.entries;
  }
}
