/**
 Keeping a cargo target directory under a size bound by evicting whole build
 units, least recently used first, under cargo's own locks.
 */
module PruneTarget {
  import opened Options
  import opened DiskTree

  const PROTECT_SECONDS: real := 172800.0
  const LOCK_NAMES := [".cargo-lock", ".cargo-build-lock", ".cargo-artifact-lock"]
  const HASHED_DIRS := [".fingerprint", "deps", "build", "examples"]
  const FINGERPRINT := ".fingerprint"

  /** Everything one build unit left in a profile directory. */
  datatype Unit = Unit(paths: seq<Path>, lastUsed: real, freed: nat)

  const NEW_UNIT := Unit([], 0.0, 0)

  // --------------------------------------------------------- naming a unit

  predicate Hex(c: char) {
    '0' <= c <= '9' || 'a' <= c <= 'f'
  }

  /** A hyphen, sixteen hex digits, and then a dot or the end (of a last line). */
  predicate HashAt(name: string, i: nat) {
    && i + 17 <= |name|
    && name[i] == '-'
    && (forall k :: i < k <= i + 16 ==> Hex(name[k]))
    && (i + 17 == |name| || name[i + 17] == '.' || (name[i + 17] == '\n' && i + 18 == |name|))
  }

  /** The leftmost hash in a name at or after position `i`. */
  function HashFrom(name: string, i: nat): (hash: Option<string>)
    ensures hash.None? <==> forall k: nat :: i <= k ==> !HashAt(name, k)
    ensures hash.Some? ==> exists k: nat :: i <= k && HashAt(name, k) && hash.value == name[k + 1..k + 17]
                                           && forall j: nat :: i <= j < k ==> !HashAt(name, j)
    decreases |name| - i
  {
    if i >= |name| then None
    else if HashAt(name, i) then Some(name[i + 1..i + 17])
    else HashFrom(name, i + 1)
  }

  function HashOf(name: string): Option<string> {
    HashFrom(name, 0)
  }

  /** The name is `before`, a hyphen, a hash of sixteen hex digits, and then nothing or what starts with a dot. */
  ghost predicate Carries(name: string, before: string, hash: string, after: string) {
    && name == before + "-" + hash + after
    && |hash| == 16 && (forall c :: c in hash ==> c in "0123456789abcdef")
    && (after == "" || after[0] == '.' || after == "\n")
  }

  lemma HexIsADigit(c: char)
    ensures Hex(c) <==> c in "0123456789abcdef"
  {
    assert c in "0123456789" <==> '0' <= c <= '9';
    assert c in "abcdef" <==> 'a' <= c <= 'f';
    assert "0123456789abcdef" == "0123456789" + "abcdef";
  }

  lemma HashAtCarries(name: string, i: nat)
    requires HashAt(name, i)
    ensures Carries(name, name[..i], name[i + 1..i + 17], name[i + 17..])
  {
    var hash := name[i + 1..i + 17];
    forall c | c in hash
      ensures c in "0123456789abcdef"
    {
      var k :| 0 <= k < 16 && hash[k] == c;
      assert Hex(name[i + 1 + k]);
      HexIsADigit(c);
    }
  }

  lemma CarriesHashAt(name: string, before: string, hash: string, after: string)
    requires Carries(name, before, hash, after)
    ensures HashAt(name, |before|) && name[|before| + 1..|before| + 17] == hash
  {
    var i := |before|;
    assert name[i] == '-' && name[i + 1..i + 17] == hash && name[i + 17..] == after;
    forall k | i < k <= i + 16
      ensures Hex(name[k])
    {
      assert name[k] == hash[k - i - 1];
      HexIsADigit(name[k]);
    }
  }

  ghost predicate CarriesFirst(name: string, before: string, hash: string, after: string) {
    && Carries(name, before, hash, after)
    && forall b, h, a :: Carries(name, b, h, a) ==> |before| <= |b|
  }

  /** A name's unit is the hash it carries, the leftmost where it carries several. */
  lemma HashIsTheLeftmost(name: string)
    ensures HashOf(name).None? <==> !exists before, hash, after :: Carries(name, before, hash, after)
    ensures forall hash :: HashOf(name) == Some(hash)
                           <==> exists before, after :: CarriesFirst(name, before, hash, after)
  {
    hide Carries;
    forall b, h, a | Carries(name, b, h, a)
      ensures HashAt(name, |b|) && |b| + 17 <= |name| && name[|b| + 1..|b| + 17] == h
    {
      CarriesHashAt(name, b, h, a);
      CarriesIsLong(name, b, h, a);
    }
    if HashOf(name).Some? {
      var k: nat :| HashAt(name, k) && HashOf(name).value == name[k + 1..k + 17]
                    && forall j: nat :: j < k ==> !HashAt(name, j);
      HashAtCarries(name, k);
      assert CarriesFirst(name, name[..k], HashOf(name).value, name[k + 17..]);
    }
  }

  lemma CarriesIsLong(name: string, before: string, hash: string, after: string)
    requires Carries(name, before, hash, after)
    ensures |before| + 17 <= |name|
  {
  }

  // ------------------------------------------------------ describing a unit

  /** What an entry says about when it was last used. A directory's access time says nothing. */
  function Stamp(t: Tree, p: Path): real
    requires p in t.entries && t.entries[p] in t.inodes
  {
    var inode := t.At(p);
    if inode.directory || inode.accessed < inode.modified then inode.modified else inode.accessed
  }

  function Later(a: real, b: real): real {
    if a < b then b else a
  }

  /** `newest` is at least `floor` and every stamp in `paths`, and is one of them. */
  ghost predicate NewestUse(t: Tree, paths: set<Path>, floor: real, newest: real)
    requires Valid(t) && paths <= t.entries.Keys
  {
    && floor <= newest
    && (forall p :: p in paths ==> Stamp(t, p) <= newest)
    && (newest == floor || exists p :: p in paths && Stamp(t, p) == newest)
  }

  ghost predicate NoDuplicates<T>(s: seq<T>) {
    forall i, j :: 0 <= i < j < |s| ==> s[i] != s[j]
  }

  /** The directories at or below `root`, and the files there that have no other link. */
  ghost function GivenBack(t: Tree, root: Path): set<InodeNumber>
    requires Valid(t)
  {
    set p | p in t.entries && root <= p && (t.At(p).directory || t.At(p).links <= 1) :: t.entries[p]
  }

  lemma GivenBackIsFreed(t: Tree, root: Path)
    requires Valid(t)
    ensures Freed(t, Below(t, root)) == Size(t, GivenBack(t, root))
  {
    assert SoleInodes(t, Below(t, root)) == GivenBack(t, root);
  }

  /**
   Adds `root`, and everything under it, to the unit's recency and size. `walk` is
   what listing it gives: `root` and everything below it, each once.
   */
  method Describe(t: Tree, root: Path, walk: seq<Path>, unit: Unit) returns (described: Unit)
    requires Valid(t)
    requires NoDuplicates(walk) && Set(walk) * t.entries.Keys == Below(t, root)
    ensures described.paths == unit.paths + [root]
    ensures described.freed == unit.freed + Freed(t, Below(t, root))
    ensures described.freed == unit.freed + Size(t, GivenBack(t, root))
    ensures NewestUse(t, Below(t, root), unit.lastUsed, described.lastUsed)
  {
    hide NewestUse, SoleInodes, Below, Sole, Stamp;
    var lastUsed, freed := unit.lastUsed, unit.freed;
    var i := 0;
    assert Set(walk[..0]) * t.entries.Keys == {};
    DescribeNothing(t, unit.lastUsed);
    while i < |walk|
      invariant 0 <= i <= |walk|
      invariant NewestUse(t, Set(walk[..i]) * t.entries.Keys, unit.lastUsed, lastUsed)
      invariant freed == unit.freed + Freed(t, Set(walk[..i]) * t.entries.Keys)
    {
      var entry := walk[i];
      ghost var done := Set(walk[..i]) * t.entries.Keys;
      assert Set(walk[..i + 1]) == Set(walk[..i]) + {entry};
      if entry in t.entries {
        assert Set(walk[..i + 1]) * t.entries.Keys == done + {entry};
        DescribeOne(t, done, entry, unit.lastUsed, lastUsed);
        lastUsed := Later(lastUsed, Stamp(t, entry));
        if Sole(t, entry) {
          freed := freed + t.At(entry).size;
        }
      } else {
        assert Set(walk[..i + 1]) * t.entries.Keys == done;
      }
      i := i + 1;
    }
    assert walk[..|walk|] == walk;
    described := Unit(unit.paths + [root], lastUsed, freed);
    GivenBackIsFreed(t, root);
  }

  lemma DescribeNothing(t: Tree, floor: real)
    requires Valid(t)
    ensures NewestUse(t, {}, floor, floor) && Freed(t, {}) == 0
  {
    assert SoleInodes(t, {}) == {};
  }

  lemma DescribeOne(t: Tree, done: set<Path>, entry: Path, floor: real, newest: real)
    requires Valid(t) && done <= t.entries.Keys && entry in t.entries && entry !in done
    requires NewestUse(t, done, floor, newest)
    ensures NewestUse(t, done + {entry}, floor, Later(newest, Stamp(t, entry)))
    ensures Freed(t, done + {entry}) == Freed(t, done) + (if Sole(t, entry) then t.At(entry).size else 0)
  {
    FreedOfDisjoint(t, done, {entry});
    FreedOfOne(t, entry);
  }

  lemma FreedOfOne(t: Tree, p: Path)
    requires Valid(t) && p in t.entries
    ensures Freed(t, {p}) == if Sole(t, p) then t.At(p).size else 0
  {
    if Sole(t, p) {
      assert SoleInodes(t, {p}) == {t.entries[p]};
      SizeWithout(t, {t.entries[p]}, t.entries[p]);
      assert {t.entries[p]} - {t.entries[p]} == {};
    } else {
      assert SoleInodes(t, {p}) == {};
    }
  }

  // ------------------------------------------------------ units never overlap

  /** Neither path lies at or below the other. */
  predicate Apart(p: Path, q: Path) {
    !(p <= q) && !(q <= p)
  }

  lemma ApartAtFirst(p: Path, q: Path, k: nat)
    requires k < |p| && k < |q| && p[k] != q[k]
    ensures Apart(p, q)
  {
  }

  ghost predicate AllApart(roots: seq<Path>) {
    forall i, j :: 0 <= i < j < |roots| ==> Apart(roots[i], roots[j])
  }

  /** An entry of the target directory, and the entries of one that is a real directory. */
  datatype First = First(name: string, realDirectory: bool, marked: bool, seconds: seq<Second>)
  datatype Second = Second(name: string, link: bool, marked: bool)

  /**
   Profile directories: an entry with a fingerprint directory of its own, or else
   the entries inside it that have one and are not links.
   */
  method Profiles(listing: seq<First>) returns (found: seq<Path>)
    requires forall i, j :: 0 <= i < j < |listing| ==> listing[i].name != listing[j].name
    requires forall i :: 0 <= i < |listing| ==> NoDuplicates(NamesOf(listing[i].seconds))
    ensures AllApart(found)
    ensures forall p :: p in found <==> IsProfile(listing, p)
  {
    found := [];
    var i := 0;
    while i < |listing|
      invariant 0 <= i <= |listing|
      invariant AllApart(found)
      invariant forall p :: p in found <==> IsProfile(listing[..i], p)
    {
      var first := listing[i];
      assert listing[..i + 1] == listing[..i] + [first];
      if !first.realDirectory {
      } else if first.marked {
        forall p | p in found
          ensures Apart(p, [first.name])
        {
          EarlierFirst(listing, i, p);
          ApartAtFirst(p, [first.name], 0);
        }
        found := found + [[first.name]];
      } else {
        var j := 0;
        while j < |first.seconds|
          invariant 0 <= j <= |first.seconds|
          invariant AllApart(found)
          invariant forall p :: p in found <==>
                      IsProfile(listing[..i], p) || IsNested(first.name, first.seconds[..j], p)
        {
          var second := first.seconds[j];
          assert first.seconds[..j + 1] == first.seconds[..j] + [second];
          if !second.link && second.marked {
            assert NamesOf(first.seconds)[j] == second.name;
            forall p | p in found
              ensures Apart(p, [first.name, second.name])
            {
              if IsNested(first.name, first.seconds[..j], p) {
                var k :| 0 <= k < j && p == [first.name, first.seconds[k].name];
                assert NamesOf(first.seconds)[k] == first.seconds[k].name;
                ApartAtFirst(p, [first.name, second.name], 1);
              } else {
                EarlierFirst(listing, i, p);
                ApartAtFirst(p, [first.name, second.name], 0);
              }
            }
            found := found + [[first.name, second.name]];
          }
          j := j + 1;
        }
        assert first.seconds[..|first.seconds|] == first.seconds;
      }
      i := i + 1;
    }
    assert listing[..|listing|] == listing;
  }

  lemma EarlierFirst(listing: seq<First>, i: nat, p: Path)
    requires i < |listing| && IsProfile(listing[..i], p)
    requires forall i, j :: 0 <= i < j < |listing| ==> listing[i].name != listing[j].name
    ensures p != [] && p[0] != listing[i].name
  {
  }

  function NamesOf(seconds: seq<Second>): seq<string> {
    seq(|seconds|, i requires 0 <= i < |seconds| => seconds[i].name)
  }

  ghost predicate IsNested(first: string, seconds: seq<Second>, p: Path) {
    exists k :: 0 <= k < |seconds| && !seconds[k].link && seconds[k].marked && p == [first, seconds[k].name]
  }

  ghost predicate IsProfile(listing: seq<First>, p: Path) {
    exists i :: 0 <= i < |listing| && listing[i].realDirectory
      && if listing[i].marked then p == [listing[i].name] else IsNested(listing[i].name, listing[i].seconds, p)
  }

  // ---------------------------------------------------------- profile_units

  /** What `listdir` gives for a profile's hashed directories and its incremental one. */
  datatype Contents = Contents(hashed: seq<seq<string>>, incremental: seq<string>)

  ghost predicate ValidContents(c: Contents) {
    |c.hashed| == |HASHED_DIRS| && NoDuplicates(c.incremental)
    && forall d :: 0 <= d < |c.hashed| ==> NoDuplicates(c.hashed[d])
  }

  /** The walk of a directory lists everything below it that is there, once each. */
  ghost predicate ValidWalk(t: Tree, walk: Path -> seq<Path>) {
    forall r :: NoDuplicates(walk(r)) && Set(walk(r)) * t.entries.Keys == Below(t, r)
  }

  /** A unit's figures are those of everything below its paths, and its paths never overlap. */
  ghost predicate UnitOk(t: Tree, u: Unit)
    requires Valid(t)
  {
    && AllApart(u.paths)
    && u.freed == Freed(t, BelowAny(t, u.paths))
    && NewestUse(t, BelowAny(t, u.paths), 0.0, u.lastUsed)
  }

  lemma EmptyUnitIsOk(t: Tree)
    requires Valid(t)
    ensures UnitOk(t, NEW_UNIT)
  {
    assert BelowAny(t, []) == {};
    assert SoleInodes(t, {}) == {};
  }

  lemma BelowBothMeet(r: Path, s: Path, p: Path)
    requires r <= p && Apart(r, s)
    ensures !(s <= p)
  {
  }

  lemma BelowOneMore(t: Tree, roots: seq<Path>, root: Path)
    ensures BelowAny(t, roots + [root]) == BelowAny(t, roots) + Below(t, root)
  {
    forall p | p in BelowAny(t, roots) + Below(t, root)
      ensures p in BelowAny(t, roots + [root])
    {
      if p in Below(t, root) {
        assert root in roots + [root];
      } else {
        var r :| r in roots && r <= p;
        assert r in roots + [root];
      }
    }
  }

  lemma DescribedUnitIsOk(t: Tree, u: Unit, root: Path, described: Unit)
    requires Valid(t) && UnitOk(t, u)
    requires forall r :: r in u.paths ==> Apart(r, root)
    requires described.paths == u.paths + [root]
    requires described.freed == u.freed + Freed(t, Below(t, root))
    requires NewestUse(t, Below(t, root), u.lastUsed, described.lastUsed)
    ensures UnitOk(t, described)
  {
    var before, added := BelowAny(t, u.paths), Below(t, root);
    BelowOneMore(t, u.paths, root);
    assert before !! added by {
      forall p | p in before
        ensures p !in added
      {
        var r :| r in u.paths && r <= p;
        BelowBothMeet(r, root, p);
      }
    }
    FreedOfDisjoint(t, before, added);
  }

  /** `root` is the `k`th name listed under the `i`th hashed directory, and carries this hash. */
  ghost predicate Names(profile: Path, c: Contents, i: nat, k: nat, hash: string, root: Path)
    requires |c.hashed| == |HASHED_DIRS|
  {
    i < |HASHED_DIRS| && k < |c.hashed[i]|
    && HashOf(c.hashed[i][k]) == Some(hash) && root == profile + [HASHED_DIRS[i], c.hashed[i][k]]
  }

  /** `root` is listed under the first `d` hashed directories, or the first `n` names of the next. */
  ghost predicate Listed(profile: Path, c: Contents, d: nat, n: nat, hash: string, root: Path)
    requires |c.hashed| == |HASHED_DIRS|
  {
    exists i: nat, k: nat :: (i < d || (i == d && k < n)) && Names(profile, c, i, k, hash, root)
  }

  /** What is listed of one of the four directories whose names carry hashes. */
  ghost predicate Lies(c: Contents, directory: string, name: string)
    requires |c.hashed| == 4
  {
    || (directory == ".fingerprint" && name in c.hashed[0])
    || (directory == "deps" && name in c.hashed[1])
    || (directory == "build" && name in c.hashed[2])
    || (directory == "examples" && name in c.hashed[3])
  }

  /** The paths listed under a hash are those of the names that carry it, in the directory each lies in. */
  lemma ListedByName(profile: Path, c: Contents, hash: string, root: Path)
    requires |c.hashed| == |HASHED_DIRS|
    ensures Listed(profile, c, |HASHED_DIRS|, 0, hash, root)
            <==> exists directory, name ::
                   Lies(c, directory, name) && HashOf(name) == Some(hash) && root == profile + [directory, name]
  {
    hide HashOf;
    if Listed(profile, c, |HASHED_DIRS|, 0, hash, root) {
      var i: nat, k: nat :| i < |HASHED_DIRS| && Names(profile, c, i, k, hash, root);
      assert Lies(c, HASHED_DIRS[i], c.hashed[i][k]);
    }
    if directory, name :| Lies(c, directory, name) && HashOf(name) == Some(hash) && root == profile + [directory, name]
    {
      var i :| 0 <= i < 4 && directory == HASHED_DIRS[i] && name in c.hashed[i];
      var k :| 0 <= k < |c.hashed[i]| && c.hashed[i][k] == name;
      assert Names(profile, c, i, k, hash, root);
    }
  }

  lemma ListOne(profile: Path, c: Contents, d: nat, n: nat, h: string, r: Path)
    requires |c.hashed| == |HASHED_DIRS| && d < |HASHED_DIRS| && n < |c.hashed[d]|
    ensures Listed(profile, c, d, n + 1, h, r) <==>
              Listed(profile, c, d, n, h, r) || Names(profile, c, d, n, h, r)
  {
  }

  lemma ListDirectory(profile: Path, c: Contents, d: nat, h: string, r: Path)
    requires |c.hashed| == |HASHED_DIRS| && d < |HASHED_DIRS|
    ensures Listed(profile, c, d + 1, 0, h, r) <==> Listed(profile, c, d, |c.hashed[d]|, h, r)
  {
    if Listed(profile, c, d + 1, 0, h, r) {
      var i: nat, k: nat :| i < d + 1 && Names(profile, c, i, k, h, r);
      assert i < d || k < |c.hashed[d]|;
    }
    if Listed(profile, c, d, |c.hashed[d]|, h, r) {
      var i: nat, k: nat :| (i < d || (i == d && k < |c.hashed[d]|)) && Names(profile, c, i, k, h, r);
      assert i < d + 1;
    }
  }

  /** What a listed path says of itself: where it lies and the hash it carries. */
  lemma ListedShape(profile: Path, c: Contents, d: nat, n: nat, h: string, r: Path)
    requires |c.hashed| == |HASHED_DIRS| && Listed(profile, c, d, n, h, r)
    ensures |r| == |profile| + 2 && profile <= r
    ensures r[|profile|] in HASHED_DIRS && HashOf(r[|profile| + 1]) == Some(h)
    ensures d == 0 ==> r[|profile|] == FINGERPRINT
  {
    var i: nat, k: nat :| (i < d || (i == d && k < n)) && Names(profile, c, i, k, h, r);
    assert r[|profile|] == HASHED_DIRS[i] && r[|profile| + 1] == c.hashed[i][k];
  }

  /** A path listed again later would be the same name listed twice. */
  lemma ListedOnce(profile: Path, c: Contents, d: nat, n: nat, h: string, r: Path)
    requires ValidContents(c) && d < |HASHED_DIRS| && n < |c.hashed[d]|
    requires Listed(profile, c, d, n, h, r)
    ensures r != profile + [HASHED_DIRS[d], c.hashed[d][n]]
  {
    var i: nat, k: nat :| (i < d || (i == d && k < n)) && Names(profile, c, i, k, h, r);
    assert r[|profile|] == HASHED_DIRS[i] && r[|profile| + 1] == c.hashed[i][k];
    assert forall a, b :: 0 <= a < b < |HASHED_DIRS| ==> HASHED_DIRS[a] != HASHED_DIRS[b];
    assert NoDuplicates(c.hashed[d]);
  }

  /** Each hash's unit holds exactly the paths listed so far under that hash. */
  ghost predicate Complete(profile: Path, c: Contents, d: nat, n: nat, byHash: map<string, Unit>)
    requires |c.hashed| == |HASHED_DIRS|
  {
    forall h, r :: InUnit(byHash, h, r) <==> Listed(profile, c, d, n, h, r)
  }

  ghost predicate InUnit(byHash: map<string, Unit>, h: string, r: Path) {
    h in byHash && r in byHash[h].paths
  }

  ghost predicate UnitsOk(t: Tree, profile: Path, byHash: map<string, Unit>)
    requires Valid(t)
  {
    forall h :: h in byHash ==> UnitOk(t, byHash[h]) && FingerprintsFirst(byHash[h].paths, |profile|)
  }

  /** `at` is where a path names its directory within the profile. */
  ghost predicate FingerprintsFirst(paths: seq<Path>, at: nat) {
    && (forall r :: r in paths ==> at < |r|)
    && (forall i, j :: 0 <= i < j < |paths| && paths[j][at] == FINGERPRINT ==> paths[i][at] == FINGERPRINT)
  }

  /** Adding the next listed name to its hash's unit keeps every unit complete. */
  lemma CompleteOneMore(
      profile: Path, c: Contents, d: nat, n: nat, byHash: map<string, Unit>, hash: string, was: Unit, u: Unit)
    requires ValidContents(c) && d < |HASHED_DIRS| && n < |c.hashed[d]|
    requires Complete(profile, c, d, n, byHash)
    requires HashOf(c.hashed[d][n]) == Some(hash)
    requires was == if hash in byHash then byHash[hash] else NEW_UNIT
    requires u.paths == was.paths + [profile + [HASHED_DIRS[d], c.hashed[d][n]]]
    ensures Complete(profile, c, d, n + 1, byHash[hash := u])
  {
    hide Listed, HashOf;
    var after := byHash[hash := u];
    forall h, r
      ensures InUnit(after, h, r) <==> Listed(profile, c, d, n + 1, h, r)
    {
      ListOne(profile, c, d, n, h, r);
      assert InUnit(byHash, h, r) <==> Listed(profile, c, d, n, h, r);
    }
  }

  /** Fingerprints are listed first, so a unit's later paths are never fingerprints again. */
  lemma FingerprintsStayFirst(
      profile: Path, c: Contents, d: nat, n: nat, byHash: map<string, Unit>, hash: string, was: Unit, u: Unit)
    requires ValidContents(c) && d < |HASHED_DIRS| && n < |c.hashed[d]|
    requires Complete(profile, c, d, n, byHash)
    requires was == if hash in byHash then byHash[hash] else NEW_UNIT
    requires FingerprintsFirst(was.paths, |profile|)
    requires u.paths == was.paths + [profile + [HASHED_DIRS[d], c.hashed[d][n]]]
    ensures FingerprintsFirst(u.paths, |profile|)
  {
    hide Listed, HashOf;
    var root := profile + [HASHED_DIRS[d], c.hashed[d][n]];
    if root[|profile|] == FINGERPRINT {
      assert d == 0;
      forall i | 0 <= i < |was.paths|
        ensures was.paths[i][|profile|] == FINGERPRINT
      {
        assert InUnit(byHash, hash, was.paths[i]);
        ListedShape(profile, c, d, n, hash, was.paths[i]);
      }
    }
  }

  ghost predicate UnitsApart(units: seq<Unit>) {
    forall k, l, r, s :: 0 <= k < l < |units| && r in units[k].paths && s in units[l].paths ==> Apart(r, s)
  }

  /** The path of one incremental directory, which is a unit of its own. */
  function Incremental(profile: Path, name: string): Path {
    profile + ["incremental", name]
  }

  /** Everything `profile_units` promises of its result. */
  ghost predicate WholeUnits(t: Tree, profile: Path, c: Contents, units: seq<Unit>)
    requires Valid(t) && |c.hashed| == |HASHED_DIRS|
  {
    && NothingExtra(profile, c, units)
    && NothingSplit(profile, c, units)
    && (forall k :: 0 <= k < |units| ==> UnitOk(t, units[k]) && FingerprintsFirst(units[k].paths, |profile|))
    && UnitsApart(units)
  }

  /** Every path of every unit is one that was listed. */
  ghost predicate NothingExtra(profile: Path, c: Contents, units: seq<Unit>)
    requires |c.hashed| == |HASHED_DIRS|
  {
    forall k, r :: 0 <= k < |units| && r in units[k].paths ==>
      || (exists h :: Listed(profile, c, |HASHED_DIRS|, 0, h, r))
      || (exists name :: name in c.incremental && r == Incremental(profile, name))
  }

  /** Every listed path is in a unit that holds exactly the paths of its hash. */
  ghost predicate NothingSplit(profile: Path, c: Contents, units: seq<Unit>)
    requires |c.hashed| == |HASHED_DIRS|
  {
    && (forall h, r :: Listed(profile, c, |HASHED_DIRS|, 0, h, r) ==> exists k :: HoldsHash(profile, c, units, k, h))
    && (forall name :: name in c.incremental ==>
          exists k :: 0 <= k < |units| && units[k].paths == [Incremental(profile, name)])
  }

  ghost predicate HoldsHash(profile: Path, c: Contents, units: seq<Unit>, k: int, h: string)
    requires |c.hashed| == |HASHED_DIRS|
  {
    0 <= k < |units| && forall r :: r in units[k].paths <==> Listed(profile, c, |HASHED_DIRS|, 0, h, r)
  }

  method GroupByHash(t: Tree, profile: Path, c: Contents, walk: Path -> seq<Path>)
      returns (order: seq<string>, byHash: map<string, Unit>)
    requires Valid(t) && ValidContents(c) && ValidWalk(t, walk)
    ensures NoDuplicates(order) && Set(order) == byHash.Keys
    ensures Complete(profile, c, |HASHED_DIRS|, 0, byHash) && UnitsOk(t, profile, byHash)
  {
    hide UnitOk, FingerprintsFirst, HashOf, NewestUse, Freed, Below, Valid;
    order, byHash := [], map[];
    assert Complete(profile, c, 0, 0, byHash);
    var d := 0;
    while d < |HASHED_DIRS|
      invariant 0 <= d <= |HASHED_DIRS|
      invariant NoDuplicates(order) && Set(order) == byHash.Keys
      invariant Complete(profile, c, d, 0, byHash) && UnitsOk(t, profile, byHash)
    {
      var n := 0;
      while n < |c.hashed[d]|
        invariant 0 <= n <= |c.hashed[d]|
        invariant NoDuplicates(order) && Set(order) == byHash.Keys
        invariant Complete(profile, c, d, n, byHash) && UnitsOk(t, profile, byHash)
      {
        var hash := HashOf(c.hashed[d][n]);
        if hash.Some? {
          var root := profile + [HASHED_DIRS[d], c.hashed[d][n]];
          var was := if hash.value in byHash then byHash[hash.value] else NEW_UNIT;
          var u := Describe(t, root, walk(root), was);
          DescribeNext(t, profile, c, d, n, byHash, hash.value, was, u);
          if hash.value !in byHash {
            assert Set(order + [hash.value]) == Set(order) + {hash.value};
            order := order + [hash.value];
          }
          byHash := byHash[hash.value := u];
        } else {
          SkipOne(profile, c, d, n, byHash);
        }
        n := n + 1;
      }
      NextDirectory(profile, c, d, byHash);
      d := d + 1;
    }
  }

  lemma DescribeNext(
      t: Tree, profile: Path, c: Contents, d: nat, n: nat, byHash: map<string, Unit>, hash: string, was: Unit, u: Unit)
    requires Valid(t) && ValidContents(c) && d < |HASHED_DIRS| && n < |c.hashed[d]|
    requires Complete(profile, c, d, n, byHash) && UnitsOk(t, profile, byHash)
    requires HashOf(c.hashed[d][n]) == Some(hash)
    requires was == if hash in byHash then byHash[hash] else NEW_UNIT
    requires var root := profile + [HASHED_DIRS[d], c.hashed[d][n]];
             && u.paths == was.paths + [root]
             && u.freed == was.freed + Freed(t, Below(t, root))
             && NewestUse(t, Below(t, root), was.lastUsed, u.lastUsed)
    ensures Complete(profile, c, d, n + 1, byHash[hash := u]) && UnitsOk(t, profile, byHash[hash := u])
  {
    var root := profile + [HASHED_DIRS[d], c.hashed[d][n]];
    CompleteOneMore(profile, c, d, n, byHash, hash, was, u);
    EmptyUnitIsOk(t);
    FingerprintsStayFirst(profile, c, d, n, byHash, hash, was, u);
    forall r | r in was.paths
      ensures Apart(r, root)
    {
      assert InUnit(byHash, hash, r);
      ListedOnce(profile, c, d, n, hash, r);
      ListedShape(profile, c, d, n, hash, r);
    }
    DescribedUnitIsOk(t, was, root, u);
  }

  lemma SkipOne(profile: Path, c: Contents, d: nat, n: nat, byHash: map<string, Unit>)
    requires ValidContents(c) && d < |HASHED_DIRS| && n < |c.hashed[d]|
    requires Complete(profile, c, d, n, byHash) && HashOf(c.hashed[d][n]).None?
    ensures Complete(profile, c, d, n + 1, byHash)
  {
    hide Listed, HashOf;
    forall h, r
      ensures InUnit(byHash, h, r) <==> Listed(profile, c, d, n + 1, h, r)
    {
      ListOne(profile, c, d, n, h, r);
    }
  }

  lemma NextDirectory(profile: Path, c: Contents, d: nat, byHash: map<string, Unit>)
    requires ValidContents(c) && d < |HASHED_DIRS| && Complete(profile, c, d, |c.hashed[d]|, byHash)
    ensures Complete(profile, c, d + 1, 0, byHash)
  {
    hide Listed, HashOf;
    forall h, r
      ensures InUnit(byHash, h, r) <==> Listed(profile, c, d + 1, 0, h, r)
    {
      ListDirectory(profile, c, d, h, r);
    }
  }

  /** The build units in one profile directory: one a hash, then one an incremental directory. */
  method ProfileUnits(t: Tree, profile: Path, c: Contents, walk: Path -> seq<Path>) returns (units: seq<Unit>)
    requires Valid(t) && ValidContents(c) && ValidWalk(t, walk)
    ensures WholeUnits(t, profile, c, units)
  {
    hide Complete, UnitsOk, HashOf, Listed, WholeUnits;
    var order, byHash := GroupByHash(t, profile, c, walk);
    units := [];
    var i := 0;
    while i < |order|
      invariant 0 <= i <= |order| == |order|
      invariant |units| == i && forall k :: 0 <= k < i ==> units[k] == byHash[order[k]]
    {
      assert order[i] in Set(order);
      units := units + [byHash[order[i]]];
      i := i + 1;
    }
    ghost var hashed := units;
    i := 0;
    while i < |c.incremental|
      invariant 0 <= i <= |c.incremental|
      invariant |units| == |order| + i && units[..|order|] == hashed
      invariant forall k :: 0 <= k < i ==> IncrementalUnit(t, profile, c.incremental[k], units[|order| + k])
    {
      var root := Incremental(profile, c.incremental[i]);
      var u := Describe(t, root, walk(root), NEW_UNIT);
      EmptyUnitIsOk(t);
      DescribedUnitIsOk(t, NEW_UNIT, root, u);
      units := units + [u];
      i := i + 1;
    }
    UnitsAreWhole(t, profile, c, order, byHash, units);
  }

  ghost predicate IncrementalUnit(t: Tree, profile: Path, name: string, u: Unit)
    requires Valid(t)
  {
    u.paths == [Incremental(profile, name)] && UnitOk(t, u)
  }

  /** The units are those of `byHash` in `order`, then one for each incremental directory. */
  ghost predicate Assembled(
      t: Tree, profile: Path, c: Contents, order: seq<string>, byHash: map<string, Unit>, units: seq<Unit>)
    requires Valid(t) && |c.hashed| == |HASHED_DIRS|
  {
    && NoDuplicates(order) && Set(order) == byHash.Keys
    && Complete(profile, c, |HASHED_DIRS|, 0, byHash) && UnitsOk(t, profile, byHash)
    && |units| == |order| + |c.incremental|
    && (forall k :: 0 <= k < |order| ==> order[k] in byHash && units[k] == byHash[order[k]])
    && (forall k :: 0 <= k < |c.incremental| ==> IncrementalUnit(t, profile, c.incremental[k], units[|order| + k]))
  }

  /** Where a path of the `k`th unit lies, which tells the unit. */
  lemma PathOfUnit(
      t: Tree, profile: Path, c: Contents, order: seq<string>, byHash: map<string, Unit>, units: seq<Unit>,
      k: nat, r: Path)
    requires Valid(t) && ValidContents(c) && Assembled(t, profile, c, order, byHash, units)
    requires k < |units| && r in units[k].paths
    ensures |r| == |profile| + 2
    ensures k < |order| ==>
              Listed(profile, c, |HASHED_DIRS|, 0, order[k], r)
              && r[|profile|] in HASHED_DIRS && HashOf(r[|profile| + 1]) == Some(order[k])
    ensures k >= |order| ==>
              r == Incremental(profile, c.incremental[k - |order|]) && r[|profile|] == "incremental"
              && r[|profile| + 1] == c.incremental[k - |order|]
  {
    hide Listed, HashOf, UnitOk;
    if k < |order| {
      assert InUnit(byHash, order[k], r);
      ListedShape(profile, c, |HASHED_DIRS|, 0, order[k], r);
    } else {
      assert IncrementalUnit(t, profile, c.incremental[k - |order|], units[|order| + (k - |order|)]);
    }
  }

  lemma PathsApart(
      t: Tree, profile: Path, c: Contents, order: seq<string>, byHash: map<string, Unit>, units: seq<Unit>,
      k: nat, l: nat, r: Path, s: Path)
    requires Valid(t) && ValidContents(c) && Assembled(t, profile, c, order, byHash, units)
    requires k < l < |units| && r in units[k].paths && s in units[l].paths
    ensures Apart(r, s)
  {
    hide Listed, HashOf, UnitOk;
    PathOfUnit(t, profile, c, order, byHash, units, k, r);
    PathOfUnit(t, profile, c, order, byHash, units, l, s);
    assert "incremental" !in HASHED_DIRS;
    if k >= |order| {
      assert c.incremental[k - |order|] != c.incremental[l - |order|];
    }
    SameLengthApart(r, s);
  }

  lemma SameLengthApart(r: Path, s: Path)
    requires |r| == |s| && r != s
    ensures Apart(r, s)
  {
  }

  lemma NothingIsSplit(
      t: Tree, profile: Path, c: Contents, order: seq<string>, byHash: map<string, Unit>, units: seq<Unit>)
    requires Valid(t) && ValidContents(c) && Assembled(t, profile, c, order, byHash, units)
    ensures NothingSplit(profile, c, units)
  {
    hide Listed, HashOf, UnitOk;
    forall h, r | Listed(profile, c, |HASHED_DIRS|, 0, h, r)
      ensures exists k :: HoldsHash(profile, c, units, k, h)
    {
      assert InUnit(byHash, h, r);
      assert h in Set(order);
      var k :| 0 <= k < |order| && order[k] == h;
      forall r'
        ensures r' in units[k].paths <==> Listed(profile, c, |HASHED_DIRS|, 0, h, r')
      {
        assert InUnit(byHash, h, r') <==> Listed(profile, c, |HASHED_DIRS|, 0, h, r');
      }
      assert HoldsHash(profile, c, units, k, h);
    }
    forall name | name in c.incremental
      ensures exists k :: 0 <= k < |units| && units[k].paths == [Incremental(profile, name)]
    {
      var k :| 0 <= k < |c.incremental| && c.incremental[k] == name;
      assert IncrementalUnit(t, profile, c.incremental[k], units[|order| + k]);
    }
  }

  lemma UnitsAreWhole(
      t: Tree, profile: Path, c: Contents, order: seq<string>, byHash: map<string, Unit>, units: seq<Unit>)
    requires Valid(t) && ValidContents(c) && Assembled(t, profile, c, order, byHash, units)
    ensures WholeUnits(t, profile, c, units)
  {
    hide Listed, HashOf, UnitOk;
    NothingIsSplit(t, profile, c, order, byHash, units);
    forall k, r | 0 <= k < |units| && r in units[k].paths
      ensures (exists h :: Listed(profile, c, |HASHED_DIRS|, 0, h, r))
              || (exists name :: name in c.incremental && r == Incremental(profile, name))
    {
      PathOfUnit(t, profile, c, order, byHash, units, k, r);
    }
    forall k, l, r, s | 0 <= k < l < |units| && r in units[k].paths && s in units[l].paths
      ensures Apart(r, s)
    {
      PathsApart(t, profile, c, order, byHash, units, k, l, r, s);
    }
    forall k | 0 <= k < |units|
      ensures UnitOk(t, units[k]) && FingerprintsFirst(units[k].paths, |profile|)
    {
      if k >= |order| {
        assert IncrementalUnit(t, profile, c.incremental[k - |order|], units[|order| + (k - |order|)]);
      }
    }
  }
}
