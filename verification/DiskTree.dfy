/** A directory tree with hard links, and what its files occupy on disk. */
module DiskTree {

  type Path = seq<string>
  type InodeNumber = nat

  datatype Inode = Inode(directory: bool, size: nat, links: nat, accessed: real, modified: real)

  /** Every entry below one directory, by path, and the inodes they name. */
  datatype Tree = Tree(entries: map<Path, InodeNumber>, inodes: map<InodeNumber, Inode>)
  {
    function At(p: Path): Inode
      requires p in entries && entries[p] in inodes
    {
      inodes[entries[p]]
    }
  }

  /**
   Two paths share an inode only if it is a file with at least two links, and every
   entry lies in directories that are entries too. Links may also lead in from
   outside the tree.
   */
  ghost predicate Valid(t: Tree) {
    && (forall p :: p in t.entries ==> p != [] && t.entries[p] in t.inodes)
    && (forall p, q :: p in t.entries && q in t.entries && p != q && t.entries[p] == t.entries[q] ==>
          !t.At(p).directory && t.At(p).links > 1)
    && (forall p, n :: p in t.entries && 0 < n < |p| ==> p[..n] in t.entries && t.At(p[..n]).directory)
  }

  /** Removing this one path gives its blocks back. */
  predicate Sole(t: Tree, p: Path)
    requires p in t.entries && t.entries[p] in t.inodes
  {
    t.At(p).directory || t.At(p).links <= 1
  }

  function Inodes(t: Tree, paths: set<Path>): set<InodeNumber> {
    set p | p in paths && p in t.entries :: t.entries[p]
  }

  function SoleInodes(t: Tree, paths: set<Path>): set<InodeNumber> {
    set p | p in paths && p in t.entries && t.entries[p] in t.inodes && Sole(t, p) :: t.entries[p]
  }

  function Set<T>(s: seq<T>): set<T> {
    set x | x in s
  }

  /** Everything at or below `root`. */
  function Below(t: Tree, root: Path): set<Path> {
    set p | p in t.entries && root <= p
  }

  function BelowAny(t: Tree, roots: seq<Path>): set<Path> {
    set p | p in t.entries && exists r :: r in roots && r <= p
  }

  // ------------------------------------------------------------------- sizes

  ghost function Size(t: Tree, inodes: set<InodeNumber>): nat {
    if inodes == {} then 0
    else
      var i := Pick(inodes);
      (if i in t.inodes then t.inodes[i].size else 0) + Size(t, inodes - {i})
  }

  ghost function Pick(inodes: set<InodeNumber>): (i: InodeNumber)
    requires inodes != {}
    ensures i in inodes
  {
    var i :| i in inodes; i
  }

  ghost function SizeOf(t: Tree, i: InodeNumber): nat {
    if i in t.inodes then t.inodes[i].size else 0
  }

  /** The sum does not depend on the order it is taken in. */
  lemma {:induction false} SizeWithout(t: Tree, inodes: set<InodeNumber>, i: InodeNumber)
    requires i in inodes
    ensures Size(t, inodes) == SizeOf(t, i) + Size(t, inodes - {i})
    decreases |inodes|
  {
    var j := Pick(inodes);
    if i != j {
      SizeWithout(t, inodes - {j}, i);
      SizeWithout(t, inodes - {i}, j);
      assert inodes - {j} - {i} == inodes - {i} - {j};
    }
  }

  lemma {:induction false} SizeOfDisjoint(t: Tree, a: set<InodeNumber>, b: set<InodeNumber>)
    requires a !! b
    ensures Size(t, a + b) == Size(t, a) + Size(t, b)
    decreases |a|
  {
    if a == {} {
      assert a + b == b;
    } else {
      var i := Pick(a);
      SizeOfDisjoint(t, a - {i}, b);
      SizeWithout(t, a + b, i);
      assert a + b - {i} == (a - {i}) + b;
    }
  }

  /** Bytes allocated to a set of paths, counting each inode once. */
  ghost function Usage(t: Tree, paths: set<Path>): nat {
    Size(t, Inodes(t, paths))
  }

  /** Bytes that removing exactly these paths is sure to give back. */
  ghost function Freed(t: Tree, paths: set<Path>): nat {
    Size(t, SoleInodes(t, paths))
  }

  lemma FreedOfDisjoint(t: Tree, a: set<Path>, b: set<Path>)
    requires Valid(t) && a !! b
    ensures Freed(t, a + b) == Freed(t, a) + Freed(t, b)
  {
    assert SoleInodes(t, a + b) == SoleInodes(t, a) + SoleInodes(t, b);
    assert SoleInodes(t, a) !! SoleInodes(t, b);
    SizeOfDisjoint(t, SoleInodes(t, a), SoleInodes(t, b));
  }

  /** Inodes no name of which stays, that were not counted because they have other links. */
  function Uncounted(t: Tree, gone: set<Path>): set<InodeNumber> {
    Inodes(t, t.entries.Keys) - Inodes(t, t.entries.Keys - gone) - SoleInodes(t, gone)
  }

  /**
   Removing `gone` lowers the usage by what it was sure to give back, since no inode
   counted as freed is named by anything that stays, and by its uncounted inodes.
   */
  lemma RemovalAddsUp(t: Tree, gone: set<Path>)
    requires Valid(t)
    ensures Usage(t, t.entries.Keys - gone) + Freed(t, gone) + Size(t, Uncounted(t, gone)) == Usage(t, t.entries.Keys)
  {
    var kept, freed, uncounted := Inodes(t, t.entries.Keys - gone), SoleInodes(t, gone), Uncounted(t, gone);
    assert kept !! freed;
    SizeOfDisjoint(t, kept, freed);
    SizeOfDisjoint(t, kept + freed, uncounted);
    assert kept + freed + uncounted == Inodes(t, t.entries.Keys);
  }

  /** What is left uncounted is files with more than one link, and nothing else. */
  lemma UncountedAreShared(t: Tree, gone: set<Path>)
    requires Valid(t)
    ensures forall i :: i in Uncounted(t, gone) ==>
              i in t.inodes && !t.inodes[i].directory && t.inodes[i].links > 1
  {
    forall i | i in Uncounted(t, gone)
      ensures i in t.inodes && !t.inodes[i].directory && t.inodes[i].links > 1
    {
      var p :| p in t.entries && t.entries[p] == i;
      assert p in gone;
    }
  }

  /** Where every file that goes has one link, the usage goes down by exactly what was counted. */
  lemma SingleLinksAddUp(t: Tree, gone: set<Path>)
    requires Valid(t) && forall p :: p in gone && p in t.entries && !t.At(p).directory ==> t.At(p).links <= 1
    ensures Usage(t, t.entries.Keys - gone) + Freed(t, gone) == Usage(t, t.entries.Keys)
  {
    RemovalAddsUp(t, gone);
    UncountedAreShared(t, gone);
    assert Uncounted(t, gone) == {} by {
      forall i
        ensures i !in Uncounted(t, gone)
      {
        if i in Uncounted(t, gone) {
          UncountedIsNamed(t, gone, i);
        }
      }
    }
  }

  lemma UncountedIsNamed(t: Tree, gone: set<Path>, i: InodeNumber)
    requires Valid(t) && i in Uncounted(t, gone)
    ensures exists p :: p in gone && p in t.entries && t.entries[p] == i
  {
    var p :| p in t.entries && t.entries[p] == i;
    assert p in gone;
  }

  lemma RemovalFreesAtLeast(t: Tree, gone: set<Path>)
    requires Valid(t)
    ensures Usage(t, t.entries.Keys - gone) + Freed(t, gone) <= Usage(t, t.entries.Keys)
  {
    RemovalAddsUp(t, gone);
  }

  // ------------------------------------------------------------- disk_usage

  /**
   Walks a tree and adds up each inode the first time it is met. An entry that has
   vanished since it was listed is skipped.
   */
  method DiskUsage(t: Tree, walk: seq<Path>) returns (total: nat)
    requires Valid(t)
    ensures total == Usage(t, Set(walk))
  {
    var seen: set<InodeNumber> := {};
    total := 0;
    var i := 0;
    assert Inodes(t, Set(walk[..0])) == {};
    while i < |walk|
      invariant 0 <= i <= |walk|
      invariant seen == Inodes(t, Set(walk[..i]))
      invariant total == Size(t, seen)
    {
      assert Set(walk[..i + 1]) == Set(walk[..i]) + {walk[i]};
      CountOne(t, Set(walk[..i]), walk[i]);
      if walk[i] in t.entries {
        var inode := t.entries[walk[i]];
        if inode !in seen {
          seen := seen + {inode};
          total := total + t.inodes[inode].size;
        }
      }
      i := i + 1;
    }
    assert walk[..|walk|] == walk;
  }

  lemma CountOne(t: Tree, done: set<Path>, p: Path)
    requires Valid(t)
    ensures p !in t.entries ==> Inodes(t, done + {p}) == Inodes(t, done)
    ensures p in t.entries ==> Inodes(t, done + {p}) == Inodes(t, done) + {t.entries[p]}
    ensures p in t.entries && t.entries[p] !in Inodes(t, done) ==>
              Usage(t, done + {p}) == Usage(t, done) + t.At(p).size
    ensures p in t.entries && t.entries[p] in Inodes(t, done) ==> Inodes(t, done + {p}) == Inodes(t, done)
  {
    if p in t.entries {
      assert Inodes(t, done + {p}) == Inodes(t, done) + {t.entries[p]};
      if t.entries[p] !in Inodes(t, done) {
        SizeWithout(t, Inodes(t, done) + {t.entries[p]}, t.entries[p]);
        assert Inodes(t, done) + {t.entries[p]} - {t.entries[p]} == Inodes(t, done);
      }
    } else {
      assert Inodes(t, done + {p}) == Inodes(t, done);
    }
  }
}
