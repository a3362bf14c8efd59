/** A private directory of files kept inside an allowance by giving up its oldest. */
module PrivateStore {
  import opened Options
  import opened Sorting
  import opened Utf8

  const MIN_STORE_BYTES: nat := 128 * 1024 * 1024
  const MAX_STORE_BYTES: nat := 8 * 1024 * 1024 * 1024
  const MAX_U64: nat := 0xFFFF_FFFF_FFFF_FFFF

  datatype Content = Blob(bytes: Bytes) | Text(text: string)

  datatype File = File(content: Content, modified: int)
  {
    function Bytes(): Bytes {
      if content.Blob? then content.bytes else Encode(content.text)
    }

    function Size(): nat {
      |Bytes()|
    }

    /** The file as a write that was cut short leaves it. */
    function Cut(written: nat): File {
      match content
      case Blob(bytes) => File(Blob(bytes[..Min(written, |bytes|)]), modified)
      case Text(text) => File(Text(text[..Min(written, |text|)]), modified)
    }
  }

  type Files = map<string, File>

  /** How far writing a new file gets: done, not even opened, or cut short. */
  datatype Write = Whole | NotOpened | Torn(written: nat)

  /** A file is written only where none is; one that was cut short is taken back unless it will not go. */
  function AfterWrite(files: Files, path: string, f: File, write: Write, stuck: set<string>): (Files, bool) {
    if path in files || write.NotOpened? then (files, false)
    else if write.Whole? then (files[path := f], true)
    else (if path in stuck then files[path := f.Cut(write.written)] else files, false)
  }

  function SaturatingMul(a: nat, b: nat): nat {
    Min(a * b, MAX_U64)
  }

  /** Where a product saturates, the share is past the ceiling either way. */
  lemma SaturationIsOutOfReach(blocks: nat, size: nat, percent: nat)
    ensures var exact, share := blocks * size * percent, SaturatingMul(SaturatingMul(blocks, size), percent);
            share == exact || (share / 100 > 8589934592 && exact / 100 > 8589934592)
  {
    if blocks * size > MAX_U64 && percent > 0 {
      AtLeastOnce(blocks * size, percent);
      AtLeastOnce(MAX_U64, percent);
    }
  }

  lemma AtLeastOnce(a: nat, n: nat)
    requires n > 0
    ensures a * n >= a
  {
  }

  /** A share of the free blocks, within bounds; a filesystem that cannot be asked gets the floor. */
  function StoreAllowance(free: Option<(nat, nat)>, percent: nat): (allowance: nat)
    ensures 134217728 <= allowance <= 8589934592
    ensures free.None? ==> allowance == 134217728
    ensures free.Some? ==>
              var share := free.value.0 * free.value.1 * percent / 100;
              && (share <= 134217728 ==> allowance == 134217728)
              && (share >= 8589934592 ==> allowance == 8589934592)
              && (134217728 <= share <= 8589934592 ==> allowance == share)
  {
    if free.None? then MIN_STORE_BYTES
    else
      SaturationIsOutOfReach(free.value.0, free.value.1, percent);
      var share := SaturatingMul(SaturatingMul(free.value.0, free.value.1), percent) / 100;
      if share < MIN_STORE_BYTES then MIN_STORE_BYTES else Min(share, MAX_STORE_BYTES)
  }

  /** A directory read: every file once, in whatever order the filesystem has them. */
  ghost predicate Lists(listing: seq<string>, files: Files) {
    && (forall n :: n in listing <==> n in files)
    && forall i, j :: 0 <= i < j < |listing| ==> listing[i] != listing[j]
  }

  function SizeOf(files: Files, name: string): nat {
    if name in files then files[name].Size() else 0
  }

  function AgeOf(files: Files, name: string): int {
    if name in files then files[name].modified else 0
  }

  function Total(files: Files, names: seq<string>): nat {
    if names == [] then 0 else SizeOf(files, names[0]) + Total(files, names[1..])
  }

  function Older(files: Files): (string, string) -> bool {
    (a: string, b: string) => AgeOf(files, a) <= AgeOf(files, b)
  }

  function ByAge(files: Files, listing: seq<string>): seq<string> {
    Sort(Older(files), listing)
  }

  predicate Fits(files: Files, names: seq<string>, incoming: nat, maxFiles: nat, allowance: nat) {
    |names| < maxFiles && Total(files, names) + incoming <= allowance
  }

  /** What is left of the files, oldest first, once enough of the oldest have given way. */
  function Spared(files: Files, order: seq<string>, incoming: nat, maxFiles: nat, allowance: nat): seq<string> {
    if order == [] || Fits(files, order, incoming, maxFiles, allowance) then order
    else Spared(files, order[1..], incoming, maxFiles, allowance)
  }

  function Set(names: seq<string>): set<string> {
    set n | n in names
  }

  /** The files that give way, some of which cannot be removed. */
  function Evicted(
    files: Files, listing: seq<string>, stuck: set<string>, incoming: nat, maxFiles: nat, allowance: nat): set<string>
  {
    var order := ByAge(files, listing);
    Set(order) - Set(Spared(files, order, incoming, maxFiles, allowance)) - stuck
  }

  lemma OlderIsAPreorder(files: Files)
    ensures TotalPreorder(Older(files))
  {
  }

  lemma {:induction false} TotalAppend(files: Files, a: seq<string>, b: seq<string>)
    ensures Total(files, a + b) == Total(files, a) + Total(files, b)
  {
    if a == [] {
      assert a + b == b;
    } else {
      TotalAppend(files, a[1..], b);
      assert (a + b)[1..] == a[1..] + b;
    }
  }

  lemma {:induction false} TotalOfAnyOrder(files: Files, a: seq<string>, b: seq<string>)
    requires multiset(a) == multiset(b)
    ensures Total(files, a) == Total(files, b)
    decreases |a|
  {
    if a == [] {
      assert |multiset(b)| == 0;
    } else {
      var i := TakeOut(a, b);
      hide Total, SizeOf;
      TotalOfAnyOrder(files, a[..|a| - 1], b[..i] + b[i + 1..]);
      assert a == a[..|a| - 1] + [b[i]];
      TotalAppend(files, a[..|a| - 1], [b[i]]);
      TotalAppend(files, b[..i] + [b[i]], b[i + 1..]);
      TotalAppend(files, b[..i], [b[i]]);
      TotalAppend(files, b[..i], b[i + 1..]);
    }
  }

  /** The order by age lists the same files, each once, none before an older one. */
  lemma AgeOrderLists(files: Files, listing: seq<string>)
    requires Lists(listing, files)
    ensures var order := ByAge(files, listing);
            && Lists(order, files) && |order| == |listing|
            && Total(files, order) == Total(files, listing)
            && forall i, j :: 0 <= i < j < |order| ==> AgeOf(files, order[i]) <= AgeOf(files, order[j])
  {
    OlderIsAPreorder(files);
    SortSorts(Older(files), listing);
    var order := ByAge(files, listing);
    TotalOfAnyOrder(files, order, listing);
    PermutedLists(files, listing, order);
  }

  lemma PermutedLists(files: Files, listing: seq<string>, order: seq<string>)
    requires Lists(listing, files) && multiset(order) == multiset(listing)
    ensures Lists(order, files)
  {
    forall n
      ensures n in order <==> n in listing
    {
      assert n in multiset(order) <==> n in multiset(listing);
    }
    forall i, j | 0 <= i < j < |order|
      ensures order[i] != order[j]
    {
      if order[i] == order[j] {
        assert order == order[..i] + [order[i]] + order[i + 1..j] + [order[j]] + order[j + 1..];
        assert multiset(order)[order[i]] >= 2;
        OnceEach(listing, order[i]);
      }
    }
  }

  lemma {:induction false} OnceEach(names: seq<string>, n: string)
    requires forall i, j :: 0 <= i < j < |names| ==> names[i] != names[j]
    ensures multiset(names)[n] <= 1
  {
    if names != [] {
      OnceEach(names[1..], n);
      assert names == [names[0]] + names[1..];
      if names[0] == n {
        assert n !in names[1..];
        assert n !in multiset(names[1..]);
      }
    }
  }

  /**
   The files spared are the longest run of the newest that fits: nothing gives way
   that need not, and nothing newer gives way before something older.
   */
  lemma {:induction false} SparedIsTheLongestThatFits(
    files: Files, order: seq<string>, incoming: nat, maxFiles: nat, allowance: nat)
    ensures var spared := Spared(files, order, incoming, maxFiles, allowance);
            && |spared| <= |order| && spared == order[|order| - |spared|..]
            && (spared == [] || Fits(files, spared, incoming, maxFiles, allowance))
            && forall k :: 0 <= k < |order| - |spared| ==> !Fits(files, order[k..], incoming, maxFiles, allowance)
  {
    if order != [] && !Fits(files, order, incoming, maxFiles, allowance) {
      SparedIsTheLongestThatFits(files, order[1..], incoming, maxFiles, allowance);
      var spared := Spared(files, order[1..], incoming, maxFiles, allowance);
      forall k | 0 <= k < |order| - |spared|
        ensures !Fits(files, order[k..], incoming, maxFiles, allowance)
      {
        assert k > 0 ==> order[k..] == order[1..][k - 1..];
        assert k == 0 ==> order[k..] == order;
      }
      assert order[1..][|order| - 1 - |spared|..] == order[|order| - |spared|..];
    } else {
      assert order[0..] == order;
    }
  }

  /** Room is found exactly when the file fits the whole allowance by itself. */
  lemma RoomExactlyWhenItFitsAlone(files: Files, order: seq<string>, incoming: nat, maxFiles: nat, allowance: nat)
    ensures Total(files, Spared(files, order, incoming, maxFiles, allowance)) + incoming <= allowance
            <==> incoming <= allowance
  {
    SparedIsTheLongestThatFits(files, order, incoming, maxFiles, allowance);
  }

  /** Nothing gives way before something older than it that could have gone. */
  lemma OlderGiveWayFirst(
    files: Files, listing: seq<string>, stuck: set<string>, incoming: nat, maxFiles: nat, allowance: nat)
    requires Lists(listing, files)
    ensures var gone := Evicted(files, listing, stuck, incoming, maxFiles, allowance);
            forall a, b :: a in gone && b in files && b !in gone && b !in stuck ==>
              a in files && a !in stuck && files[a].modified <= files[b].modified
  {
    hide ByAge, Spared, Fits, Total, AgeOf;
    AgeOrderLists(files, listing);
    var order := ByAge(files, listing);
    SparedIsTheLongestThatFits(files, order, incoming, maxFiles, allowance);
    var spared := Spared(files, order, incoming, maxFiles, allowance);
    var gone := Evicted(files, listing, stuck, incoming, maxFiles, allowance);
    forall i | |order| - |spared| <= i < |order|
      ensures order[i] in spared
    {
      assert order[i] == spared[i - (|order| - |spared|)];
    }
    forall a, b | a in gone && b in files && b !in gone && b !in stuck
      ensures a in files && files[a].modified <= files[b].modified
    {
      var i :| 0 <= i < |order| && order[i] == a;
      var j :| 0 <= j < |spared| && spared[j] == b;
      assert b == order[|order| - |spared| + j];
      assert i < |order| - |spared|;
      AgeIsTheTime(files, a);
      AgeIsTheTime(files, b);
    }
  }

  lemma AgeIsTheTime(files: Files, name: string)
    requires name in files
    ensures AgeOf(files, name) == files[name].modified
  {
  }

  /** Everything these files hold, one after another; text counts as it is encoded. */
  ghost function AllBytes(files: Files, names: seq<string>): Bytes
    requires forall n :: n in names ==> n in files
  {
    if names == [] then []
    else
      (match files[names[0]].content case Blob(bytes) => bytes case Text(text) => Encode(text))
      + AllBytes(files, names[1..])
  }

  lemma {:induction false} TotalIsEveryByte(files: Files, names: seq<string>)
    requires forall n :: n in names ==> n in files
    ensures Total(files, names) == |AllBytes(files, names)|
  {
    if names != [] {
      TotalIsEveryByte(files, names[1..]);
    }
  }

  /** What is left of the directory is what was spared and what would not go. */
  lemma SparedIsWhatIsLeft(
    files: Files, listing: seq<string>, stuck: set<string>, incoming: nat, maxFiles: nat, allowance: nat)
    requires Lists(listing, files)
    ensures var spared := Spared(files, ByAge(files, listing), incoming, maxFiles, allowance);
            var left := files - Evicted(files, listing, stuck, incoming, maxFiles, allowance);
            forall n :: n in left <==> n in spared || (n in files && n in stuck)
  {
    hide ByAge, Spared, Fits, Total;
    AgeOrderLists(files, listing);
    var order := ByAge(files, listing);
    SparedIsTheLongestThatFits(files, order, incoming, maxFiles, allowance);
    var spared := Spared(files, order, incoming, maxFiles, allowance);
    forall n | n in spared
      ensures n in order
    {
      var i :| 0 <= i < |spared| && spared[i] == n;
      assert n == order[|order| - |spared| + i];
    }
  }

  /** With nothing stuck, the directory is within its bounds before the file arrives. */
  lemma RoomIsRoom(files: Files, listing: seq<string>, incoming: nat, maxFiles: nat, allowance: nat)
    requires Lists(listing, files) && incoming <= allowance && maxFiles > 0
    ensures var spared := Spared(files, ByAge(files, listing), incoming, maxFiles, allowance);
            var left := files - Evicted(files, listing, {}, incoming, maxFiles, allowance);
            Lists(spared, left) && |spared| < maxFiles && Total(left, spared) + incoming <= allowance
  {
    hide ByAge, Spared, Evicted;
    AgeOrderLists(files, listing);
    var order := ByAge(files, listing);
    SparedIsTheLongestThatFits(files, order, incoming, maxFiles, allowance);
    SparedIsWhatIsLeft(files, listing, {}, incoming, maxFiles, allowance);
    var spared := Spared(files, order, incoming, maxFiles, allowance);
    var left := files - Evicted(files, listing, {}, incoming, maxFiles, allowance);
    forall n | n in spared
      ensures n in files && files[n] == left[n]
    {
      assert n in left;
    }
    SameTotal(files, left, spared);
  }

  lemma {:induction false} SameTotal(files: Files, left: Files, names: seq<string>)
    requires forall n :: n in names ==> n in files && n in left && files[n] == left[n]
    ensures Total(files, names) == Total(left, names)
  {
    if names != [] {
      assert names[0] in names;
      SameTotal(files, left, names[1..]);
    }
  }

  /** A file that was not there is listed once more and adds its own size. */
  lemma OneMoreFile(files: Files, listing: seq<string>, name: string, f: File)
    requires Lists(listing, files) && name !in files
    ensures Lists(listing + [name], files[name := f])
    ensures Total(files[name := f], listing + [name]) == Total(files, listing) + f.Size()
  {
    var more := files[name := f];
    TotalAppend(more, listing, [name]);
    SameTotal(files, more, listing);
    assert [name][1..] == [];
  }

  lemma NothingToEvict(incoming: nat, maxFiles: nat, stuck: set<string>, allowance: nat)
    ensures Evicted(map[], [], stuck, incoming, maxFiles, allowance) == {}
  {
    assert ByAge(map[], []) == [];
  }

  class Directory {
    var files: Files

    constructor (files: Files)
      ensures this.files == files
    {
      this.files := files;
    }

    method Usage(listing: seq<string>) returns (count: nat, bytes: nat)
      ensures count == |listing| && bytes == Total(files, listing)
    {
      count, bytes := 0, 0;
      while count < |listing|
        invariant 0 <= count <= |listing|
        invariant bytes == Total(files, listing[..count])
      {
        assert listing[..count + 1] == listing[..count] + [listing[count]];
        TotalAppend(files, listing[..count], [listing[count]]);
        bytes := bytes + SizeOf(files, listing[count]);
        count := count + 1;
      }
      assert listing[..|listing|] == listing;
    }

    /** Writes a file that must not be there yet, and takes it back when it is cut short. */
    method WritePrivate(path: string, f: File, write: Write, stuck: set<string>) returns (ok: bool)
      modifies this
      ensures (files, ok) == AfterWrite(old(files), path, f, write, stuck)
    {
      if path in files || write.NotOpened? {
        return false;
      }
      if write.Torn? {
        files := files[path := f.Cut(write.written)];
        if path !in stuck {
          files := files - {path};
          assert files == old(files);
        }
        return false;
      }
      files := files[path := f];
      ok := true;
    }

    /** Removes the oldest until the incoming file fits; a file that will not go counts as gone. */
    method MakeRoomFor(listing: seq<string>, stuck: set<string>, incoming: nat, maxFiles: nat, allowance: nat)
      returns (fits: bool)
      requires Lists(listing, files)
      modifies this
      ensures files == old(files) - Evicted(old(files), listing, stuck, incoming, maxFiles, allowance)
      ensures fits <==> incoming <= allowance
    {
      hide Total, Spared, Set, ByAge, Evicted, Fits, Lists, SizeOf;
      ghost var were := files;
      var count, retained := Usage(listing);
      AgeOrderLists(files, listing);
      ghost var order := ByAge(files, listing);
      RoomExactlyWhenItFitsAlone(files, order, incoming, maxFiles, allowance);
      if count < maxFiles && retained + incoming <= allowance {
        SparedHere(files, order, incoming, maxFiles, allowance);
        EvictedAre(files, listing, [], stuck, incoming, maxFiles, allowance);
        NothingGone(files, stuck);
        return true;
      }
      var oldestFirst := ByAge(files, listing);
      retained := RemoveOldest(oldestFirst, stuck, incoming, maxFiles, allowance);
      fits := retained + incoming <= allowance;
      var spared := Spared(were, order, incoming, maxFiles, allowance);
      SparedIsTheLongestThatFits(were, order, incoming, maxFiles, allowance);
      var gone := order[..|order| - |spared|];
      EvictedAre(were, listing, gone, stuck, incoming, maxFiles, allowance);
    }

    /** Removes from the front until what is behind it fits, and says what that comes to. */
    method RemoveOldest(order: seq<string>, stuck: set<string>, incoming: nat, maxFiles: nat, allowance: nat)
      returns (retained: nat)
      modifies this
      ensures var spared := Spared(old(files), order, incoming, maxFiles, allowance);
              && |spared| <= |order|
              && retained == Total(old(files), spared)
              && files == old(files) - (Set(order[..|order| - |spared|]) - stuck)
    {
      hide Total, Spared, Set, Fits, SizeOf;
      var sizes := files;
      var oldestFirst := order;
      var count;
      count, retained := Usage(order);
      ghost var gone: seq<string> := [];
      NothingGone(sizes, stuck);
      while (count >= maxFiles || retained + incoming > allowance) && oldestFirst != []
        invariant gone + oldestFirst == order
        invariant count == |oldestFirst| && retained == Total(sizes, oldestFirst)
        invariant files == sizes - (Set(gone) - stuck)
        invariant Spared(sizes, oldestFirst, incoming, maxFiles, allowance)
                  == Spared(sizes, order, incoming, maxFiles, allowance)
        decreases |oldestFirst|
      {
        var path := oldestFirst[0];
        GoneOneMore(sizes, gone, path, stuck);
        OldestGoes(sizes, oldestFirst, incoming, maxFiles, allowance);
        retained := retained - SizeOf(sizes, path);
        if path !in stuck {
          files := files - {path};
        }
        count := count - 1;
        gone := gone + [path];
        oldestFirst := oldestFirst[1..];
      }
      SparedHere(sizes, oldestFirst, incoming, maxFiles, allowance);
      assert order[..|gone|] == gone;
    }
  }

  lemma NothingGone(were: Files, stuck: set<string>)
    ensures were - (Set([]) - stuck) == were
  {
  }

  lemma OldestGoes(files: Files, order: seq<string>, incoming: nat, maxFiles: nat, allowance: nat)
    requires order != []
    ensures Total(files, order) == SizeOf(files, order[0]) + Total(files, order[1..])
    ensures |order| >= maxFiles || Total(files, order) + incoming > allowance
            ==> Spared(files, order[1..], incoming, maxFiles, allowance)
                == Spared(files, order, incoming, maxFiles, allowance)
  {
  }

  lemma SparedHere(files: Files, order: seq<string>, incoming: nat, maxFiles: nat, allowance: nat)
    requires order == [] || (|order| < maxFiles && Total(files, order) + incoming <= allowance)
    ensures Spared(files, order, incoming, maxFiles, allowance) == order
  {
  }

  lemma EvictedAre(
    files: Files, listing: seq<string>, gone: seq<string>, stuck: set<string>,
    incoming: nat, maxFiles: nat, allowance: nat)
    requires Lists(listing, files)
    requires ByAge(files, listing) == gone + Spared(files, ByAge(files, listing), incoming, maxFiles, allowance)
    ensures Evicted(files, listing, stuck, incoming, maxFiles, allowance) == Set(gone) - stuck
  {
    hide ByAge, Spared;
    AgeOrderLists(files, listing);
    var order := ByAge(files, listing);
    GoneAreTheRest(order, gone, Spared(files, order, incoming, maxFiles, allowance));
  }

  lemma GoneOneMore(were: Files, gone: seq<string>, path: string, stuck: set<string>)
    ensures were - (Set(gone + [path]) - stuck)
         == if path in stuck then were - (Set(gone) - stuck) else were - (Set(gone) - stuck) - {path}
  {
    assert Set(gone + [path]) == Set(gone) + {path};
  }

  lemma GoneAreTheRest(order: seq<string>, gone: seq<string>, left: seq<string>)
    requires order == gone + left
    requires forall i, j :: 0 <= i < j < |order| ==> order[i] != order[j]
    ensures Set(order) - Set(left) == Set(gone)
  {
    forall n
      ensures n in Set(order) - Set(left) <==> n in Set(gone)
    {
      if n in gone {
        var i :| 0 <= i < |gone| && gone[i] == n;
        assert order[i] == n;
        assert forall j :: 0 <= j < |left| ==> left[j] == order[|gone| + j];
      }
    }
  }
}
