/** Saves into an empty email store that end with bytes it once held being refused. */
module EmailRefusal {
  import opened Options
  import opened Utf8
  import opened MediaTypes
  import opened PrivateStore
  import opened EmailAttachments
  import opened Text
  import Sorting

  /** As many of the largest files as the smallest allowance holds. */
  const HELD: nat := 12

  /** Files of the largest size, told apart by their first byte. */
  function Big(k: nat): (bytes: Bytes)
    requires k <= HELD
    ensures |bytes| == MAX_EMAIL_ATTACHMENT_BYTES && bytes[0] == k
  {
    seq(MAX_EMAIL_ATTACHMENT_BYTES, i => if i == 0 then k as Byte else 65)
  }

  function Contents(): set<Bytes> {
    set k: nat | k <= HELD :: Big(k)
  }

  ghost predicate Ready(digest: Bytes -> Bytes) {
    Distinguishes(digest, Contents())
  }

  lemma Widths(digest: Bytes -> Bytes, k: nat)
    requires Ready(digest) && k <= HELD
    ensures |digest(Big(k))| == 32
  {
    assert Big(k) in Contents();
  }

  ghost function DataName(digest: Bytes -> Bytes, k: nat): string
    requires Ready(digest) && k <= HELD
  {
    Widths(digest, k);
    Name(digest(Big(k)), Plaintext)
  }

  lemma NamesAreApart(digest: Bytes -> Bytes, j: nat, k: nat)
    requires Ready(digest) && j <= HELD && k <= HELD
    ensures DataName(digest, j) != TypeFile(DataName(digest, k))
    ensures j != k ==> DataName(digest, j) != DataName(digest, k)
    ensures j != k ==> TypeFile(DataName(digest, j)) != TypeFile(DataName(digest, k))
  {
    hide Name, TypeFile, Hex, Distinguishes;
    Widths(digest, j);
    Widths(digest, k);
    RolesAreApart(digest, Big(j), Plaintext, Big(k), Plaintext);
    if DataName(digest, j) == DataName(digest, k) {
      NameTellsTheDigest(digest(Big(j)), digest(Big(k)), Plaintext, Plaintext);
      SameDigits(digest, j, k);
    }
    if TypeFile(DataName(digest, j)) == TypeFile(DataName(digest, k)) {
      TypeNameTellsTheName(DataName(digest, j), DataName(digest, k));
    }
  }

  lemma SameDigits(digest: Bytes -> Bytes, j: nat, k: nat)
    requires Ready(digest) && j <= HELD && k <= HELD && |digest(Big(j))| == 32 && |digest(Big(k))| == 32
    requires Hex(digest(Big(j)))[..DIGITS] == Hex(digest(Big(k)))[..DIGITS]
    ensures j == k
  {
    assert Big(j) in Contents() && Big(k) in Contents();
  }

  function Data(k: nat): File
    requires k <= HELD
  {
    File(Blob(Big(k)), k)
  }

  function Declared(k: nat): File {
    File(Text("text/plain"), k)
  }

  /** The store after the first `n` saves, one at each instant, and the directory as it is then read. */
  ghost function Store(digest: Bytes -> Bytes, n: nat): Files
    requires Ready(digest) && n <= HELD
  {
    if n == 0 then map[]
    else
      Store(digest, n - 1)[DataName(digest, n - 1) := Data(n - 1)][TypeFile(DataName(digest, n - 1)) := Declared(n - 1)]
  }

  ghost function Order(digest: Bytes -> Bytes, n: nat): seq<string>
    requires Ready(digest) && n <= HELD
  {
    if n == 0 then [] else Order(digest, n - 1) + [DataName(digest, n - 1)] + [TypeFile(DataName(digest, n - 1))]
  }

  const ROOM_EACH: nat := MAX_EMAIL_ATTACHMENT_BYTES + 40

  lemma {:induction false} StoreHolds(digest: Bytes -> Bytes, n: nat, name: string)
    requires Ready(digest) && n <= HELD && name in Store(digest, n)
    ensures exists k: nat :: k < n && (name == DataName(digest, k) || name == TypeFile(DataName(digest, k)))
  {
    if name != DataName(digest, n - 1) && name != TypeFile(DataName(digest, n - 1)) {
      StoreHolds(digest, n - 1, name);
    }
  }

  lemma NotYetThere(digest: Bytes -> Bytes, n: nat, k: nat)
    requires Ready(digest) && n <= k <= HELD
    ensures DataName(digest, k) !in Store(digest, n) && TypeFile(DataName(digest, k)) !in Store(digest, n)
  {
    hide Store, DataName, TypeFile;
    if DataName(digest, k) in Store(digest, n) {
      StoreHolds(digest, n, DataName(digest, k));
      var j: nat :| j < n && (DataName(digest, k) == DataName(digest, j)
                              || DataName(digest, k) == TypeFile(DataName(digest, j)));
      NamesAreApart(digest, k, j);
    }
    if TypeFile(DataName(digest, k)) in Store(digest, n) {
      StoreHolds(digest, n, TypeFile(DataName(digest, k)));
      var j: nat :| j < n && (TypeFile(DataName(digest, k)) == DataName(digest, j)
                              || TypeFile(DataName(digest, k)) == TypeFile(DataName(digest, j)));
      NamesAreApart(digest, j, k);
    }
  }

  /** Two files go to the end of the directory with every save, and what they take is known within forty bytes. */
  lemma {:induction false} StoreIs(digest: Bytes -> Bytes, n: nat)
    requires Ready(digest) && n <= HELD
    ensures var (files, order) := (Store(digest, n), Order(digest, n));
            && Lists(order, files) && |order| == 2 * n
            && n * MAX_EMAIL_ATTACHMENT_BYTES <= Total(files, order) <= n * ROOM_EACH
            && (forall i :: 0 <= i < |order| ==> AgeOf(files, order[i]) == i / 2)
  {
    if n > 0 {
      StoreIs(digest, n - 1);
      StoreGrows(digest, n);
    }
  }

  lemma StoreGrows(digest: Bytes -> Bytes, n: nat)
    requires Ready(digest) && 0 < n <= HELD
    requires var (files, order) := (Store(digest, n - 1), Order(digest, n - 1));
             && Lists(order, files) && |order| == 2 * (n - 1)
             && (n - 1) * MAX_EMAIL_ATTACHMENT_BYTES <= Total(files, order) <= (n - 1) * ROOM_EACH
             && (forall i :: 0 <= i < |order| ==> AgeOf(files, order[i]) == i / 2)
    ensures var (files, order) := (Store(digest, n), Order(digest, n));
            && Lists(order, files) && |order| == 2 * n
            && n * MAX_EMAIL_ATTACHMENT_BYTES <= Total(files, order) <= n * ROOM_EACH
            && (forall i :: 0 <= i < |order| ==> AgeOf(files, order[i]) == i / 2)
  {
    hide Total, DataName, TypeFile, Encode;
    var (files, order) := (Store(digest, n - 1), Order(digest, n - 1));
    var name := DataName(digest, n - 1);
    NotYetThere(digest, n - 1, n - 1);
    NamesAreApart(digest, n - 1, n - 1);
    EncodedIsShort("text/plain");
    OneMoreFile(files, order, name, Data(n - 1));
    OneMoreFile(files[name := Data(n - 1)], order + [name], TypeFile(name), Declared(n - 1));
    var end := Order(digest, n);
    forall i | 0 <= i < |end|
      ensures AgeOf(Store(digest, n), end[i]) == i / 2
    {
      if i < |order| {
        assert end[i] == order[i];
        assert order[i] in files;
      }
    }
  }

  lemma OrderIsByAge(digest: Bytes -> Bytes, n: nat)
    requires Ready(digest) && n <= HELD
    ensures ByAge(Store(digest, n), Order(digest, n)) == Order(digest, n)
  {
    hide Store, Order, Total;
    StoreIs(digest, n);
    Sorting.SortKeepsSorted(Older(Store(digest, n)), Order(digest, n));
  }

  lemma {:induction false} StoreHas(digest: Bytes -> Bytes, n: nat, k: nat)
    requires Ready(digest) && k < n <= HELD
    ensures var (files, name) := (Store(digest, n), DataName(digest, k));
            && name in files && files[name] == Data(k)
            && TypeFile(name) in files && files[TypeFile(name)] == Declared(k)
  {
    hide DataName, TypeFile;
    NamesAreApart(digest, k, n - 1);
    NamesAreApart(digest, n - 1, k);
    if k < n - 1 {
      StoreHas(digest, n - 1, k);
    }
  }

  lemma {:induction false} FirstInOrder(digest: Bytes -> Bytes, n: nat)
    requires Ready(digest) && 0 < n <= HELD
    ensures Order(digest, n) != [] && Order(digest, n)[0] == DataName(digest, 0)
  {
    if n > 1 {
      FirstInOrder(digest, n - 1);
    }
  }

  // --------------------------------------------------------------- the saves

  /** One save at each instant, nothing in its way, on a disk that does not say how much is free. */
  ghost function Call(digest: Bytes -> Bytes, k: nat): SaveCall
    requires Ready(digest) && k <= HELD
  {
    SaveCall("text/plain", Big(k), Conditions(Order(digest, k), {}, k, None, Whole, false))
  }

  ghost function Calls(digest: Bytes -> Bytes, n: nat): seq<SaveCall>
    requires Ready(digest) && n <= HELD + 1
  {
    if n == 0 then [] else Calls(digest, n - 1) + [Call(digest, n - 1)]
  }

  /** Saves that are possible one after the other, all accepted, and lead from these files to those. */
  ghost predicate Accepted(files: Files, digest: Bytes -> Bytes, isJson: Parser, calls: seq<SaveCall>, end: Files)
    decreases |calls|
  {
    if calls == [] then files == end
    else
      var first := calls[0];
      && |digest(first.bytes)| == 32 && Possible(files, first.conditions)
      && var (next, answer) :=
           Saved(files, digest(first.bytes), first.mediaType, first.bytes, isJson, first.conditions);
         answer.Ok? && Accepted(next, digest, isJson, calls[1..], end)
  }

  lemma {:induction false} AcceptedThenOne(
    files: Files, digest: Bytes -> Bytes, isJson: Parser, calls: seq<SaveCall>, mid: Files, call: SaveCall, end: Files)
    requires Accepted(files, digest, isJson, calls, mid) && Accepted(mid, digest, isJson, [call], end)
    ensures Accepted(files, digest, isJson, calls + [call], end)
    decreases |calls|
  {
    hide Saved, Possible;
    if calls == [] {
      assert calls + [call] == [call];
    } else {
      var first := calls[0];
      var next := Saved(files, digest(first.bytes), first.mediaType, first.bytes, isJson, first.conditions).0;
      AcceptedThenOne(next, digest, isJson, calls[1..], mid, call, end);
      assert (calls + [call])[1..] == calls[1..] + [call];
    }
  }

  /** The smallest allowance holds twelve of the largest files with their types, and not one more. */
  lemma TwelveFit(digest: Bytes -> Bytes, n: nat)
    requires Ready(digest) && n <= HELD
    ensures Fits(Store(digest, n), Order(digest, n),
                 MAX_EMAIL_ATTACHMENT_BYTES, MAX_EMAIL_ATTACHMENT_FILES, MIN_STORE_BYTES)
            <==> n < HELD
  {
    hide Store, Order, Total;
    StoreIs(digest, n);
  }

  /** A save into room that was made, with nothing of its name there, adds its two files. */
  lemma SaveAdds(digest: Bytes, files: Files, bytes: Bytes, isJson: Parser, c: Conditions)
    requires |digest| == 32 && |bytes| == MAX_EMAIL_ATTACHMENT_BYTES && c.write == Whole && !c.typeWriteFails
    requires Name(digest, Plaintext) !in files && TypeFile(Name(digest, Plaintext)) !in files
    ensures var name := Name(digest, Plaintext);
            Saved(files, digest, "text/plain", bytes, isJson, c)
            == (AfterEviction(files, c, |bytes|)
                  [name := File(Blob(bytes), c.now)][TypeFile(name) := File(Text("text/plain"), c.now)], Ok(name))
  {
    hide KindOf, Normalized, Evicted, Name, TypeFile, Essence;
    PlaintextIsPlain();
    PlaintextIsItsEssence();
  }

  lemma PlaintextIsItsEssence()
    ensures Essence("text/plain") == "text/plain"
  {
    NamesArePlain(Plaintext);
    BeforeIsAll("text/plain", ';');
  }

  /** Each of the first twelve is accepted and nothing goes. */
  lemma SaveIsAccepted(digest: Bytes -> Bytes, isJson: Parser, k: nat)
    requires Ready(digest) && k < HELD
    ensures Accepted(Store(digest, k), digest, isJson, [Call(digest, k)], Store(digest, k + 1))
  {
    hide Saved, Order, TypeFile, Name, Total, Evicted, Lists;
    Widths(digest, k);
    StoreIs(digest, k);
    TwelveFit(digest, k);
    OrderIsByAge(digest, k);
    NobodyGoes(Store(digest, k), Order(digest, k),
               MAX_EMAIL_ATTACHMENT_BYTES, MAX_EMAIL_ATTACHMENT_FILES, MIN_STORE_BYTES);
    NotYetThere(digest, k, k);
    var c := Call(digest, k).conditions;
    assert AfterEviction(Store(digest, k), c, |Big(k)|) == Store(digest, k);
    SaveAdds(digest(Big(k)), Store(digest, k), Big(k), isJson, c);
    assert [Call(digest, k)][1..] == [];
  }

  lemma {:induction false} SavesAreAccepted(digest: Bytes -> Bytes, isJson: Parser, n: nat)
    requires Ready(digest) && n <= HELD
    ensures Accepted(map[], digest, isJson, Calls(digest, n), Store(digest, n))
  {
    if n > 0 {
      hide Accepted, Store, Call;
      SavesAreAccepted(digest, isJson, n - 1);
      SaveIsAccepted(digest, isJson, n - 1);
      AcceptedThenOne(map[], digest, isJson, Calls(digest, n - 1), Store(digest, n - 1),
                      Call(digest, n - 1), Store(digest, n));
    }
  }

  /** The store once the thirteenth is in: the data of the first is gone and its type is not. */
  ghost function Full(digest: Bytes -> Bytes): Files
    requires Ready(digest)
  {
    var name := DataName(digest, HELD);
    (Store(digest, HELD) - {DataName(digest, 0)})[name := Data(HELD)][TypeFile(name) := Declared(HELD)]
  }

  ghost function FullOrder(digest: Bytes -> Bytes): seq<string>
    requires Ready(digest)
  {
    var name := DataName(digest, HELD);
    FirstInOrder(digest, HELD);
    Order(digest, HELD)[1..] + [name] + [TypeFile(name)]
  }

  /** Without the first file's data, there is room for one more. */
  lemma ElevenFit(digest: Bytes -> Bytes)
    requires Ready(digest)
    ensures Order(digest, HELD) != []
    ensures Fits(Store(digest, HELD), Order(digest, HELD)[1..],
                 MAX_EMAIL_ATTACHMENT_BYTES, MAX_EMAIL_ATTACHMENT_FILES, MIN_STORE_BYTES)
  {
    hide Store, Order;
    StoreIs(digest, HELD);
    FirstInOrder(digest, HELD);
    StoreHas(digest, HELD, 0);
    assert SizeOf(Store(digest, HELD), DataName(digest, 0)) == MAX_EMAIL_ATTACHMENT_BYTES;
  }

  lemma OnlyTheFirstGoes(digest: Bytes -> Bytes)
    requires Ready(digest)
    ensures Evicted(Store(digest, HELD), Order(digest, HELD), {},
                    MAX_EMAIL_ATTACHMENT_BYTES, MAX_EMAIL_ATTACHMENT_FILES, MIN_STORE_BYTES) == {DataName(digest, 0)}
  {
    hide Store, Order, Evicted, Fits, ByAge;
    StoreIs(digest, HELD);
    OrderIsByAge(digest, HELD);
    TwelveFit(digest, HELD);
    ElevenFit(digest);
    FirstInOrder(digest, HELD);
    OldestGoesAlone(Store(digest, HELD), Order(digest, HELD),
                    MAX_EMAIL_ATTACHMENT_BYTES, MAX_EMAIL_ATTACHMENT_FILES, MIN_STORE_BYTES);
  }

  lemma ThirteenthLeads(digest: Bytes -> Bytes, isJson: Parser)
    requires Ready(digest) && |digest(Big(HELD))| == 32
    ensures var c := Call(digest, HELD).conditions;
            Saved(Store(digest, HELD), digest(Big(HELD)), "text/plain", Big(HELD), isJson, c)
            == (Full(digest), Ok(DataName(digest, HELD)))
  {
    hide Saved, Store, Order, TypeFile, Name, Evicted;
    OnlyTheFirstGoes(digest);
    NotYetThere(digest, HELD, HELD);
    SaveAdds(digest(Big(HELD)), Store(digest, HELD), Big(HELD), isJson, Call(digest, HELD).conditions);
  }

  lemma ThirteenthIsAccepted(digest: Bytes -> Bytes, isJson: Parser)
    requires Ready(digest)
    ensures Accepted(Store(digest, HELD), digest, isJson, [Call(digest, HELD)], Full(digest))
  {
    hide Saved, Store, Order, Full, DataName;
    Widths(digest, HELD);
    StoreIs(digest, HELD);
    ThirteenthLeads(digest, isJson);
    assert [Call(digest, HELD)][1..] == [];
  }

  /** A disk with so much free that the allowance is at its ceiling. */
  ghost function Again(digest: Bytes -> Bytes): SaveCall
    requires Ready(digest)
  {
    SaveCall("text/plain", Big(0),
             Conditions(FullOrder(digest), {}, HELD + 1, Some((64 * 1024 * 1024, 4096)), Whole, false))
  }

  lemma FullIsListed(digest: Bytes -> Bytes)
    requires Ready(digest)
    ensures var (files, order) := (Full(digest), FullOrder(digest));
            Lists(order, files) && |order| == 2 * HELD + 1 && Total(files, order) <= MIN_STORE_BYTES + 40
  {
    hide Store, Order, TypeFile, DataName, Total, Evicted, Lists, Encode, Fits, ByAge;
    StoreIs(digest, HELD);
    OrderIsByAge(digest, HELD);
    OnlyTheFirstGoes(digest);
    TwelveFit(digest, HELD);
    ElevenFit(digest);
    var (files, order) := (Store(digest, HELD), Order(digest, HELD));
    RoomIsRoom(files, order, MAX_EMAIL_ATTACHMENT_BYTES, MAX_EMAIL_ATTACHMENT_FILES, MIN_STORE_BYTES);
    var left, name := files - {DataName(digest, 0)}, DataName(digest, HELD);
    NotYetThere(digest, HELD, HELD);
    NamesAreApart(digest, HELD, HELD);
    EncodedIsShort("text/plain");
    OneMoreFile(left, order[1..], name, Data(HELD));
    OneMoreFile(left[name := Data(HELD)], order[1..] + [name], TypeFile(name), Declared(HELD));
  }

  /**
   Thirteen files of the largest size are saved into an empty store on a disk that does
   not say how much is free, all of them accepted. The allowance holds twelve, so the
   oldest data gives way to the thirteenth and leaves its type. Then the disk says it
   has plenty free, nothing has to give way, and the first file's bytes are refused.
   */
  lemma WhatItHeldIsRefused(digest: Bytes -> Bytes, isJson: Parser)
    requires Ready(digest)
    ensures var (calls, again) := (Calls(digest, HELD + 1), Again(digest));
            && Accepted(map[], digest, isJson, calls, Full(digest))
            && |calls| == HELD + 1 && calls[0].bytes == again.bytes && calls[0].mediaType == again.mediaType
            && Possible(Full(digest), again.conditions)
            && |digest(again.bytes)| == 32
            && Saved(Full(digest), digest(again.bytes), again.mediaType, again.bytes, isJson, again.conditions).1
               == Err(Unavailable)
  {
    hide Saved, Store, Order, Name, Evicted, Lists, Accepted, Full, FullOrder;
    SavesAreAccepted(digest, isJson, HELD);
    ThirteenthIsAccepted(digest, isJson);
    AcceptedThenOne(map[], digest, isJson, Calls(digest, HELD), Store(digest, HELD), Call(digest, HELD), Full(digest));
    CallsBegin(digest, HELD + 1);
    Widths(digest, 0);
    FullIsListed(digest);
    LastIsRefused(digest, isJson);
  }

  lemma {:induction false} CallsBegin(digest: Bytes -> Bytes, n: nat)
    requires Ready(digest) && 0 < n <= HELD + 1
    ensures |Calls(digest, n)| == n && Calls(digest, n)[0] == Call(digest, 0)
  {
    if n > 1 {
      CallsBegin(digest, n - 1);
    }
  }

  lemma EnoughFits(digest: Bytes -> Bytes)
    requires Ready(digest)
    ensures Fits(Full(digest), ByAge(Full(digest), FullOrder(digest)),
                 MAX_EMAIL_ATTACHMENT_BYTES, MAX_EMAIL_ATTACHMENT_FILES, MAX_STORE_BYTES)
  {
    hide Full, FullOrder, ByAge, Total;
    FullIsListed(digest);
    AgeOrderLists(Full(digest), FullOrder(digest));
  }

  lemma PlaintextIsTaken(bytes: Bytes, isJson: Parser)
    ensures KindOf(Normalized("text/plain")) == Plaintext && AttachmentKind("text/plain", bytes, isJson).Ok?
  {
    hide KindOf, Normalized, Essence;
    PlaintextIsPlain();
  }

  lemma NamesAre(digest: Bytes -> Bytes, k: nat)
    requires Ready(digest) && k <= HELD && |digest(Big(k))| == 32
    ensures DataName(digest, k) == Name(digest(Big(k)), Plaintext)
  {
  }

  lemma LastIsRefused(digest: Bytes -> Bytes, isJson: Parser)
    requires Ready(digest) && |digest(Big(0))| == 32 && |digest(Big(HELD))| == 32
    requires Possible(Full(digest), Again(digest).conditions)
    ensures Saved(Full(digest), digest(Big(0)), "text/plain", Big(0), isJson, Again(digest).conditions).1
            == Err(Unavailable)
  {
    hide Saved, Store, Order, Full, Name, TypeFile, Evicted, FullOrder, Fits, ByAge, KindOf, Normalized, Essence,
         Lists, Big, AttachmentKind, DataName, Total;
    var other, again := Call(digest, HELD), Again(digest);
    PlaintextIsTaken(Big(0), isJson);
    NamesAre(digest, 0);
    NamesAre(digest, HELD);
    StoreIs(digest, HELD);
    OrderIsByAge(digest, HELD);
    FirstInOrder(digest, HELD);
    StoreHas(digest, HELD, 0);
    TwelveFit(digest, HELD);
    ElevenFit(digest);
    NotYetThere(digest, HELD, HELD);
    NamesAreApart(digest, 0, HELD);
    EnoughFits(digest);
    ThirteenthLeads(digest, isJson);
    GrownDiskRefusesWhatItHeld(Store(digest, HELD), digest, isJson, other, again);
  }
}
