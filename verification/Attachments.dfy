/** Files an operator drops into a session, kept under names made of their own content. */
module Attachments {
  import opened Options
  import opened Utf8
  import opened MediaTypes
  import opened Text
  import opened PrivateStore

  const MAX_ATTACHMENT_BYTES: nat := 32 * 1024 * 1024
  const DISK_PERCENT: nat := 5
  const MAX_ATTACHMENT_FILES: nat := 512
  const MAX_ATTACHMENT_AGE: int := 7 * 24 * 60 * 60
  const DIGITS: nat := 20

  datatype AttachmentError = InvalidSignature | InvalidSize | Capacity | Unavailable | NotFound

  /** The extension a kind of file is kept under once its bytes agree with it. */
  function Extension(kind: Kind): string {
    match kind
    case Png => "png"
    case Jpeg => "jpg"
    case Gif => "gif"
    case Webp => "webp"
    case Pdf => "pdf"
    case Zip => "zip"
    case Xlsx => "xlsx"
    case Docx => "docx"
    case Pptx => "pptx"
    case Xls => "xls"
    case Mp4 => "mp4"
    case Gzip => "gz"
    case XGzip => "gz"
    case Tar => "tar"
    case Csv => "csv"
    case Markdown => "md"
    case Plaintext => "txt"
    case Json => "json"
    case _ => "bin"
  }

  function ValidatedExtension(mediaType: string, bytes: Bytes): Result<string, AttachmentError> {
    var kind := KindOf(Normalized(mediaType));
    if Signed(kind, bytes) then Ok(Extension(kind)) else Err(InvalidSignature)
  }

  function MediaTypeForName(name: string): Option<string> {
    var parts := SplitOnce(name);
    if parts.None? || |parts.value.0| != DIGITS || !AllHex(parts.value.0) then None
    else KindForExtension(parts.value.1)
  }

  function KindForExtension(extension: string): Option<string> {
    match extension
    case "png" => Some(TypeName(Png))
    case "jpg" => Some(TypeName(Jpeg))
    case "webp" => Some(TypeName(Webp))
    case "gif" => Some(TypeName(Gif))
    case "csv" => Some(TypeName(Csv))
    case "md" => Some(TypeName(Markdown))
    case "txt" => Some(TypeName(Plaintext))
    case "json" => Some(TypeName(Json))
    case "pdf" => Some(TypeName(Pdf))
    case "zip" => Some(TypeName(Zip))
    case "xlsx" => Some(TypeName(Xlsx))
    case "docx" => Some(TypeName(Docx))
    case "pptx" => Some(TypeName(Pptx))
    case "xls" => Some(TypeName(Xls))
    case "mp4" => Some(TypeName(Mp4))
    case "gz" => Some(TypeName(Gzip))
    case "tar" => Some(TypeName(Tar))
    case "bin" => Some(TypeName(OctetStream))
    case _ => None
  }

  function Name(digest: Bytes, kind: Kind): string
    requires |digest| == 32
  {
    Hex(digest)[..DIGITS] + "." + Extension(kind)
  }

  // ---------------------------------------------------------------- the store

  /** What a save meets: directory reads before and after pruning, files that will not go, and the disk. */
  datatype Conditions = Conditions(
    listing: seq<string>, relisting: seq<string>, stuck: set<string>, now: int, free: Option<(nat, nat)>, write: Write)
  {
    function Allowance(): nat {
      StoreAllowance(free, DISK_PERCENT)
    }
  }

  /** Removes what is past its age in the order it is listed, and stops at one that will not go. */
  function Pruned(files: Files, listing: seq<string>, cutoff: int, stuck: set<string>): (Files, bool) {
    if listing == [] then (files, true)
    else if AgeOf(files, listing[0]) >= cutoff then Pruned(files, listing[1..], cutoff, stuck)
    else if listing[0] in stuck then (files, false)
    else Pruned(files - {listing[0]}, listing[1..], cutoff, stuck)
  }

  function AfterPruning(files: Files, c: Conditions): Files {
    Pruned(files, c.listing, c.now - MAX_ATTACHMENT_AGE, c.stuck).0
  }

  function PruneSucceeds(files: Files, c: Conditions): bool {
    Pruned(files, c.listing, c.now - MAX_ATTACHMENT_AGE, c.stuck).1
  }

  function AfterEviction(files: Files, c: Conditions, incoming: nat): Files {
    files - Evicted(files, c.relisting, c.stuck, incoming, MAX_ATTACHMENT_FILES, c.Allowance())
  }

  ghost predicate Possible(files: Files, c: Conditions) {
    && Lists(c.listing, files)
    && Lists(c.relisting, AfterPruning(files, c))
  }

  predicate Saveable(mediaType: string, bytes: Bytes) {
    0 < |bytes| <= MAX_ATTACHMENT_BYTES && Signed(KindOf(Normalized(mediaType)), bytes)
  }

  /** The files after a save, and what it answers. */
  function Saved(files: Files, digest: Bytes, mediaType: string, bytes: Bytes, c: Conditions):
    (Files, Result<string, AttachmentError>)
    requires |digest| == 32
  {
    if |bytes| == 0 || |bytes| > MAX_ATTACHMENT_BYTES then (files, Err(InvalidSize))
    else if !Saveable(mediaType, bytes) then (files, Err(InvalidSignature))
    else
      var pruned := AfterPruning(files, c);
      var name := Name(digest, KindOf(Normalized(mediaType)));
      if !PruneSucceeds(files, c) then (pruned, Err(Unavailable))
      else if name in pruned then (pruned, Ok(name))
      else
        var room := AfterEviction(pruned, c, |bytes|);
        if |bytes| > c.Allowance() then (room, Err(Capacity))
        else
          var (end, written) := AfterWrite(room, name, File(Blob(bytes), c.now), c.write, c.stuck);
          (end, if written then Ok(name) else Err(Unavailable))
  }

  function ReadOf(files: Files, name: string): Result<(Bytes, string), AttachmentError> {
    var mediaType := MediaTypeForName(name);
    if mediaType.None? || name !in files then Err(NotFound)
    else
      var bytes := files[name].Bytes();
      if |bytes| == 0 || |bytes| > MAX_ATTACHMENT_BYTES || ValidatedExtension(mediaType.value, bytes).Err?
      then Err(NotFound)
      else Ok((bytes, mediaType.value))
  }

  class AttachmentStore {
    const root: Directory
    const digest: Bytes -> Bytes

    constructor (root: Directory, digest: Bytes -> Bytes)
      ensures this.root == root && this.digest == digest
    {
      this.root, this.digest := root, digest;
    }

    method PruneExpired(listing: seq<string>, cutoff: int, stuck: set<string>) returns (ok: bool)
      requires forall i, j :: 0 <= i < j < |listing| ==> listing[i] != listing[j]
      modifies root
      ensures (root.files, ok) == Pruned(old(root.files), listing, cutoff, stuck)
    {
      var i := 0;
      while i < |listing|
        invariant 0 <= i <= |listing|
        invariant Pruned(root.files, listing[i..], cutoff, stuck) == Pruned(old(root.files), listing, cutoff, stuck)
      {
        assert listing[i..][1..] == listing[i + 1..];
        if AgeOf(root.files, listing[i]) < cutoff {
          if listing[i] in stuck {
            return false;
          }
          root.files := root.files - {listing[i]};
        }
        i := i + 1;
      }
      ok := true;
    }

    method Save(mediaType: string, bytes: Bytes, c: Conditions) returns (saved: Result<string, AttachmentError>)
      requires |digest(bytes)| == 32 && Possible(root.files, c)
      modifies root
      ensures (root.files, saved) == Saved(old(root.files), digest(bytes), mediaType, bytes, c)
    {
      hide Signed, Hex, Evicted, Extension;
      if |bytes| == 0 || |bytes| > MAX_ATTACHMENT_BYTES {
        return Err(InvalidSize);
      }
      var extension := ValidatedExtension(mediaType, bytes);
      if extension.Err? {
        return Err(extension.error);
      }
      var pruned := PruneExpired(c.listing, c.now - MAX_ATTACHMENT_AGE, c.stuck);
      if !pruned {
        return Err(Unavailable);
      }
      var hex := HexPrefix(digest(bytes), DIGITS);
      var name := hex + "." + extension.value;
      if name in root.files {
        return Ok(name);
      }
      var fits := root.MakeRoomFor(c.relisting, c.stuck, |bytes|, MAX_ATTACHMENT_FILES, c.Allowance());
      if !fits {
        return Err(Capacity);
      }
      var written := root.WritePrivate(name, File(Blob(bytes), c.now), c.write, c.stuck);
      if !written {
        return Err(Unavailable);
      }
      saved := Ok(name);
    }

    method Read(name: string) returns (answer: Result<(Bytes, string), AttachmentError>)
      ensures answer == ReadOf(root.files, name)
    {
      var mediaType := MediaTypeForName(name);
      if mediaType.None? || name !in root.files {
        return Err(NotFound);
      }
      var bytes := root.files[name].Bytes();
      if |bytes| == 0 || |bytes| > MAX_ATTACHMENT_BYTES {
        return Err(NotFound);
      }
      if ValidatedExtension(mediaType.value, bytes).Err? {
        return Err(NotFound);
      }
      answer := Ok((bytes, mediaType.value));
    }
  }

  // ------------------------------------------------------- what a save answers

  /** Pruning succeeds exactly when nothing past its age is stuck, and then leaves what is young. */
  lemma {:induction false} PruningLeavesTheYoung(files: Files, listing: seq<string>, cutoff: int, stuck: set<string>)
    requires forall n :: n in listing ==> n in files
    requires forall i, j :: 0 <= i < j < |listing| ==> listing[i] != listing[j]
    ensures var (left, ok) := Pruned(files, listing, cutoff, stuck);
            && (ok <==> forall n :: n in listing && files[n].modified < cutoff ==> n !in stuck)
            && (ok ==> left == map n | n in files && (n !in listing || files[n].modified >= cutoff) :: files[n])
  {
    if listing != [] {
      var first := listing[0];
      assert listing == [first] + listing[1..];
      if files[first].modified >= cutoff {
        PruningLeavesTheYoung(files, listing[1..], cutoff, stuck);
      } else if first !in stuck {
        PruningLeavesTheYoung(files - {first}, listing[1..], cutoff, stuck);
      }
    }
  }

  /** The files at most a week old when a save begins. */
  ghost function Young(files: Files, c: Conditions): Files {
    map n | n in files && c.now - files[n].modified <= 604800 :: files[n]
  }

  ghost predicate AllOldCanGo(files: Files, c: Conditions) {
    forall n :: n in files && c.now - files[n].modified > 604800 ==> n !in c.stuck
  }

  lemma PruningLeavesAWeek(files: Files, c: Conditions)
    requires Possible(files, c)
    ensures PruneSucceeds(files, c) <==> AllOldCanGo(files, c)
    ensures PruneSucceeds(files, c) ==> AfterPruning(files, c) == Young(files, c)
  {
    PruningLeavesTheYoung(files, c.listing, c.now - MAX_ATTACHMENT_AGE, c.stuck);
  }

  /**
   What a save answers, and what it leaves. It refuses a size or bytes that do not
   match their type and touches nothing; it takes any other file unless one past its
   age is stuck, or the file is new and could not be written. A new file is then there
   as it was given, beside the young files of before that did not give way: no more
   than 512 files, in no more than a twentieth of the free space.
   */
  lemma SavedExactlyWhen(files: Files, digest: Bytes, mediaType: string, bytes: Bytes, c: Conditions)
    requires |digest| == 32 && Possible(files, c)
    ensures var (saved, answer) := Saved(files, digest, mediaType, bytes, c);
            var kind := KindOf(Normalized(mediaType));
            var name, young := Name(digest, kind), Young(files, c);
            && (answer == Err(InvalidSize) <==> bytes == [] || |bytes| > 33554432)
            && (answer == Err(InvalidSignature) <==> 0 < |bytes| <= 33554432 && !Signed(kind, bytes))
            && (answer == Err(InvalidSize) || answer == Err(InvalidSignature) ==> saved == files)
            && (answer.Ok? <==> 0 < |bytes| <= 33554432 && Signed(kind, bytes) && AllOldCanGo(files, c)
                                && (name in young || c.write.Whole?))
            && (answer.Ok? ==> answer.value == name)
            && (answer.Ok? && name in young ==> saved == young)
            && (answer.Ok? && name !in young ==>
                  var gone := Evicted(young, c.relisting, c.stuck, |bytes|, 512, StoreAllowance(c.free, 5));
                  saved == (young - gone)[name := File(Blob(bytes), c.now)])
  {
    hide Signed, Name, KindOf, Normalized, Evicted, Young, AllOldCanGo, Pruned;
    PruningLeavesAWeek(files, c);
  }

  // -------------------------------------------------- writer and reader agree

  /** The type a stored extension reads back as. */
  function Canonical(kind: Kind): Kind {
    if kind == XGzip then Gzip else if kind == Rfc822 || kind == Other then OctetStream else kind
  }

  lemma ExtensionReadsBack(kind: Kind)
    ensures KindForExtension(Extension(kind)) == Some(TypeName(Canonical(kind)))
    ensures Extension(Canonical(kind)) == Extension(kind)
  {
    hide TypeName;
  }

  lemma CanonicalIsSigned(kind: Kind, bytes: Bytes)
    requires Signed(kind, bytes)
    ensures Signed(Canonical(kind), bytes)
  {
  }

  /**
   Whatever was declared, the name a save makes is twenty hexadecimal digits, a stop
   and an extension, which read back as a type under which the same bytes pass the
   same check and get the same extension.
   */
  lemma NameReadsBack(digest: Bytes, kind: Kind, bytes: Bytes)
    requires |digest| == 32 && Signed(kind, bytes)
    ensures MediaTypeForName(Name(digest, kind)) == Some(TypeName(Canonical(kind)))
    ensures ValidatedExtension(TypeName(Canonical(kind)), bytes) == Ok(Extension(kind))
  {
    hide TypeName, Hex, KindOf, Normalized, Signed, Extension, KindForExtension;
    SplitOfJoined(Hex(digest)[..DIGITS], Extension(kind));
    ExtensionReadsBack(kind);
    CanonicalIsSigned(kind, bytes);
    NamesArePlain(Canonical(kind));
    PlainIsNormalized(TypeName(Canonical(kind)));
    CanonicalIsKnown(kind);
    KindOfItsName(Canonical(kind));
  }

  /** What is declared so is taken with this kind's signature, and kept under an extension that reads as this type. */
  ghost predicate KeptUnder(declared: string, kind: Kind, extension: string, readsAs: string) {
    && (forall bytes :: ValidatedExtension(declared, bytes)
                        == if Signed(kind, bytes) then Ok(extension) else Err(InvalidSignature))
    && KindForExtension(extension) == Some(readsAs)
  }

  lemma KeptUnderItsOwn(kind: Kind)
    requires kind != Other
    ensures KeptUnder(TypeName(kind), kind, Extension(kind), TypeName(Canonical(kind)))
  {
    hide TypeName, KindOf, Normalized, Signed, Extension, KindForExtension;
    NamesArePlain(kind);
    PlainIsNormalized(TypeName(kind));
    KindOfItsName(kind);
    ExtensionReadsBack(kind);
  }

  /** The extension of each type that has one of its own. */
  lemma PicturesAndFilms()
    ensures KeptUnder("image/png", Png, "png", "image/png")
    ensures KeptUnder("image/jpeg", Jpeg, "jpg", "image/jpeg")
    ensures KeptUnder("image/gif", Gif, "gif", "image/gif")
    ensures KeptUnder("image/webp", Webp, "webp", "image/webp")
    ensures KeptUnder("video/mp4", Mp4, "mp4", "video/mp4")
  {
    hide KeptUnder;
    KeptUnderItsOwn(Png);
    KeptUnderItsOwn(Jpeg);
    KeptUnderItsOwn(Gif);
    KeptUnderItsOwn(Webp);
    KeptUnderItsOwn(Mp4);
  }

  lemma Documents()
    ensures KeptUnder("application/pdf", Pdf, "pdf", "application/pdf")
    ensures KeptUnder("application/vnd.ms-excel", Xls, "xls", "application/vnd.ms-excel")
    ensures KeptUnder("text/csv", Csv, "csv", "text/csv")
    ensures KeptUnder("text/markdown", Markdown, "md", "text/markdown")
    ensures KeptUnder("text/plain", Plaintext, "txt", "text/plain")
    ensures KeptUnder("application/json", Json, "json", "application/json")
  {
    hide KeptUnder;
    KeptUnderItsOwn(Pdf);
    KeptUnderItsOwn(Xls);
    KeptUnderItsOwn(Csv);
    KeptUnderItsOwn(Markdown);
    KeptUnderItsOwn(Plaintext);
    KeptUnderItsOwn(Json);
  }

  lemma ArchivesAndTheRest()
    ensures KeptUnder("application/zip", Zip, "zip", "application/zip")
    ensures KeptUnder("application/gzip", Gzip, "gz", "application/gzip")
    ensures KeptUnder("application/x-gzip", XGzip, "gz", "application/gzip")
    ensures KeptUnder("application/x-tar", Tar, "tar", "application/x-tar")
    ensures KeptUnder("application/octet-stream", OctetStream, "bin", "application/octet-stream")
    ensures KeptUnder("message/rfc822", Rfc822, "bin", "application/octet-stream")
  {
    hide KeptUnder;
    KeptUnderItsOwn(Zip);
    KeptUnderItsOwn(Gzip);
    KeptUnderItsOwn(XGzip);
    KeptUnderItsOwn(Tar);
    KeptUnderItsOwn(OctetStream);
    KeptUnderItsOwn(Rfc822);
  }

  /** The three types of an office file each keep a name of their own. */
  lemma OfficeFiles()
    ensures var office := "application/vnd.openxmlformats-officedocument.";
            && KeptUnder(office + "spreadsheetml.sheet", Xlsx, "xlsx", office + "spreadsheetml.sheet")
            && KeptUnder(office + "wordprocessingml.document", Docx, "docx", office + "wordprocessingml.document")
            && KeptUnder(office + "presentationml.presentation", Pptx, "pptx", office + "presentationml.presentation")
  {
    hide KeptUnder;
    var office := "application/vnd.openxmlformats-officedocument.";
    assert OPEN_XML == office;
    KeptUnderItsOwn(Xlsx);
    KeptUnderItsOwn(Docx);
    KeptUnderItsOwn(Pptx);
  }

  /** Whatever else is declared is kept without looking, as bytes of no known type. */
  lemma UnknownIsKeptAsItIs(mediaType: string, bytes: Bytes)
    requires KindOf(Normalized(mediaType)) == Other
    ensures ValidatedExtension(mediaType, bytes) == Ok("bin")
  {
    hide KindOf, Normalized;
  }

  /** Which names are of an attachment: twenty digits, a stop, and the extension of some type. */
  lemma NamesOfAttachments(digits: string, extension: string)
    requires forall i :: 0 <= i < |digits| ==> digits[i] in "0123456789abcdefABCDEF"
    ensures MediaTypeForName(digits + "." + extension)
            == if |digits| == 20 then KindForExtension(extension) else None
  {
    hide KindForExtension;
    forall i | 0 <= i < |digits|
      ensures IsHexDigit(digits[i])
    {
      HexDigitsAre(digits[i]);
    }
    SplitOfJoined(digits, extension);
  }

  /** What reading finds is a file under twenty hexadecimal digits, and neither empty nor past 32 MiB. */
  lemma FoundUnderItsDigits(files: Files, name: string)
    requires ReadOf(files, name).Ok?
    ensures name in files && ReadOf(files, name).value.0 == files[name].Bytes()
    ensures 0 < |files[name].Bytes()| <= 33554432
    ensures |name| > 20 && name[20] == '.' && forall i :: 0 <= i < 20 ==> name[i] in "0123456789abcdefABCDEF"
  {
    hide ValidatedExtension, KindForExtension, Encode;
    BeforeIsAPrefix(name, '.');
    forall i | 0 <= i < 20
      ensures name[i] in "0123456789abcdefABCDEF"
    {
      HexDigitsAre(name[i]);
    }
  }

  lemma CanonicalIsKnown(kind: Kind)
    ensures Canonical(kind) != Other
  {
  }

  /** Names of different kinds or digests differ. */
  lemma NameTellsTheDigest(a: Bytes, b: Bytes, kind: Kind, other: Kind)
    requires |a| == 32 && |b| == 32 && Name(a, kind) == Name(b, other)
    ensures Hex(a)[..DIGITS] == Hex(b)[..DIGITS] && Extension(kind) == Extension(other)
  {
    hide Extension, Hex;
    var n := Name(a, kind);
    assert n[..DIGITS] == Hex(a)[..DIGITS] && n[..DIGITS] == Hex(b)[..DIGITS];
    assert n[DIGITS + 1..] == Extension(kind) && n[DIGITS + 1..] == Extension(other);
  }

  /** Among these contents, twenty digits of the digest are enough to tell them apart. */
  ghost predicate Distinguishes(digest: Bytes -> Bytes, contents: set<Bytes>) {
    && (forall b :: b in contents ==> |digest(b)| == 32)
    && forall a, b :: a in contents && b in contents && Hex(digest(a))[..DIGITS] == Hex(digest(b))[..DIGITS] ==> a == b
  }

  /** Every file was put there by a save of one of these contents. */
  ghost predicate Sound(files: Files, digest: Bytes -> Bytes, contents: set<Bytes>) {
    forall n :: n in files ==> IsKept(n, files[n], digest, contents)
  }

  ghost predicate IsKept(name: string, f: File, digest: Bytes -> Bytes, contents: set<Bytes>) {
    && f.content.Blob? && f.content.bytes in contents
    && 0 < |f.content.bytes| <= MAX_ATTACHMENT_BYTES && |digest(f.content.bytes)| == 32
    && exists kind :: Signed(kind, f.content.bytes) && name == Name(digest(f.content.bytes), kind)
  }

  lemma {:induction false} PrunedIsSmaller(files: Files, listing: seq<string>, cutoff: int, stuck: set<string>)
    ensures var left := Pruned(files, listing, cutoff, stuck).0;
            forall n :: n in left ==> n in files && left[n] == files[n]
  {
    if listing != [] {
      PrunedIsSmaller(files, listing[1..], cutoff, stuck);
      PrunedIsSmaller(files - {listing[0]}, listing[1..], cutoff, stuck);
    }
  }

  /** Whether a save gets as far as writing its file. */
  predicate Writes(files: Files, digest: Bytes, mediaType: string, bytes: Bytes, c: Conditions)
    requires |digest| == 32
  {
    && Saveable(mediaType, bytes) && PruneSucceeds(files, c) && |bytes| <= c.Allowance()
    && Name(digest, KindOf(Normalized(mediaType))) !in AfterPruning(files, c)
  }

  /** Whether writing the file would leave a part of it behind. */
  predicate Tears(digest: Bytes, mediaType: string, bytes: Bytes, c: Conditions)
    requires |digest| == 32
  {
    c.write.Torn? && c.write.written < |bytes| && Name(digest, KindOf(Normalized(mediaType))) in c.stuck
  }

  /** A save keeps every file under a name made of its own content, unless it leaves a part of one behind. */
  lemma SaveKeepsSound(
    files: Files, digest: Bytes -> Bytes, contents: set<Bytes>, mediaType: string, bytes: Bytes, c: Conditions)
    requires Sound(files, digest, contents) && Distinguishes(digest, contents) && bytes in contents
    ensures Sound(Saved(files, digest(bytes), mediaType, bytes, c).0, digest, contents)
            <==> !(Writes(files, digest(bytes), mediaType, bytes, c) && Tears(digest(bytes), mediaType, bytes, c))
  {
    hide Signed, Evicted, Name, Pruned, KindOf, Normalized;
    PrunedIsSmaller(files, c.listing, c.now - MAX_ATTACHMENT_AGE, c.stuck);
    var name := Name(digest(bytes), KindOf(Normalized(mediaType)));
    var f := File(Blob(bytes), c.now);
    if Writes(files, digest(bytes), mediaType, bytes, c) && c.write.Torn? && name in c.stuck {
      var room := AfterEviction(AfterPruning(files, c), c, |bytes|);
      var end := Saved(files, digest(bytes), mediaType, bytes, c).0;
      assert end == room[name := f.Cut(c.write.written)];
      assert name in end && end[name] == f.Cut(c.write.written);
      if c.write.written < |bytes| {
        PartIsNotKept(name, digest, contents, bytes, KindOf(Normalized(mediaType)), f, c.write.written);
      } else {
        assert bytes[..|bytes|] == bytes;
        assert IsKept(name, f, digest, contents);
      }
    }
  }

  lemma PartIsNotKept(
    name: string, digest: Bytes -> Bytes, contents: set<Bytes>, bytes: Bytes, kind: Kind, f: File, written: nat)
    requires Distinguishes(digest, contents) && bytes in contents && name == Name(digest(bytes), kind)
    requires f.content == Blob(bytes) && written < |bytes|
    ensures !IsKept(name, f.Cut(written), digest, contents)
  {
    hide Signed, Name;
    var part := f.Cut(written);
    if IsKept(name, part, digest, contents) {
      var other :| Signed(other, part.content.bytes) && name == Name(digest(part.content.bytes), other);
      NameTellsTheDigest(digest(bytes), digest(part.content.bytes), kind, other);
    }
  }

  /** A file found under a name holds the one content that name is made from. */
  lemma FoundIsSaved(files: Files, digest: Bytes -> Bytes, contents: set<Bytes>, bytes: Bytes, kind: Kind)
    requires Sound(files, digest, contents) && Distinguishes(digest, contents)
    requires bytes in contents && Signed(kind, bytes) && 0 < |bytes| <= MAX_ATTACHMENT_BYTES
    ensures var name := Name(digest(bytes), kind);
            ReadOf(files, name) == if name in files then Ok((bytes, TypeName(Canonical(kind)))) else Err(NotFound)
  {
    hide Signed, Hex, Name, TypeName, MediaTypeForName, ValidatedExtension;
    var name := Name(digest(bytes), kind);
    NameReadsBack(digest(bytes), kind, bytes);
    if name in files {
      assert IsKept(name, files[name], digest, contents);
      var found := files[name].content.bytes;
      var other :| Signed(other, found) && name == Name(digest(found), other);
      NameTellsTheDigest(digest(bytes), digest(found), kind, other);
    }
  }

  /** One save, as made of a store. */
  datatype SaveCall = SaveCall(mediaType: string, bytes: Bytes, conditions: Conditions)

  function After(files: Files, digest: Bytes -> Bytes, calls: seq<SaveCall>): Files
    requires forall call :: call in calls ==> |digest(call.bytes)| == 32
    decreases |calls|
  {
    if calls == [] then files
    else
      var first := calls[0];
      After(Saved(files, digest(first.bytes), first.mediaType, first.bytes, first.conditions).0, digest, calls[1..])
  }

  /** One save after the other, each of what the one before it left. */
  lemma {:induction false} AfterOneMore(files: Files, digest: Bytes -> Bytes, calls: seq<SaveCall>, last: SaveCall)
    requires forall call :: call in calls + [last] ==> |digest(call.bytes)| == 32
    ensures After(files, digest, []) == files
    ensures last in calls + [last] && forall call :: call in calls ==> call in calls + [last]
    ensures After(files, digest, calls + [last])
            == Saved(After(files, digest, calls), digest(last.bytes), last.mediaType, last.bytes, last.conditions).0
    decreases |calls|
  {
    hide Saved;
    assert (calls + [last])[|calls|] == last;
    assert forall call :: call in calls ==> call in calls + [last];
    if calls == [] {
      assert calls + [last] == [last] && [last][1..] == [];
    } else {
      var first := calls[0];
      assert (calls + [last])[1..] == calls[1..] + [last];
      AfterOneMore(Saved(files, digest(first.bytes), first.mediaType, first.bytes, first.conditions).0,
                   digest, calls[1..], last);
    }
  }

  /** Whether a save that gets as far as writing would leave a part of its file behind. */
  predicate CutShort(digest: Bytes -> Bytes, call: SaveCall) {
    |digest(call.bytes)| == 32 && Tears(digest(call.bytes), call.mediaType, call.bytes, call.conditions)
  }

  lemma {:induction false} SavesKeepSound(
    files: Files, digest: Bytes -> Bytes, contents: set<Bytes>, calls: seq<SaveCall>)
    requires Sound(files, digest, contents) && Distinguishes(digest, contents)
    requires forall call :: call in calls ==> call.bytes in contents && !CutShort(digest, call)
    ensures Sound(After(files, digest, calls), digest, contents)
    decreases |calls|
  {
    if calls != [] {
      hide Sound, Saved, Writes, Tears;
      var first := calls[0];
      assert !CutShort(digest, first);
      SaveKeepsSound(files, digest, contents, first.mediaType, first.bytes, first.conditions);
      SavesKeepSound(Saved(files, digest(first.bytes), first.mediaType, first.bytes, first.conditions).0,
                     digest, contents, calls[1..]);
    }
  }

  /**
   What a save accepts reads back. Right away the same bytes come back, under a type
   that keeps them under the same extension; and after any saves of anything else that
   leave no part of a file behind, pruned or evicted or refused as they may be, the
   name gives back those bytes or is not found. It never gives anything else.
   */
  lemma SavedReadsBack(
    files: Files, digest: Bytes -> Bytes, contents: set<Bytes>, call: SaveCall, later: seq<SaveCall>)
    requires Sound(files, digest, contents) && Distinguishes(digest, contents) && call.bytes in contents
    requires forall l :: l in later ==> l.bytes in contents && !CutShort(digest, l)
    requires Saved(files, digest(call.bytes), call.mediaType, call.bytes, call.conditions).1.Ok?
    ensures var (saved, answer) := Saved(files, digest(call.bytes), call.mediaType, call.bytes, call.conditions);
            var kind := KindOf(Normalized(call.mediaType));
            var name, end := answer.value, After(saved, digest, later);
            && ReadOf(saved, name) == Ok((call.bytes, TypeName(Canonical(kind))))
            && ValidatedExtension(TypeName(Canonical(kind)), call.bytes)
               == ValidatedExtension(call.mediaType, call.bytes)
            && ReadOf(end, name) == if name in end then ReadOf(saved, name) else Err(NotFound)
  {
    hide Signed, Name, TypeName, ReadOf, Evicted, Pruned, KindOf, Normalized, Extension, Sound, Distinguishes, After;
    assert forall b :: b in contents ==> |digest(b)| == 32 by { Widths(digest, contents); }
    var saved := Saved(files, digest(call.bytes), call.mediaType, call.bytes, call.conditions).0;
    var kind := KindOf(Normalized(call.mediaType));
    SaveKeepsSound(files, digest, contents, call.mediaType, call.bytes, call.conditions);
    SavesKeepSound(saved, digest, contents, later);
    FoundIsSaved(saved, digest, contents, call.bytes, kind);
    FoundIsSaved(After(saved, digest, later), digest, contents, call.bytes, kind);
    NameReadsBack(digest(call.bytes), kind, call.bytes);
  }

  lemma Widths(digest: Bytes -> Bytes, contents: set<Bytes>)
    requires Distinguishes(digest, contents)
    ensures forall b :: b in contents ==> |digest(b)| == 32
  {
  }

  /**
   What a part left behind leads to, from an empty store. Two bytes of plain text are
   cut short after the first, and what arrived will not go: the store says it is
   unavailable. Saving the same two bytes again is accepted, since a file of that name
   is there, and reading that name answers the first byte alone.
   */
  lemma TornWriteIsServed(digest: Bytes)
    requires |digest| == 32
    ensures var name := Name(digest, Plaintext);
            var cut := Conditions([], [], {name}, 0, None, Torn(1));
            var (files, answer) := Saved(map[], digest, "text/plain", [65, 66], cut);
            var again := Conditions([name], [name], {}, 0, None, Whole);
            && Possible(map[], cut) && answer == Err(Unavailable)
            && Possible(files, again) && Saved(files, digest, "text/plain", [65, 66], again) == (files, Ok(name))
            && ReadOf(files, name) == Ok(([65], "text/plain"))
  {
    hide Hex, KindOf, Normalized, MediaTypeForName, Evicted;
    PlaintextIsPlain();
    var name := Name(digest, Plaintext);
    var cut := Conditions([], [], {name}, 0, None, Torn(1));
    NothingToEvict(2, MAX_ATTACHMENT_FILES, cut.stuck, cut.Allowance());
    var whole := File(Blob([65, 66]), 0);
    assert [65, 66][..1] == [65];
    var files: Files := map[name := File(Blob([65]), 0)];
    assert AfterWrite(map[], name, whole, cut.write, cut.stuck) == (files, false);
    assert AfterEviction(map[], cut, 2) == map[];
    assert Saved(map[], digest, "text/plain", [65, 66], cut) == (files, Err(Unavailable));
    NameReadsBack(digest, Plaintext, [65]);
    assert ReadOf(files, name) == Ok(([65], "text/plain"));
    var again := Conditions([name], [name], {}, 0, None, Whole);
    OneIsYoung(files, name, -MAX_ATTACHMENT_AGE, {});
    assert AfterPruning(files, again) == files;
  }

  lemma OneIsYoung(files: Files, name: string, cutoff: int, stuck: set<string>)
    requires AgeOf(files, name) >= cutoff
    ensures Pruned(files, [name], cutoff, stuck) == (files, true)
  {
    assert [name][1..] == [];
  }

  /**
   A file of a size that may be saved is never refused for want of room, and when
   nothing is stuck a file that is written leaves the store within its bounds.
   */
  lemma NeverFull(files: Files, digest: Bytes, mediaType: string, bytes: Bytes, c: Conditions)
    requires |digest| == 32 && Possible(files, c)
    ensures Saved(files, digest, mediaType, bytes, c).1 != Err(Capacity)
    ensures var (saved, answer) := Saved(files, digest, mediaType, bytes, c);
            answer.Ok? && answer.value !in AfterPruning(files, c) && c.stuck == {} ==>
            exists listing :: Lists(listing, saved) && |listing| <= MAX_ATTACHMENT_FILES
                              && Total(saved, listing) <= c.Allowance()
  {
    hide Signed, Name, Pruned, KindOf, Normalized, Total, Evicted, Spared, ByAge;
    var (saved, answer) := Saved(files, digest, mediaType, bytes, c);
    var pruned := AfterPruning(files, c);
    if answer.Ok? && answer.value !in pruned && c.stuck == {} {
      var room := AfterEviction(pruned, c, |bytes|);
      RoomIsRoom(pruned, c.relisting, |bytes|, MAX_ATTACHMENT_FILES, c.Allowance());
      var spared := Spared(pruned, ByAge(pruned, c.relisting), |bytes|, MAX_ATTACHMENT_FILES, c.Allowance());
      OneMoreFile(room, spared, answer.value, File(Blob(bytes), c.now));
      assert saved == room[answer.value := File(Blob(bytes), c.now)];
    }
  }
}
