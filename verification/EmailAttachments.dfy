/** Files that came with an email, each kept beside the type it was declared with. */
module EmailAttachments {
  import opened Options
  import opened Utf8
  import opened MediaTypes
  import opened PrivateStore
  import Sorting
  import opened Text

  const MAX_EMAIL_ATTACHMENT_BYTES: nat := 10 * 1024 * 1024
  const DISK_PERCENT: nat := 5
  const MAX_EMAIL_ATTACHMENT_FILES: nat := 2048
  const DIGITS: nat := 32

  datatype EmailAttachmentError = InvalidSize | InvalidSignature | Capacity | Unavailable | NotFound

  /** Parsing JSON is out of sight. */
  type Parser = Bytes -> bool

  function Extension(kind: Kind): string {
    match kind
    case Png => "png"
    case Jpeg => "jpg"
    case Gif => "gif"
    case Webp => "webp"
    case Pdf => "pdf"
    case Zip => "zip"
    case Docx => "zip"
    case Xlsx => "zip"
    case Pptx => "zip"
    case Plaintext => "txt"
    case Csv => "csv"
    case Json => "json"
    case Rfc822 => "eml"
    case _ => "bin"
  }

  /** Whether the bytes are what this store asks of the declared type. */
  predicate Matches(kind: Kind, bytes: Bytes, isJson: Parser) {
    if kind in {Png, Jpeg, Gif, Webp, Pdf, Zip, Docx, Xlsx, Pptx} then Signed(kind, bytes)
    else kind == Json ==> isJson(bytes)
  }

  function AttachmentKind(mediaType: string, bytes: Bytes, isJson: Parser):
    Result<(string, string), EmailAttachmentError>
  {
    var kind := KindOf(Normalized(mediaType));
    if Matches(kind, bytes, isJson) then Ok((Extension(kind), Essence(mediaType))) else Err(InvalidSignature)
  }

  predicate Alphanumeric(c: char) {
    '0' <= c <= '9' || 'a' <= c <= 'z' || 'A' <= c <= 'Z'
  }

  predicate IsStorageName(name: string) {
    var parts := SplitOnce(name);
    && parts.Some? && |parts.value.0| == DIGITS && AllHex(parts.value.0)
    && 0 < |parts.value.1| <= 8
    && forall i :: 0 <= i < |parts.value.1| ==> Alphanumeric(parts.value.1[i])
  }

  function Name(digest: Bytes, kind: Kind): string
    requires |digest| == 32
  {
    Hex(digest)[..DIGITS] + "." + Extension(kind)
  }

  function TypeFile(name: string): string {
    name + ".type"
  }

  /** What a save meets. A data file that is taken back stays if it is stuck. */
  datatype Conditions = Conditions(
    listing: seq<string>, stuck: set<string>, now: int, free: Option<(nat, nat)>, write: Write, typeWriteFails: bool)
  {
    function Allowance(): nat {
      StoreAllowance(free, DISK_PERCENT)
    }
  }

  ghost predicate Possible(files: Files, c: Conditions) {
    Lists(c.listing, files)
  }

  function AfterEviction(files: Files, c: Conditions, incoming: nat): Files {
    files - Evicted(files, c.listing, c.stuck, incoming, MAX_EMAIL_ATTACHMENT_FILES, c.Allowance())
  }

  /** The files after a save, and what it answers. */
  function Saved(files: Files, digest: Bytes, mediaType: string, bytes: Bytes, isJson: Parser, c: Conditions):
    (Files, Result<string, EmailAttachmentError>)
    requires |digest| == 32
  {
    var kind := KindOf(Normalized(mediaType));
    if |bytes| == 0 || |bytes| > MAX_EMAIL_ATTACHMENT_BYTES then (files, Err(InvalidSize))
    else if !Matches(kind, bytes, isJson) then (files, Err(InvalidSignature))
    else
      var name := Name(digest, kind);
      if name in files then (files, Ok(name))
      else
        var room := AfterEviction(files, c, |bytes|);
        var data := File(Blob(bytes), c.now);
        if |bytes| > c.Allowance() then (room, Err(Capacity))
        else
          var (left, written) := AfterWrite(room, name, data, c.write, c.stuck);
          if !written then (left, Err(Unavailable))
          else if TypeFile(name) in room || c.typeWriteFails
          then (if name in c.stuck then left else room, Err(Unavailable))
          else (left[TypeFile(name) := File(Text(Essence(mediaType)), c.now)], Ok(name))
  }

  function ReadOf(files: Files, name: string, isJson: Parser): Result<(Bytes, string), EmailAttachmentError> {
    if !IsStorageName(name) || name !in files then Err(NotFound)
    else
      var bytes := files[name].Bytes();
      if |bytes| == 0 || |bytes| > MAX_EMAIL_ATTACHMENT_BYTES then Err(NotFound)
      else if TypeFile(name) !in files then Err(NotFound)
      else if files[TypeFile(name)].content.Blob? then Err(Unavailable)
      else
        var mediaType := Trim(files[TypeFile(name)].content.text);
        if AttachmentKind(mediaType, bytes, isJson).Err? then Err(InvalidSignature) else Ok((bytes, mediaType))
  }

  class EmailAttachmentStore {
    const root: Directory
    const digest: Bytes -> Bytes
    const isJson: Parser

    constructor (root: Directory, digest: Bytes -> Bytes, isJson: Parser)
      ensures this.root == root && this.digest == digest && this.isJson == isJson
    {
      this.root, this.digest, this.isJson := root, digest, isJson;
    }

    method Save(mediaType: string, bytes: Bytes, c: Conditions)
      returns (saved: Result<string, EmailAttachmentError>)
      requires |digest(bytes)| == 32 && Possible(root.files, c)
      modifies root
      ensures (root.files, saved) == Saved(old(root.files), digest(bytes), mediaType, bytes, isJson, c)
    {
      hide Matches, Hex, Evicted, Extension;
      if |bytes| == 0 || |bytes| > MAX_EMAIL_ATTACHMENT_BYTES {
        return Err(InvalidSize);
      }
      var kind := AttachmentKind(mediaType, bytes, isJson);
      if kind.Err? {
        return Err(kind.error);
      }
      var hex := HexPrefix(digest(bytes), DIGITS);
      var name := hex + "." + kind.value.0;
      if name in root.files {
        return Ok(name);
      }
      var fits := root.MakeRoomFor(c.listing, c.stuck, |bytes|, MAX_EMAIL_ATTACHMENT_FILES, c.Allowance());
      if !fits {
        return Err(Capacity);
      }
      ghost var room := root.files;
      var written := root.WritePrivate(name, File(Blob(bytes), c.now), c.write, c.stuck);
      if !written {
        return Err(Unavailable);
      }
      assert |TypeFile(name)| != |name|;
      var typeWrite := if c.typeWriteFails then NotOpened else Whole;
      var typed := root.WritePrivate(TypeFile(name), File(Text(kind.value.1), c.now), typeWrite, c.stuck);
      if !typed {
        if name !in c.stuck {
          root.files := root.files - {name};
          assert root.files == room;
        }
        return Err(Unavailable);
      }
      saved := Ok(name);
    }

    method Read(name: string) returns (answer: Result<(Bytes, string), EmailAttachmentError>)
      ensures answer == ReadOf(root.files, name, isJson)
    {
      if !IsStorageName(name) || name !in root.files {
        return Err(NotFound);
      }
      var bytes := root.files[name].Bytes();
      if |bytes| == 0 || |bytes| > MAX_EMAIL_ATTACHMENT_BYTES {
        return Err(NotFound);
      }
      if TypeFile(name) !in root.files {
        return Err(NotFound);
      }
      var content := root.files[TypeFile(name)].content;
      if content.Blob? {
        return Err(Unavailable);
      }
      if AttachmentKind(Trim(content.text), bytes, isJson).Err? {
        return Err(InvalidSignature);
      }
      answer := Ok((bytes, Trim(content.text)));
    }
  }

  // ------------------------------------------------------- what a save answers

  /**
   What a save answers, and what it leaves. It refuses a size or bytes that do not
   match their type and touches nothing; data that is there already is left as it is;
   and new data is taken exactly when it and its type can both be written. Both are
   then there, as they were given, beside the files that did not give way to keep the
   data within 2048 files and a twentieth of the free space.
   */
  lemma SavedExactlyWhen(files: Files, digest: Bytes, mediaType: string, bytes: Bytes, isJson: Parser, c: Conditions)
    requires |digest| == 32 && Possible(files, c)
    ensures var (saved, answer) := Saved(files, digest, mediaType, bytes, isJson, c);
            var kind := KindOf(Normalized(mediaType));
            var name := Name(digest, kind);
            var room := files - Evicted(files, c.listing, c.stuck, |bytes|, 2048, StoreAllowance(c.free, 5));
            && (answer == Err(InvalidSize) <==> bytes == [] || |bytes| > 10485760)
            && (answer == Err(InvalidSignature) <==> 0 < |bytes| <= 10485760 && !Matches(kind, bytes, isJson))
            && (answer == Err(InvalidSize) || answer == Err(InvalidSignature) ==> saved == files)
            && (answer.Ok? <==>
                  && 0 < |bytes| <= 10485760 && Matches(kind, bytes, isJson)
                  && (name in files || (c.write.Whole? && !c.typeWriteFails && name + ".type" !in room)))
            && (answer.Ok? ==> answer.value == name)
            && (answer.Ok? && name in files ==> saved == files)
            && (answer.Ok? && name !in files ==>
                  saved == room[name := File(Blob(bytes), c.now)]
                               [name + ".type" := File(Text(Essence(mediaType)), c.now)])
  {
    hide Matches, Name, KindOf, Normalized, Evicted, Essence;
    var name := Name(digest, KindOf(Normalized(mediaType)));
    assert |name + ".type"| != |name|;
  }

  /** What is declared so is taken when it is what is asked of it, and kept under this extension. */
  ghost predicate KeptUnder(declared: string, asked: Bytes -> bool, extension: string, isJson: Parser) {
    forall bytes :: AttachmentKind(declared, bytes, isJson)
                    == if asked(bytes) then Ok((extension, declared)) else Err(InvalidSignature)
  }

  lemma KeptUnderItsOwn(kind: Kind, asked: Bytes -> bool, isJson: Parser)
    requires kind != Other && forall bytes :: asked(bytes) <==> Matches(kind, bytes, isJson)
    ensures KeptUnder(TypeName(kind), asked, Extension(kind), isJson)
  {
    hide TypeName, KindOf, Normalized, Matches, Extension;
    NamesArePlain(kind);
    PlainIsItsEssence(TypeName(kind));
    PlainIsNormalized(TypeName(kind));
    KindOfItsName(kind);
  }

  lemma PlainIsItsEssence(s: string)
    requires Plain(s)
    ensures Essence(s) == s
  {
    BeforeIsAll(s, ';');
  }

  /** What is asked of each type with a signature, and where it is kept. */
  lemma SignedAreKept(isJson: Parser)
    ensures KeptUnder("image/png", bytes => Signed(Png, bytes), "png", isJson)
    ensures KeptUnder("image/jpeg", bytes => Signed(Jpeg, bytes), "jpg", isJson)
    ensures KeptUnder("image/gif", bytes => Signed(Gif, bytes), "gif", isJson)
    ensures KeptUnder("image/webp", bytes => Signed(Webp, bytes), "webp", isJson)
    ensures KeptUnder("application/pdf", bytes => Signed(Pdf, bytes), "pdf", isJson)
    ensures KeptUnder("application/zip", bytes => Signed(Zip, bytes), "zip", isJson)
  {
    hide KeptUnder, Signed;
    KeptUnderItsOwn(Png, bytes => Signed(Png, bytes), isJson);
    KeptUnderItsOwn(Jpeg, bytes => Signed(Jpeg, bytes), isJson);
    KeptUnderItsOwn(Gif, bytes => Signed(Gif, bytes), isJson);
    KeptUnderItsOwn(Webp, bytes => Signed(Webp, bytes), isJson);
    KeptUnderItsOwn(Pdf, bytes => Signed(Pdf, bytes), isJson);
    KeptUnderItsOwn(Zip, bytes => Signed(Zip, bytes), isJson);
  }

  /** The three types of an office file are asked for a zip's signature, and kept as one. */
  lemma OfficeFilesAreKept(isJson: Parser)
    ensures var office := "application/vnd.openxmlformats-officedocument.";
            && KeptUnder(office + "spreadsheetml.sheet", bytes => Signed(Zip, bytes), "zip", isJson)
            && KeptUnder(office + "wordprocessingml.document", bytes => Signed(Zip, bytes), "zip", isJson)
            && KeptUnder(office + "presentationml.presentation", bytes => Signed(Zip, bytes), "zip", isJson)
  {
    hide KeptUnder, Signed;
    assert OPEN_XML == "application/vnd.openxmlformats-officedocument.";
    OfficeFileIsAZip(Xlsx, isJson);
    OfficeFileIsAZip(Docx, isJson);
    OfficeFileIsAZip(Pptx, isJson);
  }

  lemma OfficeFileIsAZip(kind: Kind, isJson: Parser)
    requires kind in {Xlsx, Docx, Pptx}
    ensures KeptUnder(TypeName(kind), bytes => Signed(Zip, bytes), "zip", isJson)
  {
    hide KeptUnder, TypeName;
    KeptUnderItsOwn(kind, bytes => Signed(Zip, bytes), isJson);
  }

  /** JSON has to parse, and nothing is asked of any other type. */
  lemma UnsignedAreKept(isJson: Parser)
    ensures KeptUnder("application/json", isJson, "json", isJson)
    ensures KeptUnder("text/plain", bytes => true, "txt", isJson)
    ensures KeptUnder("text/csv", bytes => true, "csv", isJson)
    ensures KeptUnder("message/rfc822", bytes => true, "eml", isJson)
    ensures KeptUnder("application/octet-stream", bytes => true, "bin", isJson)
    ensures KeptUnder("video/mp4", bytes => true, "bin", isJson)
  {
    hide KeptUnder, Signed;
    KeptUnderItsOwn(Json, isJson, isJson);
    KeptUnderItsOwn(Plaintext, bytes => true, isJson);
    KeptUnderItsOwn(Csv, bytes => true, isJson);
    KeptUnderItsOwn(Rfc822, bytes => true, isJson);
    KeptUnderItsOwn(OctetStream, bytes => true, isJson);
    KeptUnderItsOwn(Mp4, bytes => true, isJson);
  }

  /** Whatever else is declared is kept without looking. */
  lemma UnknownIsKeptAsItIs(mediaType: string, bytes: Bytes, isJson: Parser)
    requires KindOf(Normalized(mediaType)) == Other
    ensures AttachmentKind(mediaType, bytes, isJson) == Ok(("bin", Essence(mediaType)))
  {
    hide KindOf, Normalized;
  }

  lemma FiguresAre(c: char)
    ensures c in "0123456789" <==> '0' <= c <= '9'
  {
  }

  lemma SmallLettersAre(c: char)
    ensures c in "abcdefghijklmnopqrstuvwxyz" <==> 'a' <= c <= 'z'
  {
  }

  lemma CapitalsAre(c: char)
    ensures c in "ABCDEFGHIJKLMNOPQRSTUVWXYZ" <==> 'A' <= c <= 'Z'
  {
  }

  lemma AlphanumericsAre(c: char)
    ensures Alphanumeric(c)
            <==> c in "0123456789" || c in "abcdefghijklmnopqrstuvwxyz" || c in "ABCDEFGHIJKLMNOPQRSTUVWXYZ"
  {
    FiguresAre(c);
    SmallLettersAre(c);
    CapitalsAre(c);
  }

  /** Which names can be read: 32 digits, a stop, and one to eight letters or figures. */
  lemma NamesOfData(digits: string, extension: string)
    requires forall i :: 0 <= i < |digits| ==> digits[i] in "0123456789abcdefABCDEF"
    ensures IsStorageName(digits + "." + extension)
            <==> |digits| == 32 && 1 <= |extension| <= 8
                 && forall i :: 0 <= i < |extension| ==>
                      extension[i] in "0123456789" || extension[i] in "abcdefghijklmnopqrstuvwxyz"
                      || extension[i] in "ABCDEFGHIJKLMNOPQRSTUVWXYZ"
  {
    hide Alphanumeric;
    forall i | 0 <= i < |digits|
      ensures IsHexDigit(digits[i])
    {
      HexDigitsAre(digits[i]);
    }
    forall i | 0 <= i < |extension|
      ensures Alphanumeric(extension[i])
              <==> extension[i] in "0123456789" || extension[i] in "abcdefghijklmnopqrstuvwxyz"
                   || extension[i] in "ABCDEFGHIJKLMNOPQRSTUVWXYZ"
    {
      AlphanumericsAre(extension[i]);
    }
    SplitOfJoined(digits, extension);
  }

  /** What reading finds is a file with its type, under 32 hexadecimal digits, neither empty nor past 10 MiB. */
  lemma FoundUnderItsDigits(files: Files, name: string, isJson: Parser)
    requires ReadOf(files, name, isJson).Ok?
    ensures name in files && ReadOf(files, name, isJson).value.0 == files[name].Bytes()
    ensures 0 < |files[name].Bytes()| <= 10485760 && name + ".type" in files
    ensures 34 <= |name| <= 41 && name[32] == '.'
    ensures forall i :: 0 <= i < 32 ==> name[i] in "0123456789abcdefABCDEF"
    ensures forall i :: 33 <= i < |name| ==> '0' <= name[i] <= '9' || 'a' <= name[i] <= 'z' || 'A' <= name[i] <= 'Z'
  {
    hide AttachmentKind, Encode;
    BeforeIsAPrefix(name, '.');
    forall i | 0 <= i < 32
      ensures name[i] in "0123456789abcdefABCDEF"
    {
      HexDigitsAre(name[i]);
    }
    assert forall i :: 33 <= i < |name| ==> name[33..][i - 33] == name[i];
  }

  // -------------------------------------------------------------------- names

  lemma ExtensionIsShort(kind: Kind)
    ensures 0 < |Extension(kind)| <= 8
    ensures forall i :: 0 <= i < |Extension(kind)| ==> Alphanumeric(Extension(kind)[i])
  {
  }

  /** A name a save makes can be read, and the name of its type cannot. */
  lemma OnlyTheDataHasAName(digest: Bytes, kind: Kind)
    requires |digest| == 32
    ensures IsStorageName(Name(digest, kind))
    ensures !IsStorageName(TypeFile(Name(digest, kind)))
  {
    hide Hex, Extension;
    ExtensionIsShort(kind);
    var head, extension := Hex(digest)[..DIGITS], Extension(kind);
    SplitOfJoined(head, extension);
    SplitOfJoined(head, extension + ".type");
    assert TypeFile(Name(digest, kind)) == head + "." + (extension + ".type");
    assert (extension + ".type")[|extension|] == '.';
  }

  lemma NameTellsTheDigest(a: Bytes, b: Bytes, kind: Kind, other: Kind)
    requires |a| == 32 && |b| == 32 && Name(a, kind) == Name(b, other)
    ensures Hex(a)[..DIGITS] == Hex(b)[..DIGITS] && Extension(kind) == Extension(other)
  {
    hide Extension, Hex;
    var n := Name(a, kind);
    assert n[..DIGITS] == Hex(a)[..DIGITS] && n[..DIGITS] == Hex(b)[..DIGITS];
    assert n[DIGITS + 1..] == Extension(kind) && n[DIGITS + 1..] == Extension(other);
  }

  lemma TypeNameTellsTheName(a: string, b: string)
    requires TypeFile(a) == TypeFile(b)
    ensures a == b
  {
    assert a == TypeFile(a)[..|TypeFile(a)| - 5] && b == TypeFile(b)[..|TypeFile(b)| - 5];
  }

  // ------------------------------------------------------ what the store holds

  ghost predicate Distinguishes(digest: Bytes -> Bytes, contents: set<Bytes>) {
    && (forall b :: b in contents ==> |digest(b)| == 32)
    && forall a, b :: a in contents && b in contents && Hex(digest(a))[..DIGITS] == Hex(digest(b))[..DIGITS] ==> a == b
  }

  ghost predicate IsData(name: string, f: File, digest: Bytes -> Bytes, isJson: Parser, contents: set<Bytes>) {
    && f.content.Blob? && f.content.bytes in contents
    && 0 < |f.content.bytes| <= MAX_EMAIL_ATTACHMENT_BYTES && |digest(f.content.bytes)| == 32
    && exists kind :: Matches(kind, f.content.bytes, isJson) && name == Name(digest(f.content.bytes), kind)
  }

  /** The text is a type as it was declared of some content, whose name this file's is made from. */
  ghost predicate IsType(name: string, f: File, digest: Bytes -> Bytes, isJson: Parser, contents: set<Bytes>) {
    f.content.Text? && exists b, mediaType :: Declares(name, f.content.text, b, mediaType, digest, isJson, contents)
  }

  ghost predicate Declares(
    name: string, text: string, b: Bytes, mediaType: string,
    digest: Bytes -> Bytes, isJson: Parser, contents: set<Bytes>)
  {
    && b in contents && |digest(b)| == 32
    && text == Essence(mediaType)
    && Matches(KindOf(Normalized(mediaType)), b, isJson)
    && name == TypeFile(Name(digest(b), KindOf(Normalized(mediaType))))
  }

  ghost predicate Sound(files: Files, digest: Bytes -> Bytes, isJson: Parser, contents: set<Bytes>) {
    forall n :: n in files ==>
      IsData(n, files[n], digest, isJson, contents) || IsType(n, files[n], digest, isJson, contents)
  }

  /** Whether a save gets as far as writing its data. */
  predicate Writes(files: Files, digest: Bytes, mediaType: string, bytes: Bytes, isJson: Parser, c: Conditions)
    requires |digest| == 32
  {
    && 0 < |bytes| <= MAX_EMAIL_ATTACHMENT_BYTES && AttachmentKind(mediaType, bytes, isJson).Ok?
    && |bytes| <= c.Allowance() && Name(digest, KindOf(Normalized(mediaType))) !in files
  }

  /** Whether writing the data would leave a part of it behind. */
  predicate Tears(digest: Bytes, mediaType: string, bytes: Bytes, c: Conditions)
    requires |digest| == 32
  {
    c.write.Torn? && c.write.written < |bytes| && Name(digest, KindOf(Normalized(mediaType))) in c.stuck
  }

  /** A save keeps each file what its name says, unless it leaves a part of its data behind. */
  lemma SaveKeepsSound(
    files: Files, digest: Bytes -> Bytes, isJson: Parser, contents: set<Bytes>,
    mediaType: string, bytes: Bytes, c: Conditions)
    requires Sound(files, digest, isJson, contents) && Distinguishes(digest, contents) && bytes in contents
    ensures Sound(Saved(files, digest(bytes), mediaType, bytes, isJson, c).0, digest, isJson, contents)
            <==> !(&& Writes(files, digest(bytes), mediaType, bytes, isJson, c)
                   && Tears(digest(bytes), mediaType, bytes, c))
  {
    hide Matches, Evicted, Name, KindOf, Normalized, TypeFile, Essence;
    var kind := KindOf(Normalized(mediaType));
    var name := Name(digest(bytes), kind);
    var f := File(Text(Essence(mediaType)), c.now);
    if Matches(kind, bytes, isJson) {
      assert Declares(TypeFile(name), f.content.text, bytes, mediaType, digest, isJson, contents);
    }
    if Writes(files, digest(bytes), mediaType, bytes, isJson, c) && c.write.Torn? && name in c.stuck {
      var data := File(Blob(bytes), c.now);
      var end := Saved(files, digest(bytes), mediaType, bytes, isJson, c).0;
      TornLeavesAPart(files, digest(bytes), mediaType, bytes, isJson, c);
      hide Saved;
      assert name in end && end[name] == data.Cut(c.write.written);
      if c.write.written < |bytes| {
        PartIsNotData(name, digest, isJson, contents, bytes, kind, data, c.write.written);
      } else {
        assert bytes[..|bytes|] == bytes;
        assert IsData(name, data, digest, isJson, contents);
      }
    }
  }

  lemma TornLeavesAPart(
    files: Files, digest: Bytes, mediaType: string, bytes: Bytes, isJson: Parser, c: Conditions)
    requires |digest| == 32 && Writes(files, digest, mediaType, bytes, isJson, c)
    requires c.write.Torn? && Name(digest, KindOf(Normalized(mediaType))) in c.stuck
    ensures Saved(files, digest, mediaType, bytes, isJson, c).0
            == AfterEviction(files, c, |bytes|)
               [Name(digest, KindOf(Normalized(mediaType))) := File(Blob(bytes), c.now).Cut(c.write.written)]
  {
    hide Matches, Evicted, Name, KindOf, Normalized, TypeFile, Essence;
  }

  lemma PartIsNotData(
    name: string, digest: Bytes -> Bytes, isJson: Parser, contents: set<Bytes>,
    bytes: Bytes, kind: Kind, data: File, written: nat)
    requires Distinguishes(digest, contents) && bytes in contents && name == Name(digest(bytes), kind)
    requires data.content == Blob(bytes) && written < |bytes|
    ensures !IsData(name, data.Cut(written), digest, isJson, contents)
    ensures !IsType(name, data.Cut(written), digest, isJson, contents)
  {
    hide Matches, Name;
    var part := data.Cut(written);
    if IsData(name, part, digest, isJson, contents) {
      var other :| Matches(other, part.content.bytes, isJson) && name == Name(digest(part.content.bytes), other);
      NameTellsTheDigest(digest(bytes), digest(part.content.bytes), kind, other);
    }
  }

  /** What was declared, read back as it was kept, is declared again. */
  lemma EssenceIsAccepted(mediaType: string, bytes: Bytes, isJson: Parser)
    ensures AttachmentKind(Trim(Essence(mediaType)), bytes, isJson) == AttachmentKind(mediaType, bytes, isJson)
  {
    EssenceIsItsOwn(mediaType);
  }

  /** A name made of one content never is that of a type file, nor its type's that of data. */
  lemma RolesAreApart(digest: Bytes -> Bytes, a: Bytes, kind: Kind, b: Bytes, other: Kind)
    requires |digest(a)| == 32 && |digest(b)| == 32
    ensures Name(digest(a), kind) != TypeFile(Name(digest(b), other))
  {
    OnlyTheDataHasAName(digest(a), kind);
    OnlyTheDataHasAName(digest(b), other);
  }

  /**
   Reading a name made of some content answers that content, under a type declared of
   it which keeps it under the same extension, exactly when both of its files are there.
   */
  lemma FoundIsSaved(
    files: Files, digest: Bytes -> Bytes, isJson: Parser, contents: set<Bytes>, bytes: Bytes, kind: Kind)
    requires Sound(files, digest, isJson, contents) && Distinguishes(digest, contents)
    requires bytes in contents && Matches(kind, bytes, isJson)
    ensures var name := Name(digest(bytes), kind);
            if name in files && TypeFile(name) in files
            then && files[TypeFile(name)].content.Text?
                 && ReadOf(files, name, isJson) == Ok((bytes, files[TypeFile(name)].content.text))
                 && AttachmentKind(files[TypeFile(name)].content.text, bytes, isJson)
                    == Ok((Extension(kind), files[TypeFile(name)].content.text))
            else ReadOf(files, name, isJson) == Err(NotFound)
  {
    var name := Name(digest(bytes), kind);
    OnlyTheDataHasAName(digest(bytes), kind);
    if name in files && TypeFile(name) in files {
      DataIs(files, digest, isJson, contents, bytes, kind);
      TypeIs(files, digest, isJson, contents, bytes, kind);
    }
  }

  lemma DataIs(
    files: Files, digest: Bytes -> Bytes, isJson: Parser, contents: set<Bytes>, bytes: Bytes, kind: Kind)
    requires Sound(files, digest, isJson, contents) && Distinguishes(digest, contents)
    requires bytes in contents && Matches(kind, bytes, isJson) && Name(digest(bytes), kind) in files
    ensures var f := files[Name(digest(bytes), kind)];
            f.content == Blob(bytes) && 0 < |bytes| <= MAX_EMAIL_ATTACHMENT_BYTES
  {
    hide Hex, Name, Matches, KindOf, Normalized, Essence, TypeFile;
    var name := Name(digest(bytes), kind);
    if IsType(name, files[name], digest, isJson, contents) {
      var b, mediaType :| Declares(name, files[name].content.text, b, mediaType, digest, isJson, contents);
      RolesAreApart(digest, bytes, kind, b, KindOf(Normalized(mediaType)));
    }
    var found := files[name].content.bytes;
    var other :| Matches(other, found, isJson) && name == Name(digest(found), other);
    NameTellsTheDigest(digest(bytes), digest(found), kind, other);
  }

  lemma TypeIs(
    files: Files, digest: Bytes -> Bytes, isJson: Parser, contents: set<Bytes>, bytes: Bytes, kind: Kind)
    requires Sound(files, digest, isJson, contents) && Distinguishes(digest, contents)
    requires bytes in contents && Matches(kind, bytes, isJson) && TypeFile(Name(digest(bytes), kind)) in files
    ensures var content := files[TypeFile(Name(digest(bytes), kind))].content;
            && content.Text? && Trim(content.text) == content.text
            && AttachmentKind(content.text, bytes, isJson) == Ok((Extension(kind), content.text))
  {
    hide Hex, Name, Matches, KindOf, Normalized, Essence, Trim, Extension, TypeFile;
    var name := TypeFile(Name(digest(bytes), kind));
    if IsData(name, files[name], digest, isJson, contents) {
      var other :| Matches(other, files[name].content.bytes, isJson)
                   && name == Name(digest(files[name].content.bytes), other);
      RolesAreApart(digest, files[name].content.bytes, other, bytes, kind);
    }
    var b, mediaType :| Declares(name, files[name].content.text, b, mediaType, digest, isJson, contents);
    TypeNameTellsTheName(Name(digest(bytes), kind), Name(digest(b), KindOf(Normalized(mediaType))));
    NameTellsTheDigest(digest(bytes), digest(b), kind, KindOf(Normalized(mediaType)));
    EssenceIsAccepted(mediaType, bytes, isJson);
    EssenceIsItsOwn(mediaType);
  }

  // --------------------------------------------------------------------- runs

  datatype SaveCall = SaveCall(mediaType: string, bytes: Bytes, conditions: Conditions)

  function After(files: Files, digest: Bytes -> Bytes, isJson: Parser, calls: seq<SaveCall>): Files
    requires forall call :: call in calls ==> |digest(call.bytes)| == 32
    decreases |calls|
  {
    if calls == [] then files
    else
      var first := calls[0];
      After(Saved(files, digest(first.bytes), first.mediaType, first.bytes, isJson, first.conditions).0,
            digest, isJson, calls[1..])
  }

  /** One save after the other, each of what the one before it left. */
  lemma {:induction false} AfterOneMore(
    files: Files, digest: Bytes -> Bytes, isJson: Parser, calls: seq<SaveCall>, last: SaveCall)
    requires forall call :: call in calls + [last] ==> |digest(call.bytes)| == 32
    ensures After(files, digest, isJson, []) == files
    ensures last in calls + [last] && forall call :: call in calls ==> call in calls + [last]
    ensures After(files, digest, isJson, calls + [last])
            == Saved(After(files, digest, isJson, calls), digest(last.bytes), last.mediaType, last.bytes, isJson,
                     last.conditions).0
    decreases |calls|
  {
    hide Saved;
    assert (calls + [last])[|calls|] == last;
    assert forall call :: call in calls ==> call in calls + [last];
    if calls == [] {
      assert calls + [last] == [last] && [last][1..] == [];
    } else {
      var first := calls[0];
      assert (calls + [last])[1..] == calls[1..] + [last];
      AfterOneMore(Saved(files, digest(first.bytes), first.mediaType, first.bytes, isJson, first.conditions).0,
                   digest, isJson, calls[1..], last);
    }
  }

  /** Whether a save that gets as far as writing would leave a part of its data behind. */
  predicate CutShort(digest: Bytes -> Bytes, call: SaveCall) {
    |digest(call.bytes)| == 32 && Tears(digest(call.bytes), call.mediaType, call.bytes, call.conditions)
  }

  lemma {:induction false} SavesKeepSound(
    files: Files, digest: Bytes -> Bytes, isJson: Parser, contents: set<Bytes>, calls: seq<SaveCall>)
    requires Sound(files, digest, isJson, contents) && Distinguishes(digest, contents)
    requires forall call :: call in calls ==> call.bytes in contents && !CutShort(digest, call)
    ensures Sound(After(files, digest, isJson, calls), digest, isJson, contents)
    decreases |calls|
  {
    if calls != [] {
      hide Sound, Saved, Writes, Tears;
      var first := calls[0];
      assert !CutShort(digest, first);
      SaveKeepsSound(files, digest, isJson, contents, first.mediaType, first.bytes, first.conditions);
      SavesKeepSound(Saved(files, digest(first.bytes), first.mediaType, first.bytes, isJson, first.conditions).0,
                     digest, isJson, contents, calls[1..]);
    }
  }

  /**
   What a save accepts reads back at once exactly when it wrote the files itself or the
   data it found had its type beside it; when it wrote them, with the type as it was
   declared. After any later saves that leave no part of a file behind, the name gives
   back those bytes under a type declared of them, as long as both of its files are
   left, and is not found once either is gone.
   */
  lemma SavedReadsBack(
    files: Files, digest: Bytes -> Bytes, isJson: Parser, contents: set<Bytes>, call: SaveCall, later: seq<SaveCall>)
    requires Sound(files, digest, isJson, contents) && Distinguishes(digest, contents) && call.bytes in contents
    requires forall l :: l in later ==> l.bytes in contents && !CutShort(digest, l)
    requires Saved(files, digest(call.bytes), call.mediaType, call.bytes, isJson, call.conditions).1.Ok?
    ensures var (saved, answer) :=
              Saved(files, digest(call.bytes), call.mediaType, call.bytes, isJson, call.conditions);
            var name, end := answer.value, After(saved, digest, isJson, later);
            && (name !in files ==> ReadOf(saved, name, isJson) == Ok((call.bytes, Essence(call.mediaType))))
            && (ReadOf(saved, name, isJson).Ok? <==> name !in files || TypeFile(name) in files)
            && (ReadOf(end, name, isJson).Ok? <==> name in end && TypeFile(name) in end)
            && (ReadOf(end, name, isJson).Ok? ==>
                  var (bytes, mediaType) := ReadOf(end, name, isJson).value;
                  && bytes == call.bytes
                  && AttachmentKind(mediaType, bytes, isJson).Ok?
                  && AttachmentKind(mediaType, bytes, isJson).value.0
                     == AttachmentKind(call.mediaType, bytes, isJson).value.0)
            && (ReadOf(end, name, isJson).Err? ==> ReadOf(end, name, isJson).error == NotFound)
  {
    hide Matches, Name, Evicted, KindOf, Normalized, Extension, Sound, Distinguishes, After, Essence;
    assert forall b :: b in contents ==> |digest(b)| == 32 by { Widths(digest, contents); }
    var (saved, answer) := Saved(files, digest(call.bytes), call.mediaType, call.bytes, isJson, call.conditions);
    var kind := KindOf(Normalized(call.mediaType));
    var end := After(saved, digest, isJson, later);
    SaveKeepsSound(files, digest, isJson, contents, call.mediaType, call.bytes, call.conditions);
    SavesKeepSound(saved, digest, isJson, contents, later);
    hide ReadOf;
    FoundIsSaved(saved, digest, isJson, contents, call.bytes, kind);
    FoundIsSaved(end, digest, isJson, contents, call.bytes, kind);
  }

  lemma Widths(digest: Bytes -> Bytes, contents: set<Bytes>)
    requires Distinguishes(digest, contents)
    ensures forall b :: b in contents ==> |digest(b)| == 32
  {
  }

  /**
   A name that was accepted and cannot be read, from an empty store. One byte of plain
   text is written, its type is not, and the data will not go back: the store says it
   is unavailable. Saving the byte again is accepted, since its data is there, and
   reading the name it answers finds nothing, for want of the type.
   */
  lemma AcceptedYetNotFound(digest: Bytes, isJson: Parser)
    requires |digest| == 32
    ensures var name := Name(digest, Plaintext);
            var untyped := Conditions([], {name}, 0, None, Whole, true);
            var (files, answer) := Saved(map[], digest, "text/plain", [65], isJson, untyped);
            var again := Conditions([name], {}, 1, None, Whole, false);
            && Possible(map[], untyped) && answer == Err(Unavailable)
            && Possible(files, again)
            && Saved(files, digest, "text/plain", [65], isJson, again) == (files, Ok(name))
            && ReadOf(files, name, isJson) == Err(NotFound)
  {
    hide Hex, KindOf, Normalized, Evicted, Essence, IsStorageName;
    PlaintextIsPlain();
    var name := Name(digest, Plaintext);
    var untyped := Conditions([], {name}, 0, None, Whole, true);
    var files: Files := map[name := File(Blob([65]), 0)];
    NothingToEvict(1, MAX_EMAIL_ATTACHMENT_FILES, untyped.stuck, untyped.Allowance());
    assert AfterEviction(map[], untyped, 1) == map[];
    assert Saved(map[], digest, "text/plain", [65], isJson, untyped) == (files, Err(Unavailable));
    assert |TypeFile(name)| != |name|;
  }

  // ------------------------------------------------------- the type left behind

  /**
   A save of good bytes whose data is not there, on a disk where every write works,
   succeeds exactly when room is made without leaving an old type file under the
   name. Otherwise it says the store is unavailable and leaves no data behind.
   */
  lemma LeftoverTypeRefuses(files: Files, digest: Bytes, mediaType: string, bytes: Bytes, isJson: Parser, c: Conditions)
    requires |digest| == 32 && Possible(files, c)
    requires 0 < |bytes| <= MAX_EMAIL_ATTACHMENT_BYTES && AttachmentKind(mediaType, bytes, isJson).Ok?
    requires Name(digest, KindOf(Normalized(mediaType))) !in files
    requires c.write == Whole && !c.typeWriteFails && c.stuck == {}
    ensures var (saved, answer) := Saved(files, digest, mediaType, bytes, isJson, c);
            var name := Name(digest, KindOf(Normalized(mediaType)));
            && (answer == Ok(name) <==> TypeFile(name) !in AfterEviction(files, c, |bytes|))
            && (answer != Ok(name) ==> answer == Err(Unavailable) && name !in saved && TypeFile(name) in saved)
  {
    hide Matches, Name, KindOf, Normalized, TypeFile, Evicted;
  }

  /** A file of a size that may be saved is never refused for want of room. */
  lemma NeverFull(files: Files, digest: Bytes, mediaType: string, bytes: Bytes, isJson: Parser, c: Conditions)
    requires |digest| == 32 && Possible(files, c)
    ensures Saved(files, digest, mediaType, bytes, isJson, c).1 != Err(Capacity)
  {
    hide Matches, Name, KindOf, Normalized, TypeFile, Evicted;
  }

  /** When the oldest file alone makes enough room, it goes alone. */
  lemma OldestGoesAlone(files: Files, listing: seq<string>, incoming: nat, maxFiles: nat, allowance: nat)
    requires Lists(listing, files) && ByAge(files, listing) != []
    requires !Fits(files, ByAge(files, listing), incoming, maxFiles, allowance)
    requires Fits(files, ByAge(files, listing)[1..], incoming, maxFiles, allowance)
    ensures Evicted(files, listing, {}, incoming, maxFiles, allowance) == {ByAge(files, listing)[0]}
  {
    hide ByAge, Fits, Lists;
    AgeOrderLists(files, listing);
    var order := ByAge(files, listing);
    assert Spared(files, order, incoming, maxFiles, allowance) == order[1..];
    assert order == [order[0]] + order[1..];
    EvictedAre(files, listing, [order[0]], {}, incoming, maxFiles, allowance);
  }

  /** When everything fits, nothing goes. */
  lemma NobodyGoes(files: Files, listing: seq<string>, incoming: nat, maxFiles: nat, allowance: nat)
    requires Lists(listing, files)
    requires Fits(files, ByAge(files, listing), incoming, maxFiles, allowance)
    ensures Evicted(files, listing, {}, incoming, maxFiles, allowance) == {}
  {
    hide ByAge;
    EvictedAre(files, listing, [], {}, incoming, maxFiles, allowance);
  }

  /**
   How a type file comes to be left behind: data is always older than its type, so
   when a store at its allowance needs just one file's room, the oldest data goes and
   its type stays. Once the disk, and with it the allowance, has grown enough that
   nothing has to give way, saving those very bytes again is refused.
   */
  lemma GrownDiskRefusesWhatItHeld(
    files: Files, digest: Bytes -> Bytes, isJson: Parser, other: SaveCall, again: SaveCall)
    requires |digest(other.bytes)| == 32 && |digest(again.bytes)| == 32
    requires var name := Name(digest(again.bytes), KindOf(Normalized(again.mediaType)));
             var order := ByAge(files, other.conditions.listing);
             && Possible(files, other.conditions) && other.conditions.stuck == {}
             && name in files && TypeFile(name) in files && order != [] && order[0] == name
             && !Fits(files, order, |other.bytes|, MAX_EMAIL_ATTACHMENT_FILES, other.conditions.Allowance())
             && Fits(files, order[1..], |other.bytes|, MAX_EMAIL_ATTACHMENT_FILES, other.conditions.Allowance())
    requires var (between, answer) :=
               Saved(files, digest(other.bytes), other.mediaType, other.bytes, isJson, other.conditions);
             var otherName := Name(digest(other.bytes), KindOf(Normalized(other.mediaType)));
             && answer.Ok? && otherName !in files
             && otherName != Name(digest(again.bytes), KindOf(Normalized(again.mediaType)))
             && Possible(between, again.conditions) && again.conditions.stuck == {}
             && Fits(between, ByAge(between, again.conditions.listing), |again.bytes|,
                     MAX_EMAIL_ATTACHMENT_FILES, again.conditions.Allowance())
    requires 0 < |again.bytes| <= MAX_EMAIL_ATTACHMENT_BYTES
             && AttachmentKind(again.mediaType, again.bytes, isJson).Ok?
    ensures var between := Saved(files, digest(other.bytes), other.mediaType, other.bytes, isJson, other.conditions).0;
            var name := Name(digest(again.bytes), KindOf(Normalized(again.mediaType)));
            && name !in between && TypeFile(name) in between
            && Saved(between, digest(again.bytes), again.mediaType, again.bytes, isJson, again.conditions).1
               == Err(Unavailable)
  {
    hide Matches, Hex, Extension, KindOf, Normalized, Fits, ByAge, Lists, Evicted, Spared;
    var name := Name(digest(again.bytes), KindOf(Normalized(again.mediaType)));
    var otherName := Name(digest(other.bytes), KindOf(Normalized(other.mediaType)));
    OldestGoesAlone(files, other.conditions.listing, |other.bytes|, MAX_EMAIL_ATTACHMENT_FILES,
                    other.conditions.Allowance());
    var between := Saved(files, digest(other.bytes), other.mediaType, other.bytes, isJson, other.conditions).0;
    NobodyGoes(between, again.conditions.listing, |again.bytes|, MAX_EMAIL_ATTACHMENT_FILES,
               again.conditions.Allowance());
    RolesAreApart(digest, again.bytes, KindOf(Normalized(again.mediaType)),
                  other.bytes, KindOf(Normalized(other.mediaType)));
    assert |TypeFile(name)| != |name|;
  }

  lemma {:induction false} EncodedIsShort(text: string)
    ensures |Encode(text)| <= 4 * |text|
  {
    if text != "" {
      EncodedIsShort(text[1..]);
    }
  }

  /** One byte of plain text, refused by a store that holds nothing but the type it once had. */
  lemma OneByteIsRefused(digest: Bytes, isJson: Parser)
    requires |digest| == 32
    ensures var left := TypeFile(Name(digest, Plaintext));
            var files := map[left := File(Text("text/plain"), 0)];
            var c := Conditions([left], {}, 1, None, Whole, false);
            && Possible(files, c)
            && Saved(files, digest, "text/plain", [65], isJson, c) == (files, Err(Unavailable))
  {
    hide Hex, KindOf, Normalized, Encode, Evicted;
    var name := Name(digest, Plaintext);
    var left := TypeFile(name);
    var files := map[left := File(Text("text/plain"), 0)];
    var c := Conditions([left], {}, 1, None, Whole, false);
    PlaintextIsPlain();
    EncodedIsShort("text/plain");
    OneIsInOrder(files, left);
    assert Total(files, [left]) == files[left].Size() by { assert [left][1..] == []; }
    NobodyGoes(files, [left], 1, MAX_EMAIL_ATTACHMENT_FILES, c.Allowance());
    assert |left| != |name|;
    assert AfterEviction(files, c, 1) == files;
  }

  lemma OneIsInOrder(files: Files, n: string)
    ensures ByAge(files, [n]) == [n]
  {
    var order := Older(files);
    assert [n][1..] == [];
    assert Sorting.Sort(order, [n]) == Sorting.Insert(order, n, Sorting.Sort(order, []));
  }
}
