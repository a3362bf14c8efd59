/** Declared media types, the signatures some of them have, and names made of digests. */
module MediaTypes {
  import opened Options
  import opened Text
  import opened Utf8

  function Lowered(c: char): char {
    if 'A' <= c <= 'Z' then c + 32 as char else c
  }

  function Lower(s: string): string {
    seq(|s|, i requires 0 <= i < |s| => Lowered(s[i]))
  }

  /** The type without its parameters, as it was written. */
  function Essence(mediaType: string): string {
    Trim(Before(mediaType, ';'))
  }

  function Normalized(mediaType: string): string {
    Lower(Essence(mediaType))
  }

  predicate PlainChar(c: char) {
    'a' <= c <= 'z' || '0' <= c <= '9' || c == '/' || c == '-' || c == '.'
  }

  predicate Plain(s: string) {
    forall i :: 0 <= i < |s| ==> PlainChar(s[i])
  }

  /** Taking the essence of an essence changes nothing. */
  lemma EssenceIsItsOwn(mediaType: string)
    ensures Essence(Essence(mediaType)) == Essence(mediaType)
    ensures Trim(Essence(mediaType)) == Essence(mediaType)
  {
    var before := Before(mediaType, ';');
    BeforeHasNone(mediaType, ';');
    TrimIsASlice(before);
    var i, j :| Trimmed(before, i, j) && Trim(before) == before[i..j];
    BeforeIsAll(Trim(before), ';');
  }

  /** Case and parameters make no difference to what a type is. */
  lemma NormalizedIgnores(a: string, b: string, parameters: string)
    requires |a| == |b| && forall i :: 0 <= i < |a| ==> a[i] != ';' && b[i] != ';' && SameLetter(a[i], b[i])
    ensures Lower(a) == Lower(b)
    ensures Normalized(a + ";" + parameters) == Normalized(a) == Lower(Trim(a))
  {
    forall i | 0 <= i < |a|
      ensures Lowered(a[i]) == Lowered(b[i])
    {
      SameWhenLowered(a[i], b[i]);
    }
    assert Lower(a) == Lower(b);
    BeforeIsAll(a, ';');
    BeforeTheMark(a, parameters, ';');
  }

  /** The same character, or the same letter of the alphabet in either case. */
  ghost predicate SameLetter(a: char, b: char) {
    a == b || exists i :: 0 <= i < 26 && {a, b} == {"ABCDEFGHIJKLMNOPQRSTUVWXYZ"[i], "abcdefghijklmnopqrstuvwxyz"[i]}
  }

  lemma SameWhenLowered(a: char, b: char)
    requires SameLetter(a, b)
    ensures Lowered(a) == Lowered(b)
  {
    if a != b {
      var i :| 0 <= i < 26 && {a, b} == {"ABCDEFGHIJKLMNOPQRSTUVWXYZ"[i], "abcdefghijklmnopqrstuvwxyz"[i]};
      LoweredLetters(i);
      hide Lowered;
      assert a in {a, b} && b in {a, b};
    }
  }

  lemma CapitalsRise()
    ensures forall i :: 0 <= i < 26 ==> "ABCDEFGHIJKLMNOPQRSTUVWXYZ"[i] as int == 65 + i
  {
  }

  lemma SmallLettersRise()
    ensures forall i :: 0 <= i < 26 ==> "abcdefghijklmnopqrstuvwxyz"[i] as int == 97 + i
  {
  }

  /** Lowering takes each capital to its small letter. */
  lemma LoweredLetters(i: nat)
    requires i < 26
    ensures Lowered("ABCDEFGHIJKLMNOPQRSTUVWXYZ"[i]) == "abcdefghijklmnopqrstuvwxyz"[i]
    ensures Lowered("abcdefghijklmnopqrstuvwxyz"[i]) == "abcdefghijklmnopqrstuvwxyz"[i]
  {
    CapitalsRise();
    SmallLettersRise();
  }

  /** It changes nothing else. */
  lemma LoweredOthers(c: char)
    ensures Lowered(c) != c ==> c in "ABCDEFGHIJKLMNOPQRSTUVWXYZ"
  {
    CapitalsRise();
    if Lowered(c) != c {
      assert "ABCDEFGHIJKLMNOPQRSTUVWXYZ"[c as int - 65] as int == c as int;
    }
  }

  lemma PlainIsNormalized(s: string)
    requires Plain(s)
    ensures Normalized(s) == s
  {
    BeforeIsAll(s, ';');
    assert Lower(s) == s;
  }

  lemma PlainAppend(a: string, b: string)
    requires Plain(a) && Plain(b)
    ensures Plain(a + b)
  {
  }

  // ---------------------------------------------------------- known types

  /** The types a store knows by name. */
  datatype Kind =
    | Png | Jpeg | Gif | Webp | Pdf | Zip | Xlsx | Docx | Pptx | Xls | Mp4 | Gzip | XGzip | Tar
    | Csv | Markdown | Plaintext | Json | Rfc822 | OctetStream | Other

  const OPEN_XML := "application/vnd." + "openxmlformats-office" + "document."

  function TypeName(kind: Kind): string {
    match kind
    case Png => "image/png"
    case Jpeg => "image/jpeg"
    case Gif => "image/gif"
    case Webp => "image/webp"
    case Pdf => "application/pdf"
    case Zip => "application/zip"
    case Xlsx => OPEN_XML + "spreadsheetml.sheet"
    case Docx => OPEN_XML + "wordprocessingml.document"
    case Pptx => OPEN_XML + "presentationml.presentation"
    case Xls => "application/vnd.ms-excel"
    case Mp4 => "video/mp4"
    case Gzip => "application/gzip"
    case XGzip => "application/x-gzip"
    case Tar => "application/x-tar"
    case Csv => "text/csv"
    case Markdown => "text/markdown"
    case Plaintext => "text/plain"
    case Json => "application/json"
    case Rfc822 => "message/rfc822"
    case OctetStream => "application/octet-stream"
    case Other => ""
  }

  /** The kind a normalized type names; nothing that is not named is known. */
  function KindOf(normalized: string): (kind: Kind)
    ensures kind != Other ==> normalized == TypeName(kind)
  {
    if normalized == TypeName(Png) then Png
    else if normalized == TypeName(Jpeg) then Jpeg
    else if normalized == TypeName(Gif) then Gif
    else if normalized == TypeName(Webp) then Webp
    else if normalized == TypeName(Pdf) then Pdf
    else if normalized == TypeName(Zip) then Zip
    else if normalized == TypeName(Xlsx) then Xlsx
    else if normalized == TypeName(Docx) then Docx
    else if normalized == TypeName(Pptx) then Pptx
    else if normalized == TypeName(Xls) then Xls
    else if normalized == TypeName(Mp4) then Mp4
    else if normalized == TypeName(Gzip) then Gzip
    else if normalized == TypeName(XGzip) then XGzip
    else if normalized == TypeName(Tar) then Tar
    else if normalized == TypeName(Csv) then Csv
    else if normalized == TypeName(Markdown) then Markdown
    else if normalized == TypeName(Plaintext) then Plaintext
    else if normalized == TypeName(Json) then Json
    else if normalized == TypeName(Rfc822) then Rfc822
    else if normalized == TypeName(OctetStream) then OctetStream
    else Other
  }

  lemma OpenXmlIsPlain()
    ensures Plain(OPEN_XML)
  {
    PlainAppend("application/vnd.", "openxmlformats-office");
    PlainAppend("application/vnd." + "openxmlformats-office", "document.");
  }

  lemma NamesArePlain(kind: Kind)
    ensures Plain(TypeName(kind))
  {
    hide Plain;
    match kind
    case Xlsx => OpenXmlIsPlain(); SheetIsPlain(); PlainAppend(OPEN_XML, "spreadsheetml.sheet");
    case Docx => OpenXmlIsPlain(); DocumentIsPlain(); PlainAppend(OPEN_XML, "wordprocessingml.document");
    case Pptx => OpenXmlIsPlain(); PresentationIsPlain(); PlainAppend(OPEN_XML, "presentationml.presentation");
    case _ => ShortNamesArePlain(kind);
  }

  lemma SheetIsPlain()
    ensures Plain("spreadsheetml.sheet")
  {
  }

  lemma DocumentIsPlain()
    ensures Plain("wordprocessingml.document")
  {
  }

  lemma PresentationIsPlain()
    ensures Plain("presentationml.presentation")
  {
  }

  lemma ShortNamesArePlain(kind: Kind)
    requires !kind.Xlsx? && !kind.Docx? && !kind.Pptx?
    ensures Plain(TypeName(kind))
  {
    if IsApplication(kind) {
      ApplicationNamesArePlain(kind);
    }
  }

  predicate IsApplication(kind: Kind) {
    kind in {Pdf, Zip, Xls, Gzip, XGzip, Tar, Json, OctetStream}
  }

  lemma ApplicationNamesArePlain(kind: Kind)
    requires IsApplication(kind)
    ensures Plain(TypeName(kind))
  {
  }

  /** A known type read back from its own name is itself. */
  lemma KindOfItsName(kind: Kind)
    requires kind != Other
    ensures KindOf(TypeName(kind)) == kind
  {
    if IsApplication(kind) {
      KindOfApplication(kind);
    } else if kind in {Xlsx, Docx, Pptx} {
      KindOfOpenXml(kind);
    } else {
      KindOfTheRest(kind);
    }
  }

  lemma PlaintextIsPlain()
    ensures KindOf(Normalized("text/plain")) == Plaintext
  {
    hide KindOf, Normalized;
    NamesArePlain(Plaintext);
    PlainIsNormalized("text/plain");
    KindOfItsName(Plaintext);
  }

  lemma KindOfApplication(kind: Kind)
    requires IsApplication(kind)
    ensures KindOf(TypeName(kind)) == kind
  {
    if kind in {Pdf, Zip, Json} {
      KindOfDocument(kind);
    } else if kind in {Gzip, XGzip, Tar} {
      KindOfArchive(kind);
    } else {
      KindOfOpaque(kind);
    }
  }

  lemma KindOfDocument(kind: Kind)
    requires kind in {Pdf, Zip, Json}
    ensures KindOf(TypeName(kind)) == kind
  {
  }

  lemma KindOfArchive(kind: Kind)
    requires kind in {Gzip, XGzip, Tar}
    ensures KindOf(TypeName(kind)) == kind
  {
  }

  lemma KindOfOpaque(kind: Kind)
    requires kind in {Xls, OctetStream}
    ensures KindOf(TypeName(kind)) == kind
  {
  }

  lemma KindOfOpenXml(kind: Kind)
    requires kind in {Xlsx, Docx, Pptx}
    ensures KindOf(TypeName(kind)) == kind
  {
  }

  lemma KindOfTheRest(kind: Kind)
    requires kind != Other && !IsApplication(kind) && kind !in {Xlsx, Docx, Pptx}
    ensures KindOf(TypeName(kind)) == kind
  {
    if kind in {Csv, Markdown, Plaintext, Rfc822} {
      KindOfText(kind);
    } else {
      KindOfPicture(kind);
    }
  }

  lemma KindOfText(kind: Kind)
    requires kind in {Csv, Markdown, Plaintext, Rfc822}
    ensures KindOf(TypeName(kind)) == kind
  {
  }

  lemma KindOfPicture(kind: Kind)
    requires kind in {Png, Jpeg, Gif, Webp, Mp4}
    ensures KindOf(TypeName(kind)) == kind
  {
  }

  // ------------------------------------------------------ names from digests

  function HexDigit(n: nat): char
    requires n < 16
  {
    if n < 10 then '0' + n as char else 'a' + (n - 10) as char
  }

  predicate IsHexDigit(c: char) {
    '0' <= c <= '9' || 'a' <= c <= 'f' || 'A' <= c <= 'F'
  }

  lemma HexDigitsAre(c: char)
    ensures IsHexDigit(c) <==> c in "0123456789abcdefABCDEF"
  {
    assert c in "0123456789" <==> '0' <= c <= '9';
    assert c in "abcdef" <==> 'a' <= c <= 'f';
    assert c in "ABCDEF" <==> 'A' <= c <= 'F';
    assert "0123456789abcdefABCDEF" == "0123456789" + "abcdef" + "ABCDEF";
  }

  function Hex(bytes: Bytes): (hex: string)
    ensures |hex| == 2 * |bytes| && forall i :: 0 <= i < |hex| ==> IsHexDigit(hex[i])
  {
    if bytes == [] then "" else [HexDigit(bytes[0] / 16), HexDigit(bytes[0] % 16)] + Hex(bytes[1..])
  }

  lemma {:induction false} HexAppend(a: Bytes, b: Bytes)
    ensures Hex(a + b) == Hex(a) + Hex(b)
  {
    if a == [] {
      assert a + b == b;
    } else {
      HexAppend(a[1..], b);
      assert (a + b)[1..] == a[1..] + b;
    }
  }

  /** Writes two digits a byte and stops once there are enough. */
  method HexPrefix(bytes: Bytes, length: nat) returns (hex: string)
    ensures |hex| == Min(length, 2 * |bytes|) && hex == Hex(bytes)[..|hex|]
  {
    hex := "";
    var i := 0;
    while i < |bytes|
      invariant 0 <= i <= |bytes|
      invariant hex == Hex(bytes[..i]) && (i > 0 ==> |hex| < length)
    {
      assert bytes[..i + 1] == bytes[..i] + [bytes[i]];
      HexAppend(bytes[..i], [bytes[i]]);
      HexAppend(bytes[..i + 1], bytes[i + 1..]);
      assert bytes == bytes[..i + 1] + bytes[i + 1..];
      hex := hex + [HexDigit(bytes[i] / 16), HexDigit(bytes[i] % 16)];
      if |hex| >= length {
        hex := hex[..length];
        return;
      }
      i := i + 1;
    }
    assert bytes[..|bytes|] == bytes;
  }

  predicate AllHex(s: string) {
    forall i :: 0 <= i < |s| ==> IsHexDigit(s[i])
  }

  /** Splits at the first full stop. */
  function SplitOnce(name: string): Option<(string, string)> {
    var head := Before(name, '.');
    if |head| < |name| then Some((head, name[|head| + 1..])) else None
  }

  lemma SplitOfJoined(head: string, tail: string)
    requires AllHex(head)
    ensures SplitOnce(head + "." + tail) == Some((head, tail))
  {
    BeforeTheMark(head, tail, '.');
  }

  // ------------------------------------------------------------- signatures

  predicate StartsWith(bytes: Bytes, signature: Bytes) {
    signature <= bytes
  }

  predicate HasAt(bytes: Bytes, at: nat, signature: Bytes) {
    |bytes| >= at + |signature| && bytes[at..at + |signature|] == signature
  }

  const PNG_SIGNATURE: Bytes := [0x89] + Ascii("PNG\r\n") + [0x1a] + Ascii("\n")
  const OLE2: Bytes := [0xd0, 0xcf, 0x11, 0xe0, 0xa1, 0xb1, 0x1a, 0xe1]

  /** Whether the bytes are what a type with a signature has to be; other types have none to match. */
  predicate Signed(kind: Kind, bytes: Bytes) {
    match kind
    case Png => StartsWith(bytes, PNG_SIGNATURE)
    case Jpeg => StartsWith(bytes, [0xff, 0xd8, 0xff])
    case Gif => StartsWith(bytes, Ascii("GIF87a")) || StartsWith(bytes, Ascii("GIF89a"))
    case Webp => HasAt(bytes, 0, Ascii("RIFF")) && HasAt(bytes, 8, Ascii("WEBP"))
    case Pdf => StartsWith(bytes, Ascii("%PDF-"))
    case Zip => StartsWith(bytes, Ascii("PK"))
    case Xlsx => StartsWith(bytes, Ascii("PK"))
    case Docx => StartsWith(bytes, Ascii("PK"))
    case Pptx => StartsWith(bytes, Ascii("PK"))
    case Xls => StartsWith(bytes, OLE2)
    case Mp4 => HasAt(bytes, 4, Ascii("ftyp"))
    case Gzip => StartsWith(bytes, [0x1f, 0x8b])
    case XGzip => StartsWith(bytes, [0x1f, 0x8b])
    case Tar => HasAt(bytes, 257, Ascii("ustar"))
    case _ => true
  }

  /** Whether these bytes stand at this place of the content. */
  ghost predicate Carries(bytes: Bytes, at: nat, magic: Bytes) {
    at + |magic| <= |bytes| && forall i :: 0 <= i < |magic| ==> bytes[at + i] == magic[i]
  }

  /** The signatures byte by byte: pictures, documents, archives and films, and nothing asked of the rest. */
  lemma SignaturesByteByByte(bytes: Bytes)
    ensures Signed(Png, bytes) <==> Carries(bytes, 0, [0x89, 0x50, 0x4e, 0x47, 0x0d, 0x0a, 0x1a, 0x0a])
    ensures Signed(Jpeg, bytes) <==> Carries(bytes, 0, [0xff, 0xd8, 0xff])
    ensures Signed(Gif, bytes) <==>
              Carries(bytes, 0, [0x47, 0x49, 0x46, 0x38])
              && |bytes| >= 6 && bytes[4] in {0x37, 0x39} && bytes[5] == 0x61
    ensures Signed(Webp, bytes) <==>
              Carries(bytes, 0, [0x52, 0x49, 0x46, 0x46]) && Carries(bytes, 8, [0x57, 0x45, 0x42, 0x50])
    ensures Signed(Pdf, bytes) <==> Carries(bytes, 0, [0x25, 0x50, 0x44, 0x46, 0x2d])
    ensures forall kind :: kind in {Zip, Xlsx, Docx, Pptx} ==>
              (Signed(kind, bytes) <==> Carries(bytes, 0, [0x50, 0x4b]))
    ensures Signed(Xls, bytes) <==> Carries(bytes, 0, [0xd0, 0xcf, 0x11, 0xe0, 0xa1, 0xb1, 0x1a, 0xe1])
    ensures Signed(Mp4, bytes) <==> Carries(bytes, 4, [0x66, 0x74, 0x79, 0x70])
    ensures forall kind :: kind in {Gzip, XGzip} ==> (Signed(kind, bytes) <==> Carries(bytes, 0, [0x1f, 0x8b]))
    ensures Signed(Tar, bytes) <==> Carries(bytes, 257, [0x75, 0x73, 0x74, 0x61, 0x72])
    ensures forall kind :: kind in {Csv, Markdown, Plaintext, Json, Rfc822, OctetStream, Other} ==> Signed(kind, bytes)
  {
    SignedPictures(bytes);
    SignedFiles(bytes);
    SignedElsewhere(bytes);
  }

  lemma SignedPictures(bytes: Bytes)
    ensures Signed(Png, bytes) <==> Carries(bytes, 0, [0x89, 0x50, 0x4e, 0x47, 0x0d, 0x0a, 0x1a, 0x0a])
    ensures Signed(Jpeg, bytes) <==> Carries(bytes, 0, [0xff, 0xd8, 0xff])
    ensures Signed(Gif, bytes) <==>
              Carries(bytes, 0, [0x47, 0x49, 0x46, 0x38])
              && |bytes| >= 6 && bytes[4] in {0x37, 0x39} && bytes[5] == 0x61
  {
    assert PNG_SIGNATURE == [0x89, 0x50, 0x4e, 0x47, 0x0d, 0x0a, 0x1a, 0x0a];
    assert Ascii("GIF87a") == [0x47, 0x49, 0x46, 0x38, 0x37, 0x61];
    assert Ascii("GIF89a") == [0x47, 0x49, 0x46, 0x38, 0x39, 0x61];
    PrefixIsCarried(bytes, PNG_SIGNATURE);
    PrefixIsCarried(bytes, [0xff, 0xd8, 0xff]);
    PrefixIsCarried(bytes, Ascii("GIF87a"));
    PrefixIsCarried(bytes, Ascii("GIF89a"));
  }

  lemma SignedFiles(bytes: Bytes)
    ensures Signed(Pdf, bytes) <==> Carries(bytes, 0, [0x25, 0x50, 0x44, 0x46, 0x2d])
    ensures forall kind :: kind in {Zip, Xlsx, Docx, Pptx} ==>
              (Signed(kind, bytes) <==> Carries(bytes, 0, [0x50, 0x4b]))
    ensures Signed(Xls, bytes) <==> Carries(bytes, 0, [0xd0, 0xcf, 0x11, 0xe0, 0xa1, 0xb1, 0x1a, 0xe1])
    ensures forall kind :: kind in {Gzip, XGzip} ==> (Signed(kind, bytes) <==> Carries(bytes, 0, [0x1f, 0x8b]))
  {
    assert Ascii("%PDF-") == [0x25, 0x50, 0x44, 0x46, 0x2d] && Ascii("PK") == [0x50, 0x4b];
    PrefixIsCarried(bytes, Ascii("%PDF-"));
    PrefixIsCarried(bytes, Ascii("PK"));
    PrefixIsCarried(bytes, OLE2);
    PrefixIsCarried(bytes, [0x1f, 0x8b]);
  }

  lemma SignedElsewhere(bytes: Bytes)
    ensures Signed(Webp, bytes) <==>
              Carries(bytes, 0, [0x52, 0x49, 0x46, 0x46]) && Carries(bytes, 8, [0x57, 0x45, 0x42, 0x50])
    ensures Signed(Mp4, bytes) <==> Carries(bytes, 4, [0x66, 0x74, 0x79, 0x70])
    ensures Signed(Tar, bytes) <==> Carries(bytes, 257, [0x75, 0x73, 0x74, 0x61, 0x72])
  {
    assert Ascii("RIFF") == [0x52, 0x49, 0x46, 0x46] && Ascii("WEBP") == [0x57, 0x45, 0x42, 0x50];
    assert Ascii("ftyp") == [0x66, 0x74, 0x79, 0x70] && Ascii("ustar") == [0x75, 0x73, 0x74, 0x61, 0x72];
    PlaceIsCarried(bytes, 0, Ascii("RIFF"));
    PlaceIsCarried(bytes, 8, Ascii("WEBP"));
    PlaceIsCarried(bytes, 4, Ascii("ftyp"));
    PlaceIsCarried(bytes, 257, Ascii("ustar"));
  }

  lemma PrefixIsCarried(bytes: Bytes, signature: Bytes)
    ensures StartsWith(bytes, signature) <==> Carries(bytes, 0, signature)
  {
  }

  lemma PlaceIsCarried(bytes: Bytes, at: nat, signature: Bytes)
    ensures HasAt(bytes, at, signature) <==> Carries(bytes, at, signature)
  {
    if |bytes| >= at + |signature| {
      var part := bytes[at..at + |signature|];
      assert forall i :: 0 <= i < |signature| ==> part[i] == bytes[at + i];
    }
  }

  /** No content passes for two of the types told by how they begin. */
  lemma NoContentIsTwo(a: Kind, b: Kind, bytes: Bytes)
    requires a in {Png, Jpeg, Gif, Webp, Pdf, Zip, Xls, Gzip} && b in {Png, Jpeg, Gif, Webp, Pdf, Zip, Xls, Gzip}
    requires Signed(a, bytes) && Signed(b, bytes)
    ensures a == b
  {
    hide Signed;
    BeginsLike(a, bytes);
    BeginsLike(b, bytes);
  }

  function FirstByte(kind: Kind): Byte {
    match kind
    case Png => 0x89
    case Jpeg => 0xff
    case Gif => 0x47
    case Webp => 0x52
    case Pdf => 0x25
    case Xls => 0xd0
    case Gzip => 0x1f
    case _ => 0x50
  }

  lemma BeginsLike(kind: Kind, bytes: Bytes)
    requires kind in {Png, Jpeg, Gif, Webp, Pdf, Zip, Xls, Gzip} && Signed(kind, bytes)
    ensures bytes != [] && bytes[0] == FirstByte(kind)
  {
    hide Signed, Carries;
    SignaturesByteByByte(bytes);
    FirstCarried(bytes, [0x89, 0x50, 0x4e, 0x47, 0x0d, 0x0a, 0x1a, 0x0a]);
    FirstCarried(bytes, [0xff, 0xd8, 0xff]);
    FirstCarried(bytes, [0x47, 0x49, 0x46, 0x38]);
    FirstCarried(bytes, [0x52, 0x49, 0x46, 0x46]);
    FirstCarried(bytes, [0x25, 0x50, 0x44, 0x46, 0x2d]);
    FirstCarried(bytes, [0xd0, 0xcf, 0x11, 0xe0, 0xa1, 0xb1, 0x1a, 0xe1]);
    FirstCarried(bytes, [0x1f, 0x8b]);
    FirstCarried(bytes, [0x50, 0x4b]);
  }

  lemma FirstCarried(bytes: Bytes, magic: Bytes)
    requires magic != []
    ensures Carries(bytes, 0, magic) ==> bytes != [] && bytes[0] == magic[0]
  {
    assert Carries(bytes, 0, magic) ==> bytes[0 + 0] == magic[0];
  }
}
