/** UTF-8 text as bytes (section 4 of RFC 3629), and cutting it on a character. */
module Utf8 {

  type Byte = b: int | 0 <= b < 256

  type Bytes = seq<Byte>

  predicate Continuation(b: Byte) {
    0x80 <= b <= 0xBF
  }

  /** How many bytes the character at the front takes, or 0 if none is well formed there. */
  function CharLength(s: Bytes): (n: nat)
    ensures n <= |s| && n <= 4
    ensures forall i :: 0 < i < n ==> Continuation(s[i])
    ensures n > 0 ==> !Continuation(s[0])
  {
    if s == [] then 0
    else if s[0] <= 0x7F then 1
    else if 0xC2 <= s[0] <= 0xDF && |s| >= 2 && Continuation(s[1]) then 2
    else if |s| >= 3 && Continuation(s[1]) && Continuation(s[2])
            && ((s[0] == 0xE0 && 0xA0 <= s[1]) || 0xE1 <= s[0] <= 0xEC
                || (s[0] == 0xED && s[1] <= 0x9F) || 0xEE <= s[0] <= 0xEF) then 3
    else if |s| >= 4 && Continuation(s[1]) && Continuation(s[2]) && Continuation(s[3])
            && ((s[0] == 0xF0 && 0x90 <= s[1]) || 0xF1 <= s[0] <= 0xF3 || (s[0] == 0xF4 && s[1] <= 0x8F)) then 4
    else 0
  }

  predicate ValidText(s: Bytes)
    decreases |s|
  {
    s == [] || (CharLength(s) > 0 && ValidText(s[CharLength(s)..]))
  }

  /** Whether a character starts, or the text ends, at `i`. */
  predicate Boundary(s: Bytes, i: nat)
    requires i <= |s|
  {
    i == 0 || i == |s| || !Continuation(s[i])
  }

  /** What follows a character does not change how long it is. */
  lemma CharLengthOfPrefix(s: Bytes, k: nat)
    requires k <= |s|
    ensures CharLength(s) > 0 && CharLength(s) <= k ==> CharLength(s[..k]) == CharLength(s)
    ensures 0 < k < CharLength(s) ==> CharLength(s[..k]) == 0
  {
  }

  /** In valid text, the boundaries are exactly where a valid prefix ends. */
  lemma {:induction false} BoundaryEndsAValidPrefix(s: Bytes, k: nat)
    requires ValidText(s) && k <= |s|
    ensures Boundary(s, k) <==> ValidText(s[..k])
    ensures Boundary(s, k) ==> ValidText(s[k..])
    decreases |s|
  {
    if 0 < k < |s| {
      var n := CharLength(s);
      CharLengthOfPrefix(s, k);
      if k >= n {
        BoundaryEndsAValidPrefix(s[n..], k - n);
        assert s[..k][n..] == s[n..][..k - n];
        assert s[n..][k - n..] == s[k..];
        if k == n {
          assert s[n..] != [] && CharLength(s[n..]) > 0;
        }
      }
    } else {
      assert k == |s| ==> s[..k] == s;
    }
  }

  /** In valid text, a boundary is never more than three bytes back. */
  lemma {:induction false} BoundaryIsNear(s: Bytes, k: nat)
    requires ValidText(s) && k <= |s|
    ensures exists b :: k - 3 <= b <= k && 0 <= b && Boundary(s, b)
    decreases |s|
  {
    if s == [] {
      assert Boundary(s, 0);
    } else {
      var n := CharLength(s);
      if k < n {
        assert Boundary(s, 0);
      } else {
        BoundaryIsNear(s[n..], k - n);
        var b :| k - n - 3 <= b <= k - n && 0 <= b && Boundary(s[n..], b);
        if b == 0 && s[n..] != [] {
          assert CharLength(s[n..]) > 0;
        }
        assert Boundary(s, n + b);
      }
    }
  }

  /** The last boundary at or before `cut`. */
  function LastBoundary(s: Bytes, cut: nat): (k: nat)
    requires cut <= |s|
    ensures k <= cut && Boundary(s, k)
    ensures forall j :: k < j <= cut ==> !Boundary(s, j)
  {
    if Boundary(s, cut) then cut else LastBoundary(s, cut - 1)
  }

  function Min(a: nat, b: nat): nat {
    if a < b then a else b
  }

  function PrefixWithin(s: Bytes, max: nat): Bytes {
    s[..LastBoundary(s, Min(max, |s|))]
  }

  /** Steps back from the limit until it stands on a boundary. */
  method CutWithin(s: Bytes, max: nat) returns (prefix: Bytes)
    ensures prefix == PrefixWithin(s, max)
  {
    var cut: nat := Min(max, |s|);
    while !Boundary(s, cut)
      invariant cut <= |s|
      invariant LastBoundary(s, cut) == LastBoundary(s, Min(max, |s|))
      decreases cut
    {
      cut := cut - 1;
    }
    prefix := s[..cut];
  }

  /**
   Cutting valid text gives the longest valid prefix within the limit: no longer
   prefix within it is valid text, what is left over is valid text too, nothing is
   cut that fits, and a cut falls at most three bytes short.
   */
  lemma PrefixWithinIsLongest(s: Bytes, max: nat)
    requires ValidText(s)
    ensures var p := PrefixWithin(s, max);
            && p <= s && |p| <= max && ValidText(p) && ValidText(s[|p|..])
            && (forall k :: |p| < k <= |s| && ValidText(s[..k]) ==> k > max)
            && (p == s <==> |s| <= max)
            && (p != s ==> max - |p| <= 3)
  {
    var cut := Min(max, |s|);
    var k := LastBoundary(s, cut);
    BoundaryEndsAValidPrefix(s, k);
    forall j | k < j <= |s| && ValidText(s[..j])
      ensures j > max
    {
      BoundaryEndsAValidPrefix(s, j);
    }
    BoundaryIsNear(s, cut);
    var b :| cut - 3 <= b <= cut && 0 <= b && Boundary(s, b);
    assert b <= k;
  }

  /** Text written in the program, all of it ASCII. */
  function Ascii(text: string): Bytes {
    seq(|text|, i requires 0 <= i < |text| => if text[i] < 128 as char then text[i] as int else 0)
  }

  lemma {:induction false} AsciiIsValid(text: string)
    ensures ValidText(Ascii(text))
  {
    if text != "" {
      AsciiIsValid(text[1..]);
      assert Ascii(text)[1..] == Ascii(text[1..]);
    }
  }

  /** What follows does not change the character at the front. */
  lemma CharLengthOfConcatenation(a: Bytes, b: Bytes)
    requires CharLength(a) > 0
    ensures CharLength(a + b) == CharLength(a)
  {
    var n := CharLength(a);
    assert forall i :: 0 <= i < n ==> (a + b)[i] == a[i];
  }

  /** Valid text is a character and more valid text, or nothing. */
  lemma ValidStep(s: Bytes)
    requires s != []
    ensures ValidText(s) <==> CharLength(s) > 0 && ValidText(s[CharLength(s)..])
  {
  }

  /** Valid text followed by valid text is valid text. */
  lemma {:induction false} ValidConcatenation(a: Bytes, b: Bytes)
    requires ValidText(a) && ValidText(b)
    ensures ValidText(a + b)
    decreases |a|
  {
    hide CharLength, ValidText;
    if a == [] {
      assert a + b == b;
    } else {
      ValidStep(a);
      ValidStep(a + b);
      CharLengthOfConcatenation(a, b);
      var n := CharLength(a);
      ValidConcatenation(a[n..], b);
      assert (a + b)[n..] == a[n..] + b;
    }
  }

  function EncodeChar(c: char): (bytes: Bytes)
    ensures 1 <= |bytes| <= 4
  {
    var x := c as int;
    if x < 0x80 then [x]
    else if x < 0x800 then [0xC0 + x / 64, 0x80 + x % 64]
    else if x < 0x1_0000 then [0xE0 + x / 4096, 0x80 + x / 64 % 64, 0x80 + x % 64]
    else [0xF0 + x / 262144, 0x80 + x / 4096 % 64, 0x80 + x / 64 % 64, 0x80 + x % 64]
  }

  function Encode(text: string): Bytes {
    if text == "" then [] else EncodeChar(text[0]) + Encode(text[1..])
  }

  /** Bytes a text takes once encoded. */
  function ByteLength(text: string): nat {
    |Encode(text)|
  }

  lemma EncodedCharIsOne(c: char)
    ensures CharLength(EncodeChar(c)) == |EncodeChar(c)|
  {
  }

  /** What is encoded is valid text. */
  lemma {:induction false} EncodedIsValid(text: string)
    ensures ValidText(Encode(text))
  {
    if text != "" {
      hide CharLength, ValidText, EncodeChar;
      EncodedIsValid(text[1..]);
      EncodedCharIsOne(text[0]);
      var first := EncodeChar(text[0]);
      assert first[|first|..] == [];
      ValidStep(first);
      EmptyIsValid();
      ValidConcatenation(first, Encode(text[1..]));
    }
  }

  lemma EmptyIsValid()
    ensures ValidText([])
  {
  }
}
