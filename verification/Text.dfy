/** Trimming text, and cutting it at a character, as the source's strings are. */
module Text {

  /** The white space of Unicode, which trimming takes off. */
  predicate Blank(c: char) {
    var x := c as int;
    || 0x09 <= x <= 0x0D || x == 0x20 || x == 0x85 || x == 0xA0 || x == 0x1680 || 0x2000 <= x <= 0x200A
    || x == 0x2028 || x == 0x2029 || x == 0x202F || x == 0x205F || x == 0x3000
  }

  /** Code point by code point. */
  lemma BlankIsWhiteSpace(c: char)
    ensures Blank(c) <==>
              c as int in {0x09, 0x0A, 0x0B, 0x0C, 0x0D, 0x20, 0x85, 0xA0, 0x1680, 0x2000, 0x2001, 0x2002, 0x2003,
                           0x2004, 0x2005, 0x2006, 0x2007, 0x2008, 0x2009, 0x200A, 0x2028, 0x2029,
                           0x202F, 0x205F, 0x3000}
  {
  }

  function TrimStart(s: string): string {
    if s != "" && Blank(s[0]) then TrimStart(s[1..]) else s
  }

  function TrimEnd(s: string): string {
    if s != "" && Blank(s[|s| - 1]) then TrimEnd(s[..|s| - 1]) else s
  }

  function Trim(s: string): string {
    TrimEnd(TrimStart(s))
  }

  /** What comes before the first `at`, or all of it. */
  function Before(s: string, at: char): string {
    if s == "" || s[0] == at then "" else [s[0]] + Before(s[1..], at)
  }

  lemma {:induction false} BeforeIsAll(s: string, at: char)
    requires forall i :: 0 <= i < |s| ==> s[i] != at
    ensures Before(s, at) == s
  {
    if s != "" {
      BeforeIsAll(s[1..], at);
    }
  }

  lemma {:induction false} BeforeTheMark(head: string, tail: string, at: char)
    requires forall i :: 0 <= i < |head| ==> head[i] != at
    ensures Before(head + [at] + tail, at) == head
    decreases |head|
  {
    var s := head + [at] + tail;
    if head != "" {
      BeforeTheMark(head[1..], tail, at);
      assert s[1..] == head[1..] + [at] + tail;
    }
  }

  lemma {:induction false} BeforeHasNone(s: string, at: char)
    ensures forall i :: 0 <= i < |Before(s, at)| ==> Before(s, at)[i] != at
  {
    if s != "" && s[0] != at {
      BeforeHasNone(s[1..], at);
    }
  }

  lemma {:induction false} TrimStartIsASuffix(s: string)
    ensures |TrimStart(s)| <= |s| && TrimStart(s) == s[|s| - |TrimStart(s)|..]
    ensures TrimStart(s) == "" || !Blank(TrimStart(s)[0])
    ensures forall k :: 0 <= k < |s| - |TrimStart(s)| ==> Blank(s[k])
  {
    hide Blank;
    if s != "" && Blank(s[0]) {
      TrimStartIsASuffix(s[1..]);
    }
  }

  lemma {:induction false} TrimEndIsAPrefix(s: string)
    ensures |TrimEnd(s)| <= |s| && TrimEnd(s) == s[..|TrimEnd(s)|]
    ensures TrimEnd(s) == "" || !Blank(TrimEnd(s)[|TrimEnd(s)| - 1])
    ensures forall k :: |TrimEnd(s)| <= k < |s| ==> Blank(s[k])
  {
    hide Blank;
    if s != "" && Blank(s[|s| - 1]) {
      TrimEndIsAPrefix(s[..|s| - 1]);
    }
  }

  /** What is taken off is white space at the ends, and what is left neither starts nor ends with any. */
  ghost predicate Trimmed(s: string, i: int, j: int) {
    && 0 <= i <= j <= |s|
    && (forall k :: 0 <= k < |s| && !(i <= k < j) ==> Blank(s[k]))
    && (i < j ==> !Blank(s[i]) && !Blank(s[j - 1]))
  }

  /** Trimming takes only from the ends, and what is trimmed has nothing left to take. */
  lemma TrimIsASlice(s: string)
    ensures exists i, j :: Trimmed(s, i, j) && Trim(s) == s[i..j]
    ensures Trim(Trim(s)) == Trim(s)
  {
    hide Blank;
    TrimStartIsASuffix(s);
    var start := TrimStart(s);
    TrimEndIsAPrefix(start);
    var t := TrimEnd(start);
    var i := |s| - |start|;
    assert t == s[i..i + |t|];
    forall k | i + |t| <= k < |s|
      ensures Blank(s[k])
    {
      assert s[k] == start[k - i];
    }
    if t != "" {
      assert t[0] == start[0] == s[i] && t[|t| - 1] == s[i + |t| - 1];
    }
    assert Trimmed(s, i, i + |t|);
  }

  /** What comes before is a prefix, and the character it was cut at comes right after it. */
  lemma {:induction false} BeforeIsAPrefix(s: string, at: char)
    ensures |Before(s, at)| <= |s| && Before(s, at) == s[..|Before(s, at)|]
    ensures |Before(s, at)| < |s| ==> s[|Before(s, at)|] == at
  {
    if s != "" && s[0] != at {
      BeforeIsAPrefix(s[1..], at);
    }
  }
}
