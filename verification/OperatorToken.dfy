/**
 Replacing the operator token: in the configuration a Hive starts from, by rewriting
 its lines, and in memory.
 */
module OperatorToken {
  import opened Options
  import opened Sorting
  import opened Text
  import opened Utf8

  const PREFIX := "SWARM_OPERATOR_TOKEN="
  const MIN_TOKEN_BYTES: nat := 16
  const MAX_TOKEN_BYTES: nat := 200

  datatype RotateError = TokenLength | TokenCharacters | ConfigUnavailable | NotPersisted | AuthUnconfigured

  // ------------------------------------------------------------------- lines

  function StripReturn(line: string): string {
    if line != "" && line[|line| - 1] == '\r' then line[..|line| - 1] else line
  }

  /** The lines between line feeds, the last with or without one, each as it is. */
  function RawLines(text: string): seq<string>
    decreases |text|
  {
    var line := Before(text, '\n');
    if text == "" then []
    else if |line| == |text| then [text]
    else if |line| < |text| then [line] + RawLines(text[|line| + 1..])
    else []
  }

  /** The same with one carriage return taken off where a line feed follows it. */
  function Lines(text: string): seq<string>
    decreases |text|
  {
    var line := Before(text, '\n');
    if text == "" then []
    else if |line| == |text| then [text]
    else if |line| < |text| then [StripReturn(line)] + Lines(text[|line| + 1..])
    else []
  }

  /** Lines joined by line feeds, with one more at the end. */
  function Body(lines: seq<string>): string {
    if lines == [] then "" else lines[0] + "\n" + Body(lines[1..])
  }

  function TokenLine(token: string): string {
    PREFIX + token
  }

  predicate IsTokenLine(line: string) {
    PREFIX <= line
  }

  function Replaced(lines: seq<string>, token: string): seq<string> {
    if lines == [] then []
    else [if IsTokenLine(lines[0]) then TokenLine(token) else lines[0]] + Replaced(lines[1..], token)
  }

  predicate HasToken(lines: seq<string>) {
    exists l :: l in lines && IsTokenLine(l)
  }

  function Rewritten(lines: seq<string>, token: string): seq<string> {
    if HasToken(lines) then Replaced(lines, token) else Replaced(lines, token) + [TokenLine(token)]
  }

  function Persisted(text: string, token: string): string {
    Body(Rewritten(Lines(text), token))
  }

  predicate Printable(token: string) {
    forall c :: c in token ==> '!' <= c <= '~'
  }

  // ---------------------------------------------------------------- rotating

  lemma HasTokenStep(lines: seq<string>, line: string)
    ensures HasToken(lines + [line]) <==> HasToken(lines) || IsTokenLine(line)
  {
    hide IsTokenLine;
    assert forall l :: l in lines + [line] <==> l in lines || l == line;
  }

  /** Replaces every token line, and adds one if there was none. */
  method ReplaceTokenLines(existing: seq<string>, chosen: string) returns (lines: seq<string>)
    ensures lines == Rewritten(existing, chosen)
  {
    hide HasToken, TokenLine, IsTokenLine;
    var replaced := false;
    lines := [];
    assert !HasToken([]) by { NoTokenInNothing(); }
    var i := 0;
    while i < |existing|
      invariant 0 <= i <= |existing|
      invariant lines + Replaced(existing[i..], chosen) == Replaced(existing, chosen)
      invariant replaced <==> HasToken(existing[..i])
    {
      assert existing[i..][1..] == existing[i + 1..];
      assert existing[..i + 1] == existing[..i] + [existing[i]];
      HasTokenStep(existing[..i], existing[i]);
      if IsTokenLine(existing[i]) {
        replaced := true;
        lines := lines + [TokenLine(chosen)];
      } else {
        lines := lines + [existing[i]];
      }
      i := i + 1;
    }
    assert existing[..|existing|] == existing;
    if !replaced {
      lines := lines + [TokenLine(chosen)];
    }
  }

  lemma NoTokenInNothing()
    ensures !HasToken([])
  {
  }

  /** Where a rotation may fail: reading the configuration, or writing and renaming its replacement. */
  datatype Disk = Disk(readable: bool, writable: bool)

  /** A Hive's configuration file, if it knows where it is, and the token in force, if it has one. */
  class Operator {
    var config: Option<string>
    var token: Option<string>

    constructor (config: Option<string>, token: Option<string>)
      ensures this.config == config && this.token == token
    {
      this.config, this.token := config, token;
    }

    /** Rewrites the token lines to a neighbouring file, and puts it in place only when it is whole. */
    method Persist(chosen: string, disk: Disk) returns (ok: bool)
      requires config.Some?
      modifies this`config
      ensures ok <==> disk.readable && disk.writable
      ensures config == if ok then Some(Persisted(old(config).value, chosen)) else old(config)
    {
      if !disk.readable {
        return false;
      }
      var lines := ReplaceTokenLines(Lines(config.value), chosen);
      if !disk.writable {
        return false;
      }
      config := Some(Body(lines));
      ok := true;
    }

    /**
     A token that will not do changes nothing; nor does a configuration that cannot be
     found, read or written. What is written is in force as well, unless there was no
     token to replace.
     */
    method RotateToken(request: string, disk: Disk) returns (refused: Option<RotateError>)
      modifies this
      ensures var chosen := Trim(request);
              var fits := 16 <= ByteLength(chosen) <= 200;
              var plain := forall c :: c in chosen ==> '!' <= c <= '~';
              && (refused == Some(TokenLength) <==> !fits)
              && (refused == Some(TokenCharacters) <==> fits && !plain)
              && (refused.None? || refused == Some(AuthUnconfigured)
                  <==> fits && plain && old(config).Some? && disk.readable && disk.writable)
              && config == (if refused.None? || refused == Some(AuthUnconfigured)
                            then Some(Persisted(old(config).value, chosen)) else old(config))
              && token == (if refused.None? then Some(chosen) else old(token))
              && (refused.None? ==> old(token).Some?)
    {
      hide Trim, Persisted;
      var chosen := Trim(request);
      if ByteLength(chosen) < MIN_TOKEN_BYTES || ByteLength(chosen) > MAX_TOKEN_BYTES {
        return Some(TokenLength);
      }
      if !Printable(chosen) {
        return Some(TokenCharacters);
      }
      if config.None? {
        return Some(ConfigUnavailable);
      }
      var persisted := Persist(chosen, disk);
      if !persisted {
        return Some(NotPersisted);
      }
      if token.None? {
        return Some(AuthUnconfigured);
      }
      token := Some(chosen);
      refused := None;
    }
  }

  // ---------------------------------------------------------- reading it back

  predicate OneLine(line: string) {
    '\n' !in line
  }

  ghost predicate AllOneLine(lines: seq<string>) {
    forall l :: l in lines ==> OneLine(l)
  }

  function Others(lines: seq<string>): seq<string> {
    Filter((l: string) => !IsTokenLine(l), lines)
  }

  function Stripped(lines: seq<string>): seq<string> {
    if lines == [] then [] else [StripReturn(lines[0])] + Stripped(lines[1..])
  }

  /** What was written reads back as the same lines, but for a carriage return at the end of one. */
  lemma {:induction false} BodyReadsBack(lines: seq<string>)
    requires AllOneLine(lines)
    ensures RawLines(Body(lines)) == lines
    ensures Lines(Body(lines)) == Stripped(lines)
  {
    if lines != [] {
      BodyReadsBack(lines[1..]);
      assert lines[0] in lines && OneLine(lines[0]);
      BeforeTheMark(lines[0], Body(lines[1..]), '\n');
      var text := Body(lines);
      assert text == lines[0] + "\n" + Body(lines[1..]);
      assert text[|lines[0]| + 1..] == Body(lines[1..]);
    }
  }

  lemma BeforeIsOneLine(text: string)
    ensures OneLine(Before(text, '\n'))
    ensures |Before(text, '\n')| <= |text|
    ensures |Before(text, '\n')| == |text| ==> Before(text, '\n') == text
  {
    BeforeHasNone(text, '\n');
    BeforeIsAPrefix(text, '\n');
  }

  lemma {:induction false} LinesAreOneLine(text: string)
    ensures AllOneLine(Lines(text)) && AllOneLine(RawLines(text))
    decreases |text|
  {
    if text != "" {
      BeforeIsOneLine(text);
      var line := Before(text, '\n');
      if |line| < |text| {
        LinesAreOneLine(text[|line| + 1..]);
        assert forall c :: c in StripReturn(line) ==> c in line;
      }
    }
  }

  lemma {:induction false} ReplacedAre(lines: seq<string>, token: string)
    ensures |Replaced(lines, token)| == |lines|
    ensures forall i :: 0 <= i < |lines| ==>
              Replaced(lines, token)[i] == if IsTokenLine(lines[i]) then TokenLine(token) else lines[i]
    ensures Others(Replaced(lines, token)) == Others(lines)
  {
    if lines != [] {
      ReplacedAre(lines[1..], token);
      assert Replaced(lines, token)[1..] == Replaced(lines[1..], token);
      assert IsTokenLine(TokenLine(token));
    }
  }

  lemma {:induction false} OthersAppend(lines: seq<string>, token: string)
    ensures Others(lines + [TokenLine(token)]) == Others(lines)
  {
    if lines == [] {
      assert lines + [TokenLine(token)] == [TokenLine(token)];
      assert IsTokenLine(TokenLine(token));
    } else {
      OthersAppend(lines[1..], token);
      assert (lines + [TokenLine(token)])[1..] == lines[1..] + [TokenLine(token)];
    }
  }

  /** The other lines come through in order, and every token line is the new one, of which there is one. */
  lemma RewrittenAre(lines: seq<string>, token: string)
    ensures var r := Rewritten(lines, token);
            && Others(r) == Others(lines)
            && HasToken(r)
            && (forall l :: l in r && IsTokenLine(l) ==> l == TokenLine(token))
            && (forall l :: l in r ==> l in lines || l == TokenLine(token))
  {
    ReplacedAre(lines, token);
    OthersAppend(Replaced(lines, token), token);
    assert IsTokenLine(TokenLine(token));
    if HasToken(lines) {
      var l :| l in lines && IsTokenLine(l);
      var i :| 0 <= i < |lines| && lines[i] == l;
      assert Replaced(lines, token)[i] == TokenLine(token);
    } else {
      assert Rewritten(lines, token)[|lines|] == TokenLine(token);
    }
  }

  lemma TokenLineIsOneLine(token: string)
    requires Printable(token)
    ensures OneLine(TokenLine(token)) && StripReturn(TokenLine(token)) == TokenLine(token)
  {
    assert OneLine(PREFIX);
    var line := TokenLine(token);
    assert line[|line| - 1] in line;
    assert token != "" ==> line[|line| - 1] == token[|token| - 1];
    assert token == "" ==> line == PREFIX;
  }

  lemma RewrittenAreOneLine(text: string, token: string)
    requires Printable(token)
    ensures AllOneLine(Rewritten(Lines(text), token))
  {
    LinesAreOneLine(text);
    RewrittenAre(Lines(text), token);
    TokenLineIsOneLine(token);
  }

  // ------------------------------------------------------ what is not touched

  predicate EndsInReturn(line: string) {
    line != "" && line[|line| - 1] == '\r'
  }

  /** Some other setting's line ends in a carriage return and a line feed. */
  predicate OthersEndInReturns(text: string)
    decreases |text|
  {
    var line := Before(text, '\n');
    |line| < |text|
    && ((EndsInReturn(line) && !IsTokenLine(line)) || OthersEndInReturns(text[|line| + 1..]))
  }

  lemma StripKeepsRole(line: string)
    ensures IsTokenLine(StripReturn(line)) <==> IsTokenLine(line)
  {
    assert PREFIX[|PREFIX| - 1] == '=';
    if IsTokenLine(line) && EndsInReturn(line) {
      assert line[|PREFIX| - 1] == '=';
    }
  }

  lemma {:induction false} StripLosesExactlyReturns(text: string)
    ensures Others(Lines(text)) == Others(RawLines(text)) <==> !OthersEndInReturns(text)
    decreases |text|
  {
    hide Others, IsTokenLine;
    if text != "" {
      BeforeIsOneLine(text);
      var line := Before(text, '\n');
      if |line| < |text| {
        StripLosesExactlyReturns(text[|line| + 1..]);
        StripKeepsRole(line);
        OthersOfFirst(StripReturn(line), Lines(text[|line| + 1..]));
        OthersOfFirst(line, RawLines(text[|line| + 1..]));
        assert StripReturn(line) == line <==> !EndsInReturn(line);
        assert [] + Others(Lines(text[|line| + 1..])) == Others(Lines(text[|line| + 1..]));
        assert [] + Others(RawLines(text[|line| + 1..])) == Others(RawLines(text[|line| + 1..]));
        if !IsTokenLine(line) {
          SameTwo(StripReturn(line), Others(Lines(text[|line| + 1..])), line, Others(RawLines(text[|line| + 1..])));
        }
      }
    }
  }

  lemma SameTwo(a: string, x: seq<string>, b: string, y: seq<string>)
    ensures [a] + x == [b] + y <==> a == b && x == y
  {
    if [a] + x == [b] + y {
      assert ([a] + x)[0] == a && ([b] + y)[0] == b;
      assert ([a] + x)[1..] == x && ([b] + y)[1..] == y;
    }
  }

  lemma OthersOfFirst(line: string, rest: seq<string>)
    ensures Others([line] + rest) == (if IsTokenLine(line) then [] else [line]) + Others(rest)
  {
    assert ([line] + rest)[1..] == rest;
  }

  /**
   Reading the rewritten file line by line: there is a token line, every one of them
   is the new one, and the other lines are the other lines there were, in order, less
   a carriage return where one was taken off. Nothing else was touched exactly when
   no other setting's line ended in a carriage return and a line feed.
   */
  lemma RewriteKeepsEverythingElse(text: string, token: string)
    requires Printable(token)
    ensures var after := RawLines(Persisted(text, token));
            && "SWARM_OPERATOR_TOKEN=" + token in after
            && (forall l :: l in after && "SWARM_OPERATOR_TOKEN=" <= l ==> l == "SWARM_OPERATOR_TOKEN=" + token)
            && Others(after) == Others(Lines(text))
            && (Others(after) == Others(RawLines(text)) <==> !OthersEndInReturns(text))
  {
    hide Others, Lines, RawLines;
    RewrittenAreOneLine(text, token);
    BodyReadsBack(Rewritten(Lines(text), token));
    RewrittenAre(Lines(text), token);
    StripLosesExactlyReturns(text);
  }

  lemma ReturnIsThere(line: string)
    ensures EndsInReturn(line) ==> '\r' in line
  {
  }

  lemma {:induction false} NoReturnsToLose(text: string)
    requires '\r' !in text
    ensures !OthersEndInReturns(text)
    ensures Lines(text) == RawLines(text)
    ensures forall l :: l in Lines(text) ==> !EndsInReturn(l)
    decreases |text|
  {
    if text != "" {
      BeforeIsOneLine(text);
      BeforeIsAPrefix(text, '\n');
      var line := Before(text, '\n');
      assert forall c :: c in line ==> c in text;
      ReturnIsThere(line);
      if |line| < |text| {
        var rest := text[|line| + 1..];
        assert forall c :: c in rest ==> c in text;
        NoReturnsToLose(rest);
      }
    }
  }

  /** Without carriage returns, every other setting is untouched, and read back as it was written. */
  lemma RewriteIsFaithful(text: string, token: string)
    requires Printable(token) && '\r' !in text
    ensures var after := Lines(Persisted(text, token));
            && Others(after) == Others(Lines(text)) == Others(RawLines(text))
            && HasToken(after)
            && forall l :: l in after && IsTokenLine(l) ==> l == TokenLine(token)
  {
    hide Others, Lines, RawLines, Stripped;
    NoReturnsToLose(text);
    RewrittenAreOneLine(text, token);
    var lines := Rewritten(Lines(text), token);
    BodyReadsBack(lines);
    RewrittenAre(Lines(text), token);
    TokenLineIsOneLine(token);
    assert forall l :: l in lines ==> !EndsInReturn(l);
    NothingToStrip(lines);
  }

  lemma {:induction false} NothingToStrip(lines: seq<string>)
    requires forall l :: l in lines ==> !EndsInReturn(l)
    ensures Stripped(lines) == lines
  {
    if lines != [] {
      assert lines[0] in lines && lines == [lines[0]] + lines[1..];
      NothingToStrip(lines[1..]);
    }
  }

  // ----------------------------------------------------------- rotating twice

  /** A line as it is read still ends in a carriage return: it had two, or was last and had no line feed. */
  ghost predicate ReturnsLeft(lines: seq<string>) {
    exists l :: l in lines && EndsInReturn(l) && !IsTokenLine(l)
  }

  lemma {:induction false} StrippedAre(lines: seq<string>)
    ensures |Stripped(lines)| == |lines|
    ensures forall i :: 0 <= i < |lines| ==> Stripped(lines)[i] == StripReturn(lines[i])
  {
    if lines != [] {
      StrippedAre(lines[1..]);
    }
  }

  lemma {:induction false} BodyTellsTheLines(a: seq<string>, b: seq<string>)
    requires AllOneLine(a) && AllOneLine(b) && Body(a) == Body(b)
    ensures a == b
  {
    BodyReadsBack(a);
    BodyReadsBack(b);
  }

  lemma {:induction false} ReplacedAppend(a: seq<string>, b: seq<string>, token: string)
    ensures Replaced(a + b, token) == Replaced(a, token) + Replaced(b, token)
  {
    hide IsTokenLine, TokenLine;
    if a == [] {
      assert a + b == b;
    } else {
      ReplacedAppend(a[1..], b, token);
      assert (a + b)[1..] == a[1..] + b;
    }
  }

  lemma {:induction false} StrippedAppend(a: seq<string>, b: seq<string>)
    ensures Stripped(a + b) == Stripped(a) + Stripped(b)
  {
    if a == [] {
      assert a + b == b;
    } else {
      StrippedAppend(a[1..], b);
      assert (a + b)[1..] == a[1..] + b;
    }
  }

  lemma ReturnsLeftStep(line: string, rest: seq<string>)
    ensures ReturnsLeft([line] + rest) <==> (EndsInReturn(line) && !IsTokenLine(line)) || ReturnsLeft(rest)
  {
    hide IsTokenLine;
    assert forall l :: l in [line] + rest <==> l == line || l in rest;
  }

  /** Line by line, replacing twice is replacing once with the last, but for the returns that are left. */
  lemma {:induction false} EachTwice(lines: seq<string>, first: string, last: string)
    requires Printable(first)
    ensures Replaced(Stripped(Replaced(lines, first)), last) == Replaced(lines, last) <==> !ReturnsLeft(lines)
  {
    if lines != [] {
      hide IsTokenLine, TokenLine, ReturnsLeft;
      var line, rest := lines[0], lines[1..];
      EachTwice(rest, first, last);
      TokenLineIsOneLine(first);
      FirstIsToken(first);
      StripKeepsRole(line);
      assert lines == [line] + rest;
      ReturnsLeftStep(line, rest);
      var once := Replaced(lines, first);
      assert once[1..] == Replaced(rest, first);
      assert Stripped(once)[1..] == Stripped(Replaced(rest, first));
      SameTwo(if IsTokenLine(line) then TokenLine(last) else StripReturn(line),
              Replaced(Stripped(Replaced(rest, first)), last),
              if IsTokenLine(line) then TokenLine(last) else line,
              Replaced(rest, last));
    }
  }

  /** Replacing twice is replacing once with the last, but for the returns that are left. */
  lemma ReplacedTwice(lines: seq<string>, first: string, last: string)
    requires Printable(first)
    ensures Rewritten(Stripped(Rewritten(lines, first)), last) == Rewritten(lines, last) <==> !ReturnsLeft(lines)
  {
    TokenSurvives(lines, first);
    EachTwice(lines, first, last);
    if !HasToken(lines) {
      hide IsTokenLine, TokenLine, HasToken, ReturnsLeft;
      var added := [TokenLine(first)];
      TokenLineIsOneLine(first);
      FirstIsToken(first);
      StrippedAppend(Replaced(lines, first), added);
      assert Stripped(added) == added;
      ReplacedAppend(Stripped(Replaced(lines, first)), added, last);
      assert Replaced(added, last) == [TokenLine(last)];
      SameFront(Replaced(Stripped(Replaced(lines, first)), last), Replaced(lines, last), TokenLine(last));
    }
  }

  lemma SameFront(x: seq<string>, y: seq<string>, last: string)
    ensures x + [last] == y + [last] <==> x == y
  {
    if x + [last] == y + [last] {
      assert |x| == |y|;
      assert (x + [last])[..|x|] == x && (y + [last])[..|y|] == y;
    }
  }

  lemma FirstIsToken(token: string)
    ensures IsTokenLine(TokenLine(token))
  {
  }

  lemma TokenSurvives(lines: seq<string>, token: string)
    requires Printable(token)
    ensures HasToken(Stripped(Rewritten(lines, token)))
  {
    var once := Rewritten(lines, token);
    RewrittenAre(lines, token);
    StrippedAre(once);
    var l :| l in once && IsTokenLine(l);
    var i :| 0 <= i < |once| && once[i] == l;
    StripKeepsRole(l);
    assert Stripped(once)[i] in Stripped(once);
  }

  /**
   Rotating twice leaves the file that rotating once with the last token would,
   exactly when no other line, as it was read, still ended in a carriage return; so
   always when the configuration has none.
   */
  lemma RotatingTwiceIsOnce(text: string, first: string, last: string)
    requires Printable(first) && Printable(last)
    ensures Persisted(Persisted(text, first), last) == Persisted(text, last) <==> !ReturnsLeft(Lines(text))
    ensures '\r' !in text ==> !ReturnsLeft(Lines(text))
  {
    hide Rewritten, Stripped;
    RewrittenAreOneLine(text, first);
    BodyReadsBack(Rewritten(Lines(text), first));
    ReplacedTwice(Lines(text), first, last);
    RewrittenAreOneLine(text, last);
    RewrittenAreOneLine(Persisted(text, first), last);
    var again, direct := Rewritten(Lines(Persisted(text, first)), last), Rewritten(Lines(text), last);
    if Body(again) == Body(direct) {
      BodyTellsTheLines(again, direct);
    }
    if '\r' !in text {
      NoReturnsToLose(text);
    }
  }

  /** A configuration written with carriage returns loses them from its other settings. */
  lemma OtherSettingsLoseTheirReturns(token: string)
    requires Printable(token)
    ensures Others(RawLines(Persisted("A=1\r\n", token))) == ["A=1"]
    ensures Others(RawLines("A=1\r\n")) == ["A=1\r"]
  {
    var text := "A=1\r\n";
    assert text == "A=1\r" + "\n" + "";
    BeforeTheMark("A=1\r", "", '\n');
    assert Before(text, '\n') == "A=1\r";
    assert text[5..] == "" && "A=1\r"[..3] == "A=1" && StripReturn("A=1\r") == "A=1";
    assert Lines(text) == ["A=1"] && RawLines(text) == ["A=1\r"];
    RewriteKeepsEverythingElse(text, token);
    OthersOfFirst("A=1", []);
    OthersOfFirst("A=1\r", []);
    assert ["A=1"] + [] == ["A=1"] && ["A=1\r"] + [] == ["A=1\r"];
  }
}
