/** Appending patterns to an ignore file without disturbing it. */
module GitignoreAppends {
  import opened Wrappers
  import opened GitignorePatterns

  // ----- the lines of a text -----

  function FirstNewline(text: string): (n: nat)
    ensures n <= |text| && (n < |text| ==> text[n] == '\n')
    ensures forall i :: 0 <= i < n ==> text[i] != '\n'
  {
    if text == "" || text[0] == '\n' then 0 else 1 + FirstNewline(text[1..])
  }

  /** A carriage return before a line feed belongs to the line ending. */
  function WithoutCr(line: string): string {
    if line != "" && line[|line| - 1] == '\r' then line[..|line| - 1] else line
  }

  function Lines(text: string): seq<string>
    decreases |text|
  {
    if text == "" then []
    else
      var n := FirstNewline(text);
      if n == |text| then [text] else [WithoutCr(text[..n])] + Lines(text[n + 1..])
  }

  predicate IsTerminator(t: string) {
    t == "\n" || t == "\r\n"
  }

  predicate Ended(text: string) {
    text == "" || text[|text| - 1] == '\n'
  }

  /** The patterns the code finds in the file when it looks for what is already there. */
  function Present(text: string): set<string> {
    set line | line in Lines(text) :: Trimmed(line)
  }

  // ----- what is appended -----

  /** The patterns that are not there yet, trimmed, each once, in order of first mention. */
  function Missing(present: set<string>, patterns: seq<string>): seq<string> {
    if patterns == [] then []
    else
      var found := Missing(present, patterns[..|patterns| - 1]);
      var p := Trimmed(patterns[|patterns| - 1]);
      if p == "" || p in present || p in found then found else found + [p]
  }

  function AsLines(patterns: seq<string>, terminator: string): string {
    if patterns == [] then ""
    else AsLines(patterns[..|patterns| - 1], terminator) + patterns[|patterns| - 1] + terminator
  }

  function Completed(existing: string, terminator: string): string {
    if Ended(existing) then existing else existing + terminator
  }

  /** The new content, or nothing when there is nothing to add. */
  function Appended(existing: string, patterns: seq<string>, terminator: string): Option<string> {
    var missing := Missing(Present(existing), patterns);
    if missing == [] then None else Some(Completed(existing, terminator) + AsLines(missing, terminator))
  }

  method ReadPresent(existing: string) returns (present: set<string>)
    ensures present == Present(existing)
  {
    hide Lines, Trimmed;
    var lines := Lines(existing);
    present := {};
    var k := 0;
    while k < |lines|
      invariant 0 <= k <= |lines|
      invariant present == set line | line in lines[..k] :: Trimmed(line)
    {
      var kept := TrimTrailingSpaces(lines[k]);
      assert lines[..k + 1] == lines[..k] + [lines[k]];
      present := present + {kept};
      k := k + 1;
    }
    assert lines[..k] == lines;
  }

  lemma MissingNext(present: set<string>, patterns: seq<string>, k: nat)
    requires k < |patterns|
    ensures var found := Missing(present, patterns[..k]);
            var p := Trimmed(patterns[k]);
            Missing(present, patterns[..k + 1]) == if p == "" || p in present || p in found then found else found + [p]
  {
    hide Trimmed;
    assert patterns[..k + 1][..k] == patterns[..k];
  }

  lemma WholeMissing(present: set<string>, patterns: seq<string>, k: nat)
    requires k == |patterns|
    ensures Missing(present, patterns[..k]) == Missing(present, patterns)
  {
    assert patterns[..k] == patterns;
  }

  method CollectMissing(present: set<string>, patterns: seq<string>) returns (toAppend: seq<string>)
    ensures toAppend == Missing(present, patterns)
  {
    assert Missing(present, patterns[..0]) == [];
    hide Trimmed, Missing;
    var seen: set<string> := {};
    toAppend := [];
    var k := 0;
    while k < |patterns|
      invariant 0 <= k <= |patterns|
      invariant toAppend == Missing(present, patterns[..k])
      invariant forall p :: p in seen <==> p in toAppend
    {
      var pattern := TrimTrailingSpaces(patterns[k]);
      MissingNext(present, patterns, k);
      if pattern != "" && pattern !in present && pattern !in seen {
        seen := seen + {pattern};
        toAppend := toAppend + [pattern];
      }
      k := k + 1;
    }
    WholeMissing(present, patterns, k);
  }

  lemma AsLinesNext(patterns: seq<string>, terminator: string, k: nat)
    requires k < |patterns|
    ensures AsLines(patterns[..k + 1], terminator) == AsLines(patterns[..k], terminator) + patterns[k] + terminator
  {
    assert patterns[..k + 1][..k] == patterns[..k];
  }

  method AppendPatterns(existing: string, patterns: seq<string>, terminator: string) returns (out: Option<string>)
    ensures out == Appended(existing, patterns, terminator)
  {
    assert AsLines([], terminator) == "";
    hide Missing, Present, AsLines;
    var present := ReadPresent(existing);
    var toAppend := CollectMissing(present, patterns);
    if toAppend == [] {
      return None;
    }
    var text := existing;
    if existing != "" && existing[|existing| - 1] != '\n' {
      text := text + terminator;
    }
    ghost var head := text;
    var k := 0;
    assert toAppend[..0] == [] && head + "" == head;
    while k < |toAppend|
      invariant 0 <= k <= |toAppend|
      invariant text == head + AsLines(toAppend[..k], terminator)
    {
      AsLinesNext(toAppend, terminator, k);
      Associate(head, AsLines(toAppend[..k], terminator), toAppend[k], terminator);
      text := text + toAppend[k] + terminator;
      k := k + 1;
    }
    assert toAppend[..k] == toAppend;
    out := Some(text);
  }

  lemma Associate(a: string, b: string, c: string, d: string)
    ensures a + b + c + d == a + (b + c + d)
  {
  }

  // ----- what the lines of the result are -----

  predicate OneLine(s: string) {
    forall i :: 0 <= i < |s| ==> s[i] != '\n'
  }

  lemma {:induction false} NewlineAfter(line: string, rest: string)
    requires OneLine(line)
    ensures FirstNewline(line + "\n" + rest) == |line|
  {
    var text := line + "\n" + rest;
    assert text[|line|] == '\n';
    assert forall i :: 0 <= i < |line| ==> text[i] == line[i];
  }

  /** What ends at a line feed is the first line. */
  lemma LinesFirst(line: string, rest: string)
    requires OneLine(line)
    ensures Lines(line + "\n" + rest) == [WithoutCr(line)] + Lines(rest)
  {
    NewlineAfter(line, rest);
    var text := line + "\n" + rest;
    hide FirstNewline, WithoutCr;
    assert text[..|line|] == line && text[|line| + 1..] == rest;
  }

  lemma LinesLast(line: string)
    requires OneLine(line)
    ensures Lines(line) == if line == "" then [] else [line]
  {
  }

  lemma SplitFirst(text: string) returns (line: string, rest: string)
    requires FirstNewline(text) < |text|
    ensures text == line + "\n" + rest && OneLine(line) && (Ended(text) <==> Ended(rest))
            && LastChar(rest) in {LastChar(text), None}
  {
    var n := FirstNewline(text);
    line, rest := text[..n], text[n + 1..];
  }

  lemma EndedHasNewline(text: string)
    requires text != "" && Ended(text)
    ensures FirstNewline(text) < |text|
  {
  }

  lemma NoLines()
    ensures Lines("") == [] && Ended("")
  {
  }

  /** Lines after a line ending are the lines of what follows. */
  lemma {:induction false} LinesConcat(x: string, y: string)
    requires Ended(x)
    ensures Lines(x + y) == Lines(x) + Lines(y)
    decreases |x|
  {
    NoLines();
    hide *;
    if x == "" {
      assert x + y == y;
    } else {
      EndedHasNewline(x);
      var line, rest := SplitFirst(x);
      LinesConcat(rest, y);
      LinesFirst(line, rest);
      LinesFirst(line, rest + y);
      assert x + y == line + "\n" + (rest + y);
    }
  }

  lemma PatternLine(p: string, terminator: string)
    requires IsTerminator(terminator) && Unbroken(p)
    ensures Lines(p + terminator) == [p] && Ended(p + terminator)
  {
    var line := if terminator == "\n" then p else p + "\r";
    assert p + terminator == line + "\n" + "";
    assert OneLine(line);
    LinesFirst(line, "");
    LinesLast("");
    hide Lines;
    assert WithoutCr(line) == p;
  }

  lemma {:induction false} LinesOfAsLines(patterns: seq<string>, terminator: string)
    requires IsTerminator(terminator) && forall p :: p in patterns ==> Unbroken(p)
    ensures Lines(AsLines(patterns, terminator)) == patterns && Ended(AsLines(patterns, terminator))
  {
    hide IsTerminator, Unbroken, Lines, Ended;
    if patterns == [] {
      NoLines();
    } else {
      var front, last := patterns[..|patterns| - 1], patterns[|patterns| - 1];
      LinesOfAsLines(front, terminator);
      PatternLine(last, terminator);
      LinesConcat(AsLines(front, terminator), last + terminator);
      EndedConcat(AsLines(front, terminator), last + terminator);
      assert AsLines(patterns, terminator) == AsLines(front, terminator) + (last + terminator);
    }
  }

  lemma EndedConcat(x: string, y: string)
    requires Ended(x) && Ended(y)
    ensures Ended(x + y)
  {
  }

  function LastChar(s: string): Option<char> {
    if s == "" then None else Some(s[|s| - 1])
  }

  function Front(lines: seq<string>): seq<string>
    requires lines != []
  {
    lines[..|lines| - 1]
  }

  function Last(lines: seq<string>): string
    requires lines != []
  {
    lines[|lines| - 1]
  }

  /** Ending an unfinished last line: a stray carriage return there becomes part of the ending. */
  lemma {:induction false} LinesCompleted(x: string, terminator: string)
    requires IsTerminator(terminator) && !Ended(x)
    ensures Lines(x) != [] && LastChar(Last(Lines(x))) == LastChar(x)
    ensures Lines(x + terminator) ==
            if terminator == "\n" then Front(Lines(x)) + [WithoutCr(Last(Lines(x)))] else Lines(x)
    decreases |x|
  {
    hide *;
    if FirstNewline(x) < |x| {
      var line, rest := SplitFirst(x);
      LinesCompleted(rest, terminator);
      LinesFirst(line, rest);
      LinesFirst(line, rest + terminator);
      assert x + terminator == line + "\n" + (rest + terminator);
      OnTop(WithoutCr(line), Lines(rest));
      UnfinishedLast(x);
      UnfinishedLast(rest);
    } else {
      LastLineCompleted(x, terminator);
    }
  }

  lemma OnTop(line: string, lines: seq<string>)
    requires lines != []
    ensures Front([line] + lines) == [line] + Front(lines) && Last([line] + lines) == Last(lines)
  {
  }

  /** The last characters of a text and of its remainder agree. */
  lemma UnfinishedLast(x: string)
    requires !Ended(x)
    ensures LastChar(x).Some?
  {
  }

  lemma LastLineCompleted(x: string, terminator: string)
    requires IsTerminator(terminator) && !Ended(x) && FirstNewline(x) >= |x|
    ensures Lines(x) == [x] && Front(Lines(x)) == [] && Last(Lines(x)) == x
    ensures Lines(x + terminator) == if terminator == "\n" then [] + [WithoutCr(x)] else [x]
  {
    var line := if terminator == "\n" then x else x + "\r";
    assert x + terminator == line + "\n" + "";
    assert OneLine(line);
    LinesLast(x);
    LinesFirst(line, "");
    LinesLast("");
    hide Lines;
    assert terminator == "\r\n" ==> WithoutCr(line) == x;
  }

  lemma {:induction false} AllUnbroken(present: set<string>, patterns: seq<string>)
    requires forall p :: p in patterns ==> Unbroken(p)
    ensures forall p :: p in Missing(present, patterns) ==> Unbroken(p)
  {
    hide Unbroken, Trimmed;
    if patterns != [] {
      AllUnbroken(present, patterns[..|patterns| - 1]);
      TrimmedUnbroken(patterns[|patterns| - 1]);
    }
  }

  /** The lines of the new content are the old lines followed by the new patterns, whatever the file
      was like, unless its unfinished last line ends in a carriage return and a bare line feed is
      appended: exactly then that line, whose bytes stay, is read without it afterwards. */
  lemma AppendKeepsLines(existing: string, patterns: seq<string>, terminator: string)
    requires IsTerminator(terminator) && forall p :: p in patterns ==> Unbroken(p)
    requires Appended(existing, patterns, terminator).Some?
    ensures var out := Appended(existing, patterns, terminator).value;
            && existing <= out
            && (Lines(out) == Lines(existing) + Missing(Present(existing), patterns)
                <==> !(LastChar(existing) == Some('\r') && terminator == "\n"))
  {
    hide Lines, Missing, AsLines, Unbroken, Present;
    var missing := Missing(Present(existing), patterns);
    LinesOfAppended(existing, patterns, terminator);
    if !Ended(existing) {
      LinesCompleted(existing, terminator);
      OnlyLastChanges(Lines(existing), missing);
    }
  }

  /** Rewriting the last line matters exactly when it ends in a carriage return. */
  lemma OnlyLastChanges(lines: seq<string>, more: seq<string>)
    requires lines != []
    ensures Front(lines) + [WithoutCr(Last(lines))] + more == lines + more <==> LastChar(Last(lines)) != Some('\r')
  {
    var changed := Front(lines) + [WithoutCr(Last(lines))];
    assert (changed + more)[|lines| - 1] == WithoutCr(Last(lines));
    assert (lines + more)[|lines| - 1] == Last(lines);
    if LastChar(Last(lines)) != Some('\r') {
      assert changed == lines;
    }
  }

  lemma LinesOfAppended(existing: string, patterns: seq<string>, terminator: string)
    requires IsTerminator(terminator) && forall p :: p in patterns ==> Unbroken(p)
    requires Appended(existing, patterns, terminator).Some?
    ensures Lines(Appended(existing, patterns, terminator).value) ==
            Lines(Completed(existing, terminator)) + Missing(Present(existing), patterns)
  {
    hide Lines, Missing, AsLines, Unbroken, Present;
    var missing := Missing(Present(existing), patterns);
    AllUnbroken(Present(existing), patterns);
    LinesOfAsLines(missing, terminator);
    LinesConcat(Completed(existing, terminator), AsLines(missing, terminator));
  }

  // ----- appending again -----

  ghost predicate Asked(patterns: seq<string>, p: string) {
    exists pattern :: pattern in patterns && Trimmed(pattern) == p
  }

  lemma NothingAsked()
    ensures forall p :: !Asked([], p)
  {
  }

  lemma AskedMember(patterns: seq<string>, pattern: string)
    requires pattern in patterns
    ensures Asked(patterns, Trimmed(pattern))
  {
    hide Trimmed;
  }

  lemma AskedLast(patterns: seq<string>, p: string)
    requires patterns != []
    ensures Asked(patterns, p) <==> Asked(Front(patterns), p) || p == Trimmed(Last(patterns))
  {
    hide Trimmed;
    assert patterns == Front(patterns) + [Last(patterns)];
  }

  /** The missing patterns are those asked for and not present, each of them once. */
  lemma {:induction false} MissingIsMissing(present: set<string>, patterns: seq<string>)
    ensures forall p :: p in Missing(present, patterns) <==> p != "" && p !in present && Asked(patterns, p)
    ensures forall i, j :: 0 <= i < j < |Missing(present, patterns)| ==>
                             Missing(present, patterns)[i] != Missing(present, patterns)[j]
  {
    hide Trimmed, Asked;
    if patterns == [] {
      NothingAsked();
    } else {
      MissingIsMissing(present, Front(patterns));
      forall p
        ensures Asked(patterns, p) <==> Asked(Front(patterns), p) || p == Trimmed(Last(patterns))
      {
        AskedLast(patterns, p);
      }
    }
  }

  lemma TrimmedUnbroken(line: string)
    requires Unbroken(line)
    ensures Unbroken(Trimmed(line))
  {
  }

  /** A line that does not end in a space keeps its end when trimmed. */
  lemma EndNotTrimmed(line: string)
    requires LastChar(line) != Some(' ')
    ensures Trimmed(line) == line
  {
    TrimIsIdempotent(line);
    assert SpacesFrom(line, |Trimmed(line)|);
  }

  lemma PresentInOne(existing: string, line: string)
    requires Lines(existing) == [line]
    ensures Present(existing) == {Trimmed(line)}
  {
    hide Lines, Trimmed;
    assert line in [line];
  }

  lemma MissingOne(present: set<string>, p: string)
    requires Trimmed(p) == p && p != "" && p !in present
    ensures Missing(present, [p]) == [p] && AsLines([p], "\n") == p + "\n"
  {
    hide Trimmed;
    assert [p][..0] == [];
    assert Missing(present, []) == [] && AsLines([], "\n") == "";
    assert [] + [p] == [p] && "" + p == p;
  }

  /** The unfinished last line `a` and a carriage return: its bytes stay, but read again it is `a`. */
  lemma StrayCarriageReturnIsLost()
    ensures Lines("a\r") == ["a\r"] && Appended("a\r", ["/b"], "\n") == Some("a\r" + "\n" + "/b\n")
    ensures Lines("a\r" + "\n" + "/b\n") == ["a", "/b"]
  {
    hide Lines, Trimmed, Missing, Present, AsLines;
    LinesLast("a\r");
    LinesLast("");
    EndNotTrimmed("a\r");
    EndNotTrimmed("/b");
    PresentInOne("a\r", "a\r");
    MissingOne(Present("a\r"), "/b");
    LinesFirst("a\r", "/b\n");
    LinesFirst("/b", "");
    assert "/b" + "\n" + "" == "/b\n" && "/b" + "\n" == "/b\n";
    assert WithoutCr("a\r") == "a" && WithoutCr("/b") == "/b";
    assert Completed("a\r", "\n") == "a\r" + "\n";
    assert ["a"] + (["/b"] + []) == ["a", "/b"];
  }

  lemma UnbrokenHasNoCr(line: string)
    requires Unbroken(Trimmed(line))
    ensures LastChar(line) != Some('\r')
  {
    if LastChar(line) == Some('\r') {
      EndNotTrimmed(line);
      assert false;
    }
  }

  lemma NoCrKept(line: string)
    requires LastChar(line) != Some('\r')
    ensures WithoutCr(line) == line
  {
  }

  /** Whatever pattern without line breaks was read from a file is still read when its last line is ended. */
  lemma CompletedKeepsPresent(existing: string, terminator: string, p: string)
    requires IsTerminator(terminator) && p in Present(existing) && Unbroken(p)
    ensures p in Present(Completed(existing, terminator))
  {
    hide Lines, Trimmed, Unbroken, LastChar;
    var line :| line in Lines(existing) && Trimmed(line) == p;
    if !Ended(existing) {
      LinesCompleted(existing, terminator);
      UnbrokenHasNoCr(line);
      var lines := Lines(existing);
      assert lines == Front(lines) + [Last(lines)];
      if line == Last(lines) {
        NoCrKept(line);
      }
      assert line in Lines(existing + terminator);
    }
  }

  /** After appending, every pattern is read from the file. */
  lemma AppendedIsPresent(existing: string, patterns: seq<string>, terminator: string, pattern: string)
    requires IsTerminator(terminator) && forall p :: p in patterns ==> Unbroken(p)
    requires pattern in patterns && Trimmed(pattern) != ""
    requires Appended(existing, patterns, terminator).Some?
    ensures Trimmed(pattern) in Present(Appended(existing, patterns, terminator).value)
  {
    hide Lines, Trimmed, Missing, Appended, Completed, Asked, Unbroken, AsLines;
    var p := Trimmed(pattern);
    var out := Appended(existing, patterns, terminator).value;
    LinesOfAppended(existing, patterns, terminator);
    MissingIsMissing(Present(existing), patterns);
    TrimmedUnbroken(pattern);
    TrimIsIdempotent(pattern);
    if p in Present(existing) {
      CompletedKeepsPresent(existing, terminator, p);
      var line :| line in Lines(Completed(existing, terminator)) && Trimmed(line) == p;
      assert line in Lines(out);
    } else {
      AskedMember(patterns, pattern);
      assert p in Missing(Present(existing), patterns);
      assert p in Lines(out);
    }
  }

  lemma NothingMissing(present: set<string>, patterns: seq<string>)
    requires forall p :: p in patterns && Trimmed(p) != "" ==> Trimmed(p) in present
    ensures Missing(present, patterns) == []
  {
    hide Missing, Trimmed;
    MissingIsMissing(present, patterns);
    FirstIsMember(Missing(present, patterns));
  }

  lemma FirstIsMember(s: seq<string>)
    ensures s != [] ==> s[0] in s
  {
  }

  /** Appending the same patterns again changes nothing, whichever line ending is then in use. */
  lemma AppendIsIdempotent(existing: string, patterns: seq<string>, terminator: string, later: string)
    requires IsTerminator(terminator) && forall p :: p in patterns ==> Unbroken(p)
    ensures var first := Appended(existing, patterns, terminator);
            Appended(if first.Some? then first.value else existing, patterns, later) == None
  {
    hide Trimmed, Missing, Present, AsLines, Completed, Unbroken;
    var first := Appended(existing, patterns, terminator);
    if first.Some? {
      forall p | p in patterns && Trimmed(p) != ""
        ensures Trimmed(p) in Present(first.value)
      {
        AppendedIsPresent(existing, patterns, terminator, p);
      }
      NothingMissing(Present(first.value), patterns);
    }
  }

  // ----- from paths to the file -----

  lemma {:induction false} EscapedUnbroken(text: string)
    requires Unbroken(text)
    ensures Unbroken(Escaped(text))
  {
    if text != "" {
      EscapedUnbroken(text[1..]);
    }
  }

  lemma {:induction false} QuotedUnbroken(n: nat)
    ensures Unbroken(QuotedSpaces(n))
  {
    if n > 0 {
      QuotedUnbroken(n - 1);
    }
  }

  lemma UnbrokenConcat(x: string, y: string)
    requires Unbroken(x) && Unbroken(y)
    ensures Unbroken(x + y)
  {
  }

  lemma {:induction false} PathTextUnbroken(segments: seq<string>)
    requires forall s :: s in segments ==> Unbroken(s)
    ensures Unbroken(PathText(segments))
  {
    if segments != [] {
      var front, last := segments[..|segments| - 1], segments[|segments| - 1];
      PathTextUnbroken(front);
      assert Unbroken(last);
      UnbrokenConcat(PathText(front), "/");
      UnbrokenConcat(PathText(front) + "/", last);
    }
  }

  /** Patterns never hold a line break, because segments with one are refused. */
  lemma WrittenUnbroken(target: string, scope: Scope)
    requires Unbroken(target)
    ensures Unbroken(Written(target, scope))
  {
    assert Unbroken("*");
    hide Escaped, Unbroken, SpacesQuoted;
    EscapedUnbroken(target);
    UnbrokenConcat("*", Escaped(target));
    QuotingUnbroken(if scope == Extension then "*" + Escaped(target) else Escaped(target));
  }

  lemma QuotingUnbroken(pattern: string)
    requires Unbroken(pattern)
    ensures Unbroken(SpacesQuoted(pattern))
  {
    QuotedUnbroken(|pattern| - KeptEnd(pattern));
    hide QuotedSpaces;
    UnbrokenConcat(pattern[..KeptEnd(pattern)], QuotedSpaces(|pattern| - KeptEnd(pattern)));
  }

  /** What is appended for a path is read back by git as that path: the file gains a line that
      survives trimming and stands literally for the path, unless it was there already. */
  lemma AppendedPathIsIgnored(existing: string, segments: seq<string>, terminator: string)
    requires IsTerminator(terminator) && segments != [] && forall s :: s in segments ==> Unbroken(s)
    ensures var pattern := Written(PathText(segments), File);
            var after := Appended(existing, [pattern], terminator);
            && Literally(pattern) == Some(PathText(segments))
            && pattern in Present(if after.Some? then after.value else existing)
            && (after.None? <==> pattern in Present(existing))
  {
    hide PathText, Written, Literally, Trimmed, Missing, Present, AsLines, Unbroken, Asked;
    var target := PathText(segments);
    var pattern := Written(target, File);
    PathTextUnbroken(segments);
    WrittenUnbroken(target, File);
    PatternsSayTheirTarget(target, File);
    PathTextShows(segments);
    EmptySaysNothing(pattern);
    assert forall p :: p in [pattern] ==> p == pattern;
    if pattern in Present(existing) {
      NothingMissing(Present(existing), [pattern]);
    } else {
      MissingIsMissing(Present(existing), [pattern]);
      AskedMember([pattern], pattern);
      AppendedIsPresent(existing, [pattern], terminator, pattern);
    }
  }

  lemma PathTextShows(segments: seq<string>)
    requires segments != []
    ensures PathText(segments) != ""
  {
  }

  lemma EmptySaysNothing(pattern: string)
    requires Literally(pattern).Some? && Literally(pattern).value != ""
    ensures pattern != ""
  {
  }

  // ----- which line endings are written -----

  /** From position `n` on every line feed belongs to a carriage return and line feed, or none does; and
      if there is anything the text ends in a line feed. */
  ghost predicate EndedFrom(text: string, n: nat, crlf: bool) {
    && n <= |text|
    && (forall i: nat {:trigger text[i]} :: n <= i < |text| && text[i] == '\n' ==>
          if crlf then n < i && text[i - 1] == '\r' else n < i ==> text[i - 1] != '\r')
    && (n < |text| ==> text[|text| - 1] == '\n')
  }

  function Terminator(crlf: bool): string {
    if crlf then "\r\n" else "\n"
  }

  /** One more line. */
  lemma OneMoreEnding(text: string, n: nat, p: string, crlf: bool)
    requires EndedFrom(text, n, crlf) && Unbroken(p)
    ensures EndedFrom(text + p + Terminator(crlf), n, crlf)
  {
    var t := Terminator(crlf);
    var longer, m := text + p + t, |text| + |p|;
    forall i: nat | n <= i < |longer| && longer[i] == '\n'
      ensures if crlf then n < i && longer[i - 1] == '\r' else n < i ==> longer[i - 1] != '\r'
    {
      if i < |text| {
        assert text[i] == '\n';
      } else if i < m {
        NotBetween(text, p, t, i);
      } else {
        assert longer[i] == t[i - m];
        LastBefore(text, p, t, i);
      }
    }
  }

  lemma NotBetween(text: string, p: string, t: string, i: nat)
    requires Unbroken(p) && |text| <= i < |text| + |p|
    ensures (text + p + t)[i] != '\n'
  {
    assert (text + p + t)[i] == p[i - |text|];
  }

  /** What stands before the terminator. */
  lemma LastBefore(text: string, p: string, t: string, i: nat)
    requires |text| + |p| <= i < |text| + |p| + |t|
    ensures var longer := text + p + t;
            && (|text| + |p| < i ==> longer[i - 1] == t[i - 1 - |text| - |p|])
            && (|text| + |p| == i && |p| > 0 ==> longer[i - 1] == p[|p| - 1])
            && (|text| == i > 0 && |p| == 0 ==> longer[i - 1] == text[|text| - 1])
  {
  }

  lemma {:induction false} LinesEnded(head: string, n: nat, patterns: seq<string>, crlf: bool)
    requires EndedFrom(head, n, crlf) && forall p :: p in patterns ==> Unbroken(p)
    ensures EndedFrom(head + AsLines(patterns, Terminator(crlf)), n, crlf)
    decreases |patterns|
  {
    hide EndedFrom, Unbroken, Terminator;
    var t := Terminator(crlf);
    if patterns == [] {
      assert head + AsLines(patterns, t) == head;
    } else {
      var front, last := patterns[..|patterns| - 1], patterns[|patterns| - 1];
      LinesEnded(head, n, front, crlf);
      OneMoreEnding(head + AsLines(front, t), n, last, crlf);
      Associate(head, AsLines(front, t), last, t);
    }
  }

  /** Every line feed that is appended belongs to the line ending in use, and the content ends in it. */
  lemma AppendedLineEndings(existing: string, patterns: seq<string>, crlf: bool)
    requires forall p :: p in patterns ==> Unbroken(p)
    requires Appended(existing, patterns, if crlf then "\r\n" else "\n").Some?
    ensures var out := Appended(existing, patterns, if crlf then "\r\n" else "\n").value;
            && existing <= out && |existing| < |out| && out[|out| - 1] == '\n'
            && forall i: nat {:trigger out[i]} :: |existing| <= i < |out| && out[i] == '\n' ==>
                 if crlf then |existing| < i && out[i - 1] == '\r' else |existing| < i ==> out[i - 1] != '\r'
  {
    hide Missing, Present, Unbroken, AsLines, Ended;
    var t, missing := Terminator(crlf), Missing(Present(existing), patterns);
    AllUnbroken(Present(existing), patterns);
    NothingBroken();
    assert existing + "" + t == existing + t;
    OneMoreEnding(existing, |existing|, "", crlf);
    LinesEnded(Completed(existing, t), |existing|, missing, crlf);
    SomeLine(missing, t);
  }

  lemma NothingBroken()
    ensures Unbroken("")
  {
  }

  lemma SomeLine(patterns: seq<string>, t: string)
    requires patterns != [] && t != ""
    ensures AsLines(patterns, t) != ""
  {
  }

  // ----- the line ending in use -----

  /** How many line feeds have a carriage return before them, or have none. */
  function LineFeeds(text: string, crlf: bool): nat {
    if text == "" then 0
    else
      LineFeeds(text[..|text| - 1], crlf)
      + if text[|text| - 1] == '\n' && (|text| > 1 && text[|text| - 2] == '\r') == crlf then 1 else 0
  }

  method CountLineFeeds(text: string) returns (crlf: nat, lf: nat)
    ensures crlf == LineFeeds(text, true) && lf == LineFeeds(text, true) + LineFeeds(text, false)
  {
    crlf, lf := 0, 0;
    assert text[..|text|] == text;
    for position := 0 to |text|
      invariant crlf == LineFeeds(text[..position], true)
      invariant lf == LineFeeds(text[..position], true) + LineFeeds(text[..position], false)
    {
      assert text[..position + 1][..position] == text[..position];
      if text[position] == '\n' {
        lf := lf + 1;
        if position > 0 && text[position - 1] == '\r' {
          crlf := crlf + 1;
        }
      }
    }
  }

  /** The ending that most lines have, a bare line feed on a tie. */
  method DetectLineEnding(text: string) returns (t: string)
    ensures t == LineEnding(text) && IsTerminator(t)
  {
    var crlf, lf := CountLineFeeds(text);
    var lfOnly := if lf < crlf then 0 else lf - crlf;
    t := if crlf > lfOnly then "\r\n" else "\n";
  }

  function LineEnding(text: string): string {
    if LineFeeds(text, true) > LineFeeds(text, false) then "\r\n" else "\n"
  }

  /** The whole operation, with the line ending the file already uses. */
  method AppendToContent(existing: string, patterns: seq<string>) returns (out: Option<string>)
    ensures out == Appended(existing, patterns, LineEnding(existing))
  {
    hide Appended, LineEnding;
    var t := DetectLineEnding(existing);
    out := AppendPatterns(existing, patterns, t);
  }

  /** Every line feed of the text has a carriage return before it, or none has. */
  ghost predicate AllEnded(text: string, crlf: bool) {
    forall i {:trigger text[i]} :: 0 <= i < |text| && text[i] == '\n' ==> (i > 0 && text[i - 1] == '\r') == crlf
  }

  lemma {:induction false} NoOtherEndings(text: string, crlf: bool)
    requires AllEnded(text, crlf)
    ensures LineFeeds(text, !crlf) == 0
    ensures '\n' in text ==> LineFeeds(text, crlf) > 0
  {
    if text != "" {
      var n := |text| - 1;
      assert text[n] == '\n' ==> (n > 0 && text[n - 1] == '\r') == crlf;
      FrontEnded(text, crlf);
      NoOtherEndings(text[..n], crlf);
      assert text == text[..n] + [text[n]];
    }
  }

  lemma FrontEnded(text: string, crlf: bool)
    requires AllEnded(text, crlf) && text != ""
    ensures AllEnded(text[..|text| - 1], crlf)
  {
    var front := text[..|text| - 1];
    forall i | 0 <= i < |front| && front[i] == '\n'
      ensures (i > 0 && front[i - 1] == '\r') == crlf
    {
      assert text[i] == front[i] == '\n';
      assert (i > 0 && text[i - 1] == '\r') == crlf;
      assert i > 0 ==> front[i - 1] == text[i - 1];
    }
  }

  /** A file with one kind of line endings keeps it: all carriage returns and line feeds, or all bare line
      feeds, if it does not end in a carriage return. */
  lemma AppendKeepsStyle(existing: string, patterns: seq<string>, crlf: bool)
    requires '\n' in existing && AllEnded(existing, crlf) && (!crlf ==> LastChar(existing) != Some('\r'))
    requires forall p :: p in patterns ==> Unbroken(p)
    requires Appended(existing, patterns, LineEnding(existing)).Some?
    ensures AllEnded(Appended(existing, patterns, LineEnding(existing)).value, crlf)
  {
    NoOtherEndings(existing, crlf);
    assert LineEnding(existing) == if crlf then "\r\n" else "\n";
    var out := Appended(existing, patterns, LineEnding(existing)).value;
    hide LineFeeds, Appended, Unbroken, LineEnding;
    AppendedLineEndings(existing, patterns, crlf);
    StyleGoesOn(existing, out, crlf);
  }

  lemma StyleGoesOn(existing: string, out: string, crlf: bool)
    requires AllEnded(existing, crlf) && (!crlf ==> LastChar(existing) != Some('\r')) && existing <= out
    requires forall i: nat {:trigger out[i]} :: |existing| <= i < |out| && out[i] == '\n' ==>
               if crlf then |existing| < i && out[i - 1] == '\r' else |existing| < i ==> out[i - 1] != '\r'
    ensures AllEnded(out, crlf)
  {
    forall i | 0 <= i < |out| && out[i] == '\n'
      ensures (i > 0 && out[i - 1] == '\r') == crlf
    {
      if i < |existing| {
        assert existing[i] == '\n';
        assert i > 0 ==> out[i - 1] == existing[i - 1];
      } else if i == |existing| {
        assert i > 0 ==> out[i - 1] == existing[i - 1];
      }
    }
  }

  // ----- in which order -----

  /** Where a pattern is asked for first. */
  ghost function FirstAsked(patterns: seq<string>, p: string): nat {
    if patterns == [] || Trimmed(patterns[0]) == p then 0 else 1 + FirstAsked(patterns[1..], p)
  }

  lemma {:induction false} FirstAskedLonger(patterns: seq<string>, q: string, p: string)
    ensures FirstAsked(patterns, p) <= |patterns|
    ensures FirstAsked(patterns, p) < |patterns| <==> Asked(patterns, p)
    ensures FirstAsked(patterns + [q], p) == if Asked(patterns, p) then FirstAsked(patterns, p)
                                             else if Trimmed(q) == p then |patterns| else |patterns| + 1
    decreases |patterns|
  {
    hide Trimmed;
    if patterns == [] {
      assert (patterns + [q])[1..] == [];
    } else {
      assert (patterns + [q])[1..] == patterns[1..] + [q];
      FirstAskedLonger(patterns[1..], q, p);
      AskedFirst(patterns, p);
    }
  }

  lemma AskedFirst(patterns: seq<string>, p: string)
    requires patterns != []
    ensures Asked(patterns, p) <==> Trimmed(patterns[0]) == p || Asked(patterns[1..], p)
  {
    hide Trimmed;
    if Asked(patterns[1..], p) {
      var k :| 0 <= k < |patterns[1..]| && Trimmed(patterns[1..][k]) == p;
      assert Trimmed(patterns[k + 1]) == p;
    }
    if Asked(patterns, p) {
      var k :| 0 <= k < |patterns| && Trimmed(patterns[k]) == p;
      assert k > 0 ==> patterns[1..][k - 1] == patterns[k];
    }
  }

  /** The missing patterns come in the order in which they are asked for first. */
  lemma {:induction false} MissingInOrder(present: set<string>, patterns: seq<string>, i: nat, j: nat)
    requires i < j < |Missing(present, patterns)|
    ensures FirstAsked(patterns, Missing(present, patterns)[i]) < FirstAsked(patterns, Missing(present, patterns)[j])
    decreases |patterns|
  {
    hide Trimmed, Asked, FirstAsked;
    var front, q := Front(patterns), Last(patterns);
    var found, all := Missing(present, front), Missing(present, patterns);
    assert patterns == front + [q];
    MissingIsMissing(present, front);
    FirstAskedLonger(front, q, all[i]);
    FirstAskedLonger(front, q, all[j]);
    assert all[i] in found;
    if j < |found| {
      assert all[j] in found;
      MissingInOrder(present, front, i, j);
    } else {
      MissingIsMissing(present, patterns);
    }
  }
}
