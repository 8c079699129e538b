/** Turning a path into a line of an ignore file that git reads back as that path. */
module GitignorePatterns {
  import opened Wrappers

  // ----- how git reads a line -----

  predicate IsMeta(c: char) {
    c == '\\' || c == '*' || c == '?' || c == '[' || c == ']'
  }

  predicate SpacesFrom(s: string, from: nat) {
    forall i :: from <= i < |s| ==> s[i] == ' '
  }

  /** Where git cuts a line, read from position `ix`: it drops trailing spaces, but a backslash
      takes the character after it along. */
  function CutFrom(line: string, ix: nat): (n: nat)
    requires ix <= |line|
    ensures ix <= n <= |line| && SpacesFrom(line, n)
    decreases |line| - ix
  {
    if ix == |line| then ix
    else if line[ix] == '\\' then
      if ix + 1 == |line| then |line| else CutFrom(line, ix + 2)
    else if SpacesFrom(line, ix) then ix
    else CutFrom(line, ix + 1)
  }

  function Trimmed(line: string): string {
    line[..CutFrom(line, 0)]
  }

  /** The text a pattern stands for if it can only match literally: no wildcard outside an escape,
      no backslash left over. */
  function Literally(pattern: string): Option<string> {
    if pattern == "" then Some("")
    else if pattern[0] == '\\' then
      if |pattern| == 1 then None else Prefixed(pattern[1], Literally(pattern[2..]))
    else if IsMeta(pattern[0]) then None
    else Prefixed(pattern[0], Literally(pattern[1..]))
  }

  function Prefixed(c: char, rest: Option<string>): Option<string> {
    if rest.Some? then Some([c] + rest.value) else None
  }

  predicate Unbroken(s: string) {
    forall i :: 0 <= i < |s| ==> s[i] != '\n' && s[i] != '\r'
  }

  // ----- writing a pattern -----

  function Escaped(text: string): string {
    if text == "" then ""
    else (if IsMeta(text[0]) then ['\\', text[0]] else [text[0]]) + Escaped(text[1..])
  }

  function Spaces(n: nat): string {
    seq(n, _ => ' ')
  }

  function QuotedSpaces(n: nat): string {
    if n == 0 then "" else "\\ " + QuotedSpaces(n - 1)
  }

  /** Where the final run of spaces of `s` starts. */
  function KeptEnd(s: string): (n: nat)
    ensures n <= |s| && SpacesFrom(s, n) && (n > 0 ==> s[n - 1] != ' ')
  {
    if s == "" || s[|s| - 1] != ' ' then |s| else KeptEnd(s[..|s| - 1])
  }

  function SpacesQuoted(pattern: string): string {
    pattern[..KeptEnd(pattern)] + QuotedSpaces(|pattern| - KeptEnd(pattern))
  }

  /** The path as text, with a slash before every segment. */
  function PathText(segments: seq<string>): string {
    if segments == [] then "" else PathText(segments[..|segments| - 1]) + "/" + segments[|segments| - 1]
  }

  // ----- the escapers, as loops -----

  method EscapeLiteral(text: string) returns (out: string)
    ensures out == Escaped(text)
  {
    hide Escaped, IsMeta;
    if forall i :: 0 <= i < |text| ==> !IsMeta(text[i]) {
      NothingToEscape(text);
      return text;
    }
    EmptyEscaped();
    out := "";
    var i := 0;
    while i < |text|
      invariant 0 <= i <= |text|
      invariant out == Escaped(text[..i])
    {
      EscapedNext(text, i);
      if IsMeta(text[i]) {
        out := out + ['\\'];
      }
      out := out + [text[i]];
      i := i + 1;
    }
    assert text[..i] == text;
  }

  lemma EscapedNext(text: string, i: nat)
    requires i < |text|
    ensures Escaped(text[..i + 1]) ==
            if IsMeta(text[i]) then Escaped(text[..i]) + ['\\'] + [text[i]] else Escaped(text[..i]) + [text[i]]
  {
    assert text[..i + 1] == text[..i] + [text[i]];
    EscapedConcat(text[..i], [text[i]]);
    assert [text[i]][1..] == "" && Escaped("") == "";
    hide IsMeta;
  }

  lemma {:induction false} NothingToEscape(text: string)
    requires forall i :: 0 <= i < |text| ==> !IsMeta(text[i])
    ensures Escaped(text) == text
  {
    if text != "" {
      NothingToEscape(text[1..]);
    }
  }

  method EscapeTrailingSpaces(pattern: string) returns (out: string)
    ensures out == SpacesQuoted(pattern)
  {
    var kept := KeptEnd(pattern);
    if kept == |pattern| {
      return pattern;
    }
    out := pattern[..kept];
    var trailing := |pattern| - kept;
    var i := 0;
    while i < trailing
      invariant 0 <= i <= trailing
      invariant out + QuotedSpaces(trailing - i) == SpacesQuoted(pattern)
    {
      out := out + "\\ ";
      i := i + 1;
    }
  }

  method Anchored(segments: seq<string>) returns (out: string)
    ensures out == Escaped(PathText(segments))
  {
    out := "";
    var i := 0;
    while i < |segments|
      invariant 0 <= i <= |segments|
      invariant out == Escaped(PathText(segments[..i]))
    {
      var literal := EscapeLiteral(segments[i]);
      AnchoredNext(segments, i);
      out := out + "/" + literal;
      i := i + 1;
    }
    assert segments[..i] == segments;
  }

  lemma AnchoredNext(segments: seq<string>, i: nat)
    requires i < |segments|
    ensures Escaped(PathText(segments[..i + 1])) == Escaped(PathText(segments[..i])) + "/" + Escaped(segments[i])
  {
    assert segments[..i + 1][..i] == segments[..i];
    EscapedConcat(PathText(segments[..i]) + "/", segments[i]);
    EscapedConcat(PathText(segments[..i]), "/");
    assert Escaped("/") == "/" by {
      assert Escaped("/"[1..]) == "";
    }
  }

  lemma {:induction false} EscapedConcat(x: string, y: string)
    ensures Escaped(x + y) == Escaped(x) + Escaped(y)
  {
    if x == "" {
      assert x + y == y;
    } else {
      assert (x + y)[1..] == x[1..] + y;
      EscapedConcat(x[1..], y);
    }
  }

  /** Trims by walking the line once and remembering where the current run of spaces began. */
  method TrimTrailingSpaces(line: string) returns (kept: string)
    ensures kept == Trimmed(line)
  {
    var trailingRun: Option<nat> := None;
    var ix := 0;
    while ix < |line|
      invariant 0 <= ix <= |line| + 1
      invariant ix == |line| + 1 ==> trailingRun.None? && CutFrom(line, 0) == |line|
      invariant trailingRun.None? && ix <= |line| ==> CutFrom(line, 0) == CutFrom(line, ix)
      invariant trailingRun.Some? ==>
                  && trailingRun.value < ix <= |line| && CutFrom(line, 0) == CutFrom(line, trailingRun.value)
                  && forall i :: trailingRun.value <= i < ix ==> line[i] == ' '
    {
      if line[ix] == ' ' {
        if trailingRun.None? {
          trailingRun := Some(ix);
        }
        ix := ix + 1;
      } else {
        if trailingRun.Some? {
          RunEnds(line, trailingRun.value, ix);
        }
        trailingRun := None;
        ix := ix + if line[ix] == '\\' then 2 else 1;
      }
    }
    match trailingRun {
      case Some(start) => kept := line[..start];
      case None => kept := line;
    }
  }

  /** A run of spaces followed by something else is passed over. */
  lemma {:induction false} RunEnds(line: string, start: nat, ix: nat)
    requires start <= ix < |line| && line[ix] != ' '
    requires forall i :: start <= i < ix ==> line[i] == ' '
    ensures CutFrom(line, start) == CutFrom(line, ix)
    decreases ix - start
  {
    if start < ix {
      RunEnds(line, start + 1, ix);
    }
  }

  // ----- what trimming does -----

  lemma {:induction false} CutStays(line: string, ix: nat)
    requires ix <= |line|
    ensures CutFrom(line[..CutFrom(line, ix)], ix) == CutFrom(line, ix)
    decreases |line| - ix
  {
    var n := CutFrom(line, ix);
    if ix < n {
      if line[ix] == '\\' {
        if ix + 1 < |line| {
          CutStays(line, ix + 2);
        }
      } else {
        CutStays(line, ix + 1);
        assert !SpacesFrom(line[..n], ix) by {
          var i :| ix <= i < |line| && line[i] != ' ';
          assert line[..n][i] != ' ';
        }
      }
    }
  }

  /** Trimming drops nothing but spaces from the end, and there is nothing to trim in what it leaves. */
  lemma TrimIsIdempotent(line: string)
    ensures Trimmed(line) <= line && SpacesFrom(line, |Trimmed(line)|)
    ensures Trimmed(Trimmed(line)) == Trimmed(line)
  {
    CutStays(line, 0);
  }

  /** How many backslashes stand directly before position `k`. */
  function BackslashesBefore(s: string, k: nat): nat
    requires k <= |s|
  {
    if k > 0 && s[k - 1] == '\\' then 1 + BackslashesBefore(s, k - 1) else 0
  }

  /** The character there is quoted. */
  predicate QuotedAt(s: string, k: nat)
    requires k <= |s|
  {
    BackslashesBefore(s, k) % 2 == 1
  }

  lemma {:induction false} CutAtQuotes(line: string, ix: nat)
    requires ix <= |line| && !QuotedAt(line, ix)
    ensures var n := CutFrom(line, ix);
            && (n > ix && line[n - 1] == ' ' ==> QuotedAt(line, n - 1))
            && (n < |line| ==> !QuotedAt(line, n))
    decreases |line| - ix
  {
    if ix < |line| {
      if line[ix] == '\\' {
        assert BackslashesBefore(line, ix + 1) == 1 + BackslashesBefore(line, ix);
        if ix + 1 < |line| {
          CutAtQuotes(line, ix + 2);
        }
      } else if !SpacesFrom(line, ix) {
        CutAtQuotes(line, ix + 1);
      }
    }
  }

  /** Exactly the spaces at the end that no backslash quotes are dropped: what is left does not end in
      such a space, and the first character dropped, if any, is one. */
  lemma TrimDropsUnquoted(line: string)
    ensures var n := |Trimmed(line)|;
            && n <= |line| && SpacesFrom(line, n)
            && (n > 0 && line[n - 1] == ' ' ==> QuotedAt(line, n - 1))
            && (n < |line| ==> !QuotedAt(line, n))
  {
    CutAtQuotes(line, 0);
  }

  lemma {:induction false} CutShift(p: string, s: string, ix: nat)
    requires ix <= |s|
    ensures CutFrom(p + s, |p| + ix) == |p| + CutFrom(s, ix)
    decreases |s| - ix
  {
    if ix < |s| {
      assert SpacesFrom(p + s, |p| + ix) <==> SpacesFrom(s, ix) by {
        assert forall i :: ix <= i < |s| ==> (p + s)[|p| + i] == s[i];
      }
      if s[ix] == '\\' {
        if ix + 1 < |s| {
          CutShift(p, s, ix + 2);
        }
      } else {
        CutShift(p, s, ix + 1);
      }
    }
  }

  // ----- a written pattern says the path and survives the trimming -----

  lemma PrefixedConcat(c: char, x: Option<string>, y: string)
    requires x.Some?
    ensures Prefixed(c, Some(x.value + y)) == Some(Prefixed(c, x).value + y)
  {
    assert [c] + (x.value + y) == [c] + x.value + y;
  }

  lemma {:induction false} LiterallyConcat(x: string, y: string)
    requires Literally(x).Some? && Literally(y).Some?
    ensures Literally(x + y) == Some(Literally(x).value + Literally(y).value)
  {
    if x == "" {
      assert x + y == y && "" + Literally(y).value == Literally(y).value;
    } else {
      var width := if x[0] == '\\' then 2 else 1;
      var c := x[width - 1];
      assert (x + y)[width..] == x[width..] + y;
      assert Literally(x) == Prefixed(c, Literally(x[width..]));
      LiterallyConcat(x[width..], y);
      PrefixedConcat(c, Literally(x[width..]), Literally(y).value);
    }
  }

  /** Escaped text stands for itself. */
  lemma {:induction false} EscapedReadsBack(text: string)
    ensures Literally(Escaped(text)) == Some(text)
  {
    if text != "" {
      EscapedReadsBack(text[1..]);
      var pattern := Escaped(text);
      var width := if IsMeta(text[0]) then 2 else 1;
      assert pattern[width..] == Escaped(text[1..]);
      assert [text[0]] + text[1..] == text;
    }
  }

  lemma {:induction false} QuotedSpacesReadBack(n: nat)
    ensures Literally(QuotedSpaces(n)) == Some(Spaces(n))
    ensures CutFrom(QuotedSpaces(n), 0) == |QuotedSpaces(n)|
  {
    if n == 0 {
      assert Spaces(0) == "";
    } else {
      QuotedSpacesReadBack(n - 1);
      assert QuotedSpaces(n)[2..] == QuotedSpaces(n - 1) && QuotedSpaces(n)[1] == ' ';
      assert Spaces(n) == [' '] + Spaces(n - 1);
      CutShift("\\ ", QuotedSpaces(n - 1), 0);
    }
  }

  lemma {:induction false} EscapedEnds(text: string)
    ensures text != "" ==> Escaped(text) != "" && Escaped(text)[|Escaped(text)| - 1] == text[|text| - 1]
  {
    if |text| > 1 {
      EscapedEnds(text[1..]);
    }
  }

  lemma {:induction false} KeptEndIs(s: string, n: nat)
    requires s != "" ==> s[|s| - 1] != ' '
    ensures KeptEnd(s + Spaces(n)) == |s|
  {
    if n == 0 {
      assert s + Spaces(n) == s;
    } else {
      assert (s + Spaces(n))[..|s| + n - 1] == s + Spaces(n - 1);
      KeptEndIs(s, n - 1);
    }
  }

  lemma SplitSpaces(text: string, k: nat)
    requires k <= |text| && SpacesFrom(text, k)
    ensures text == text[..k] + Spaces(|text| - k)
  {
  }

  lemma KeptEnds(text: string)
    ensures var k := KeptEnd(text); k <= |text| && (k > 0 ==> text[..k][k - 1] != ' ')
    ensures text == text[..KeptEnd(text)] + Spaces(|text| - KeptEnd(text))
  {
    hide *;
    KeptPart(text);
    FrontLast(text, KeptEnd(text));
    SplitSpaces(text, KeptEnd(text));
  }

  lemma FrontLast(text: string, k: nat)
    requires k <= |text|
    ensures k > 0 ==> text[..k][k - 1] == text[k - 1]
  {
  }

  lemma KeptPart(text: string)
    ensures var k := KeptEnd(text); k <= |text| && (k > 0 ==> text[k - 1] != ' ') && SpacesFrom(text, k)
  {
  }

  lemma SpacesPlain(n: nat)
    ensures Escaped(Spaces(n)) == Spaces(n) && |Spaces(n)| == n
  {
    NothingToEscape(Spaces(n));
  }

  lemma QuoteAt(s: string, k: nat)
    requires KeptEnd(s) == k
    ensures k <= |s| && SpacesQuoted(s) == s[..k] + QuotedSpaces(|s| - k)
  {
  }

  lemma QuoteAfter(s: string, n: nat)
    requires s != "" ==> s[|s| - 1] != ' '
    ensures SpacesQuoted(s + Spaces(n)) == s + QuotedSpaces(n)
  {
    hide *;
    SpacesPlain(n);
    KeptEndIs(s, n);
    QuoteAt(s + Spaces(n), |s|);
    assert (s + Spaces(n))[..|s|] == s;
  }

  /** Quoting the final spaces of an escaped text quotes those of the text. */
  lemma QuotedSplit(head: string, n: nat)
    requires head != "" ==> head[|head| - 1] != ' '
    ensures SpacesQuoted(Escaped(head + Spaces(n))) == Escaped(head) + QuotedSpaces(n)
  {
    hide *;
    EscapedConcat(head, Spaces(n));
    SpacesPlain(n);
    assert Escaped(head) != "" ==> Escaped(head)[|Escaped(head)| - 1] != ' ' by {
      EscapedEnds(head);
      EmptyEscaped();
    }
    QuoteAfter(Escaped(head), n);
  }

  lemma EmptyEscaped()
    ensures Escaped("") == ""
  {
  }

  lemma EscapeNotCut(c: char, rest: string)
    requires CutFrom(rest, 0) == |rest|
    ensures CutFrom(['\\', c] + rest, 0) == |['\\', c] + rest|
  {
    CutShift(['\\', c], rest, 0);
  }

  lemma PlainNotCut(c: char, rest: string)
    requires CutFrom(rest, 0) == |rest| && c != '\\' && !SpacesFrom([c] + rest, 0)
    ensures CutFrom([c] + rest, 0) == |[c] + rest|
  {
    CutShift([c], rest, 0);
  }

  lemma BackslashIsMeta(c: char)
    ensures !IsMeta(c) ==> c != '\\'
  {
  }

  lemma EscapedShows(text: string, tail: string)
    requires text != "" && text[|text| - 1] != ' '
    ensures !SpacesFrom(Escaped(text) + tail, 0)
  {
    EscapedEnds(text);
    hide Escaped;
    assert (Escaped(text) + tail)[|Escaped(text)| - 1] != ' ';
  }

  lemma EscapedFirst(text: string, tail: string)
    requires text != ""
    ensures Escaped(text) + tail ==
            (if IsMeta(text[0]) then ['\\', text[0]] else [text[0]]) + (Escaped(text[1..]) + tail)
  {
    hide IsMeta;
  }

  /** Nothing is cut from an escaped text that does not end in a space, whatever quoted part follows. */
  lemma {:induction false} EscapedNotCut(text: string, n: nat)
    requires text != "" ==> text[|text| - 1] != ' '
    ensures CutFrom(Escaped(text) + QuotedSpaces(n), 0) == |Escaped(text) + QuotedSpaces(n)|
  {
    hide *;
    if text == "" {
      EmptyEscaped();
      assert Escaped("") + QuotedSpaces(n) == QuotedSpaces(n);
      QuotedSpacesReadBack(n);
    } else {
      EscapedNotCut(text[1..], n);
      EscapedFirst(text, QuotedSpaces(n));
      EscapedShows(text, QuotedSpaces(n));
      if IsMeta(text[0]) {
        EscapeNotCut(text[0], Escaped(text[1..]) + QuotedSpaces(n));
      } else {
        BackslashIsMeta(text[0]);
        PlainNotCut(text[0], Escaped(text[1..]) + QuotedSpaces(n));
      }
    }
  }

  /** Quoting the final spaces keeps what an escaped text says and shields it from trimming. */
  lemma QuotedTextSurvives(text: string)
    ensures Literally(SpacesQuoted(Escaped(text))) == Some(text)
    ensures Trimmed(SpacesQuoted(Escaped(text))) == SpacesQuoted(Escaped(text))
  {
    hide Literally, Escaped, SpacesQuoted, QuotedSpaces, Spaces, CutFrom, SpacesFrom;
    var k := KeptEnd(text);
    KeptEnds(text);
    var head, n := text[..k], |text| - k;
    QuotedSplit(head, n);
    EscapedReadsBack(head);
    QuotedSpacesReadBack(n);
    LiterallyConcat(Escaped(head), QuotedSpaces(n));
    EscapedNotCut(head, n);
  }

  // ----- from a path to its pattern -----

  /** A path as the platform splits it; the part of a normal component is missing when it is not text. */
  datatype Component = CurDir | ParentDir | RootDir | Prefix | Normal(part: Option<string>)

  datatype Scope = File | Folder | Extension

  /** What a component adds to the segments, unless it rules the path out. */
  function SegmentsOf(c: Component): Option<seq<string>> {
    match c
    case CurDir => Some([])
    case Normal(Some(part)) => if Unbroken(part) then Some([part]) else None
    case _ => None
  }

  function AllSegments(path: seq<Component>): Option<seq<string>> {
    if path == [] then Some([])
    else
      var front := AllSegments(path[..|path| - 1]);
      var last := SegmentsOf(path[|path| - 1]);
      if front.Some? && last.Some? then Some(front.value + last.value) else None
  }

  method RelativeSegments(path: seq<Component>) returns (segments: Option<seq<string>>)
    ensures segments == if AllSegments(path) == Some([]) then None else AllSegments(path)
  {
    var found: seq<string> := [];
    var i := 0;
    while i < |path|
      invariant 0 <= i <= |path|
      invariant AllSegments(path[..i]) == Some(found)
    {
      SegmentsNext(path, i);
      match path[i] {
        case CurDir =>
          assert found + [] == found;
        case Normal(Some(part)) =>
          if !Unbroken(part) {
            OneBadComponent(path, i + 1);
            return None;
          }
          found := found + [part];
        case _ =>
          OneBadComponent(path, i + 1);
          return None;
      }
      i := i + 1;
    }
    assert path[..i] == path;
    segments := if found == [] then None else Some(found);
  }

  lemma SegmentsNext(path: seq<Component>, i: nat)
    requires i < |path|
    ensures AllSegments(path[..i + 1]) ==
            if AllSegments(path[..i]).Some? && SegmentsOf(path[i]).Some?
            then Some(AllSegments(path[..i]).value + SegmentsOf(path[i]).value) else None
  {
    assert path[..i + 1][..i] == path[..i];
  }

  lemma {:induction false} OneBadComponent(path: seq<Component>, n: nat)
    requires n <= |path| && AllSegments(path[..n]).None?
    ensures AllSegments(path).None?
    decreases |path| - n
  {
    if n == |path| {
      assert path[..n] == path;
    } else {
      SegmentsNext(path, n);
      OneBadComponent(path, n + 1);
    }
  }

  predicate Plain(c: Component) {
    c.CurDir? || (c.Normal? && c.part.Some? && Unbroken(c.part.value))
  }

  /** A path has segments exactly when every component is plain, and they are free of line breaks. */
  lemma {:induction false} SegmentsOfPlainPaths(path: seq<Component>)
    ensures AllSegments(path).Some? <==> forall i :: 0 <= i < |path| ==> Plain(path[i])
    ensures AllSegments(path).Some? ==> forall s :: s in AllSegments(path).value ==> Unbroken(s)
  {
    hide Unbroken;
    if path != [] {
      var front := path[..|path| - 1];
      SegmentsOfPlainPaths(front);
      assert forall i :: 0 <= i < |front| ==> path[i] == front[i];
    }
  }

  /** The extension of a file name: what follows its last dot, unless that dot comes first. */
  function LastDot(name: string): (dot: Option<nat>)
    ensures dot.Some? ==> dot.value < |name|
  {
    if name == "" then None
    else if name[|name| - 1] == '.' then Some(|name| - 1)
    else LastDot(name[..|name| - 1])
  }

  function ExtensionOf(name: string): Option<string> {
    var dot := LastDot(name);
    if name == ".." || dot.None? || dot.value == 0 || dot.value + 1 == |name| then None
    else Some(name[dot.value + 1..])
  }

  /** The text a pattern of the given scope has to stand for, after its wildcard if it has one. */
  function Target(segments: seq<string>, scope: Scope): Option<string>
    requires segments != []
  {
    match scope
    case File => Some(PathText(segments))
    case Folder => if |segments| == 1 then None else Some(PathText(segments[..|segments| - 1]) + "/")
    case Extension =>
      var extension := ExtensionOf(segments[|segments| - 1]);
      if extension.None? then None else Some("." + extension.value)
  }

  method PatternFor(path: seq<Component>, scope: Scope) returns (pattern: Option<string>)
    ensures match AllSegments(path)
            case None => pattern.None?
            case Some(segments) =>
              if segments == [] || Target(segments, scope).None? then pattern.None?
              else
                && pattern.Some? && pattern.value == Written(Target(segments, scope).value, scope)
  {
    var found := RelativeSegments(path);
    if found.None? {
      return None;
    }
    var segments := found.value;
    match scope {
      case File =>
        var anchored := Anchored(segments);
        var quoted := EscapeTrailingSpaces(anchored);
        pattern := Some(quoted);
      case Folder =>
        var parent := segments[..|segments| - 1];
        if parent == [] {
          return None;
        }
        var anchored := Anchored(parent);
        FolderEscaped(PathText(parent));
        pattern := Some(anchored + "/");
      case Extension =>
        var extension := ExtensionOf(segments[|segments| - 1]);
        if extension.None? {
          return None;
        }
        var literal := EscapeLiteral(extension.value);
        ExtensionEscaped(extension.value);
        var quoted := EscapeTrailingSpaces("*." + literal);
        pattern := Some(quoted);
    }
  }

  /** The line that says `target`; one for an extension starts with a wildcard. */
  function Written(target: string, scope: Scope): string {
    if scope == Extension then SpacesQuoted("*" + Escaped(target)) else SpacesQuoted(Escaped(target))
  }

  lemma FolderEscaped(parent: string)
    ensures SpacesQuoted(Escaped(parent + "/")) == Escaped(parent) + "/"
  {
    EscapedConcat(parent, "/");
    assert Escaped("/") == "/" by { NothingToEscape("/"); }
    hide Escaped;
    QuoteAfter(Escaped(parent) + "/", 0);
    assert Escaped(parent) + "/" + Spaces(0) == Escaped(parent) + "/";
    assert QuotedSpaces(0) == "";
  }

  lemma ExtensionEscaped(extension: string)
    ensures "*" + Escaped("." + extension) == "*." + Escaped(extension)
  {
    assert ("." + extension)[1..] == extension;
    assert Escaped("." + extension) == "." + Escaped(extension);
  }

  /** Every pattern survives git's trimming, and says its path, folder or extension literally:
      a path's pattern as a whole, an extension's after its wildcard. */
  lemma PatternsSayTheirTarget(target: string, scope: Scope)
    requires scope == Extension ==> target != "" && target[0] == '.'
    ensures var pattern := Written(target, scope);
            && Trimmed(pattern) == pattern
            && (scope != Extension ==> Literally(pattern) == Some(target))
            && (scope == Extension ==> pattern != "" && pattern[0] == '*' && Literally(pattern[1..]) == Some(target))
  {
    hide Literally, Escaped, Trimmed, SpacesQuoted;
    QuotedTextSurvives(target);
    if scope == Extension {
      EmptyEscaped();
      QuoteAfterStar(target);
      StarNotTrimmed(SpacesQuoted(Escaped(target)));
    }
  }

  lemma StarQuote(e: string, n: nat)
    requires e != "" && e[|e| - 1] != ' '
    ensures SpacesQuoted("*" + (e + Spaces(n))) == "*" + SpacesQuoted(e + Spaces(n))
    ensures e <= SpacesQuoted(e + Spaces(n))
  {
    hide SpacesQuoted, QuotedSpaces, Spaces;
    QuoteAfter(e, n);
    QuoteAfter("*" + e, n);
    assert "*" + (e + Spaces(n)) == "*" + e + Spaces(n);
    assert "*" + e + QuotedSpaces(n) == "*" + (e + QuotedSpaces(n));
  }

  lemma StarSplit(head: string, n: nat)
    requires head != "" && head[|head| - 1] != ' '
    ensures SpacesQuoted("*" + Escaped(head + Spaces(n))) == "*" + SpacesQuoted(Escaped(head + Spaces(n)))
    ensures Escaped(head) <= SpacesQuoted(Escaped(head + Spaces(n)))
  {
    hide *;
    EscapedConcat(head, Spaces(n));
    SpacesPlain(n);
    EscapedEnds(head);
    StarQuote(Escaped(head), n);
  }

  lemma EscapedDot(text: string)
    requires text != "" && text[0] == '.'
    ensures Escaped(text) != "" && Escaped(text)[0] == '.'
  {
  }

  lemma QuoteAfterStar(target: string)
    requires target != "" && target[0] == '.'
    ensures SpacesQuoted("*" + Escaped(target)) == "*" + SpacesQuoted(Escaped(target))
    ensures SpacesQuoted(Escaped(target)) != "" && SpacesQuoted(Escaped(target))[0] == '.'
  {
    hide Escaped, SpacesQuoted, QuotedSpaces;
    var k := KeptEnd(target);
    KeptEnds(target);
    var head, n := target[..k], |target| - k;
    assert target[0] != ' ' && SpacesFrom(target, k);
    StarSplit(head, n);
    EscapedDot(head);
  }

  lemma StarNotTrimmed(line: string)
    requires Trimmed(line) == line && line != "" && line[0] != ' '
    ensures Trimmed("*" + line) == "*" + line
  {
    CutShift("*", line, 0);
    assert ("*" + line)[1] != ' ';
  }

  /** Patterns that say different things are different. */
  lemma WrittenIsInjective(x: string, y: string)
    requires SpacesQuoted(Escaped(x)) == SpacesQuoted(Escaped(y))
    ensures x == y
  {
    QuotedTextSurvives(x);
    QuotedTextSurvives(y);
  }

  predicate NoSlash(s: string) {
    forall i :: 0 <= i < |s| ==> s[i] != '/'
  }

  lemma NoSlashAfter(x: string, p: string)
    requires NoSlash(p)
    ensures var whole := x + "/" + p; forall i :: |x| < i < |whole| ==> whole[i] != '/'
  {
    var whole := x + "/" + p;
    assert whole[|x| + 1..] == p;
  }

  lemma LastSegmentAgrees(x: string, p: string, y: string, q: string)
    requires x + "/" + p == y + "/" + q && NoSlash(p) && NoSlash(q)
    ensures x == y && p == q
  {
    var whole := x + "/" + p;
    assert whole[|x|] == '/' && whole[|y|] == '/';
    NoSlashAfter(x, p);
    NoSlashAfter(y, q);
    assert whole[..|x|] == x && whole[..|y|] == y;
    assert whole[|x| + 1..] == p && whole[|y| + 1..] == q;
  }

  /** A path is recovered from its text, so no two paths share a pattern of scope `File`. */
  lemma {:induction false} PathsAreDistinct(x: seq<string>, y: seq<string>)
    requires (forall s :: s in x ==> NoSlash(s)) && (forall s :: s in y ==> NoSlash(s))
    requires SpacesQuoted(Escaped(PathText(x))) == SpacesQuoted(Escaped(PathText(y)))
    ensures x == y
  {
    hide Escaped, SpacesQuoted, NoSlash;
    WrittenIsInjective(PathText(x), PathText(y));
    if x != [] && y != [] {
      var fx, fy := x[..|x| - 1], y[..|y| - 1];
      LastSegmentAgrees(PathText(fx), x[|x| - 1], PathText(fy), y[|y| - 1]);
      PathsAreDistinct(fx, fy);
      assert x == fx + [x[|x| - 1]] && y == fy + [y[|y| - 1]];
    }
  }
}
