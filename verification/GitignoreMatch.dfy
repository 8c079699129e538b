/** Which paths a pattern matches. */
module GitignoreMatches {
  import opened Wrappers
  import opened GitignorePatterns

  /** What a wildcard may stand for: characters of one path segment. */
  predicate InSegment(s: string) {
    forall i :: 0 <= i < |s| ==> s[i] != '/'
  }

  /** How git matches a text: an asterisk stands for any characters of one segment, a question mark for
      one of them, a backslash makes the next character stand for itself.  What a bracket stands for is
      a parameter. */
  ghost predicate Matches(pattern: string, text: string, bracket: (string, string) -> bool)
    decreases |pattern|
  {
    if pattern == "" then text == ""
    else if pattern[0] == '*' then
      exists k: nat :: k <= |text| && InSegment(text[..k]) && Matches(pattern[1..], text[k..], bracket)
    else if pattern[0] == '?' then text != "" && text[0] != '/' && Matches(pattern[1..], text[1..], bracket)
    else if pattern[0] == '[' then bracket(pattern, text)
    else if pattern[0] == '\\' then
      |pattern| > 1 && text != "" && text[0] == pattern[1] && Matches(pattern[2..], text[1..], bracket)
    else text != "" && text[0] == pattern[0] && Matches(pattern[1..], text[1..], bracket)
  }

  /** A pattern that can only match literally matches the text it stands for and no other. */
  lemma {:induction false} LiteralMatches(pattern: string, text: string, bracket: (string, string) -> bool)
    requires Literally(pattern).Some?
    ensures Matches(pattern, text, bracket) <==> text == Literally(pattern).value
    decreases |pattern|
  {
    if pattern != "" {
      var width := if pattern[0] == '\\' then 2 else 1;
      var rest := Literally(pattern[width..]);
      if text != "" {
        LiteralMatches(pattern[width..], text[1..], bracket);
        assert text == [text[0]] + text[1..];
      }
    }
  }

  /** A text with a stem in one segment before `target`. */
  ghost predicate EndsIn(text: string, target: string) {
    exists k: nat :: k <= |text| && InSegment(text[..k]) && text[k..] == target
  }

  /** A written pattern matches exactly its target; one for an extension, exactly the names that end in it. */
  lemma WrittenMatches(target: string, scope: Scope, text: string, bracket: (string, string) -> bool)
    requires scope == Extension ==> target != "" && target[0] == '.'
    ensures Matches(Written(target, scope), text, bracket) <==>
            if scope == Extension then EndsIn(text, target) else text == target
  {
    PatternsSayTheirTarget(target, scope);
    var pattern := Written(target, scope);
    hide Literally, Written;
    if scope == Extension {
      forall k: nat | k <= |text|
        ensures Matches(pattern[1..], text[k..], bracket) <==> text[k..] == target
      {
        LiteralMatches(pattern[1..], text[k..], bracket);
      }
    } else {
      LiteralMatches(pattern, text, bracket);
    }
  }

  /** No written pattern begins like a comment or an exception. */
  lemma FirstColumn(segments: seq<string>, scope: Scope)
    requires segments != [] && Target(segments, scope).Some?
    ensures var pattern := Written(Target(segments, scope).value, scope);
            pattern != "" && pattern[0] != '#' && pattern[0] != '!'
  {
    var target := Target(segments, scope).value;
    hide Written, Literally;
    PatternsSayTheirTarget(target, scope);
    if scope != Extension {
      var path := if scope == File then segments else segments[..|segments| - 1];
      PathStarts(path);
      LiteralStarts(Written(target, scope));
    }
  }

  lemma LiteralStarts(pattern: string)
    requires Literally(pattern).Some? && Literally(pattern).value != ""
    ensures pattern != "" && (pattern[0] == '\\' || pattern[0] == Literally(pattern).value[0])
  {
  }

  lemma {:induction false} PathStarts(segments: seq<string>)
    requires segments != []
    ensures PathText(segments) != "" && PathText(segments)[0] == '/'
  {
    if |segments| > 1 {
      PathStarts(segments[..|segments| - 1]);
    } else {
      assert PathText(segments[..0]) == "";
    }
  }

  // ----- extensions -----

  predicate NoDot(s: string) {
    forall i :: 0 <= i < |s| ==> s[i] != '.'
  }

  lemma {:induction false} LastDotIs(name: string)
    ensures match LastDot(name)
            case None => NoDot(name)
            case Some(dot) => name[dot] == '.' && NoDot(name[dot + 1..])
  {
    if name != "" && name[|name| - 1] != '.' {
      var front := name[..|name| - 1];
      LastDotIs(front);
      assert name == front + [name[|name| - 1]];
      if LastDot(front).Some? {
        var dot := LastDot(front).value;
        assert name[dot + 1..] == front[dot + 1..] + [name[|name| - 1]];
      }
    }
  }

  lemma NoneLater(name: string, x: nat)
    requires x < |name| && NoDot(name[x + 1..])
    ensures forall y :: x < y < |name| ==> name[y] != '.'
  {
    forall y | x < y < |name|
      ensures name[y] != '.'
    {
      assert name[x + 1..][y - x - 1] == name[y];
    }
  }

  lemma StemAndExtension(stem: string, extension: string)
    requires stem != "" && extension != "" && NoDot(extension)
    ensures ExtensionOf(stem + "." + extension) == Some(extension)
  {
    hide LastDot, NoDot;
    var name := stem + "." + extension;
    assert name[|stem|] == '.' && name[|stem| + 1..] == extension;
    LastDotIs(name);
    NoneLater(name, |stem|);
    DotThere(name, |stem|);
    NoneLater(name, LastDot(name).value);
  }

  lemma DotThere(name: string, x: nat)
    requires x < |name| && name[x] == '.'
    ensures LastDot(name).Some?
  {
    LastDotIs(name);
    hide LastDot;
  }

  lemma ExtensionSplits(name: string, extension: string)
    requires ExtensionOf(name) == Some(extension)
    ensures extension != "" && NoDot(extension)
    ensures exists stem: string :: stem != "" && name == stem + "." + extension
  {
    hide LastDot, NoDot;
    LastDotIs(name);
    var dot := LastDot(name).value;
    assert name == name[..dot] + "." + extension;
  }

  /** The extension is what follows the last dot of a name: it is not empty, has no dot itself, and
      something stands before that dot. */
  lemma ExtensionIs(name: string, extension: string)
    ensures ExtensionOf(name) == Some(extension) <==>
              && extension != "" && NoDot(extension)
              && exists stem: string :: stem != "" && name == stem + "." + extension
  {
    hide ExtensionOf, NoDot;
    if ExtensionOf(name) == Some(extension) {
      ExtensionSplits(name, extension);
    }
    if extension != "" && NoDot(extension) && exists stem: string :: stem != "" && name == stem + "." + extension {
      var stem: string :| stem != "" && name == stem + "." + extension;
      StemAndExtension(stem, extension);
    }
  }
}
