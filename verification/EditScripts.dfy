module EditScripts {
  // Edit scripts between two line sequences, and what it means for one to be correct.

  /** One step of an edit script: keep a pair of lines, drop an old line, or add a new one. */
  datatype Edit<T> =
    | Equal(oldLine: T, newLine: T)
    | Delete(oldLine: T)
    | Insert(newLine: T)

  ghost function OldPart<T>(e: Edit<T>): seq<T> {
    if e.Insert? then [] else [e.oldLine]
  }

  ghost function NewPart<T>(e: Edit<T>): seq<T> {
    if e.Delete? then [] else [e.newLine]
  }

  /** The old lines an edit script consumes, in order. */
  ghost function OldSide<T>(s: seq<Edit<T>>): seq<T> {
    if s == [] then [] else OldPart(s[0]) + OldSide(s[1..])
  }

  /** The new lines an edit script produces, in order. */
  ghost function NewSide<T>(s: seq<Edit<T>>): seq<T> {
    if s == [] then [] else NewPart(s[0]) + NewSide(s[1..])
  }

  /** Equal steps pair equal lines. */
  ghost predicate PairsEqual<T>(s: seq<Edit<T>>) {
    forall i :: 0 <= i < |s| && s[i].Equal? ==> s[i].oldLine == s[i].newLine
  }

  /** The script turns `a` into `b`. */
  ghost predicate ValidScript<T>(s: seq<Edit<T>>, a: seq<T>, b: seq<T>) {
    OldSide(s) == a && NewSide(s) == b && PairsEqual(s)
  }

  /** The number of steps that are not Equal. */
  ghost function Cost<T>(s: seq<Edit<T>>): nat {
    if s == [] then 0 else (if s[0].Equal? then 0 else 1) + Cost(s[1..])
  }

  /** Every script that turns `a` into `b` has at least as many insertions and deletions as `s`. */
  ghost predicate Minimal<T(!new)>(s: seq<Edit<T>>, a: seq<T>, b: seq<T>) {
    forall t: seq<Edit<T>> :: ValidScript(t, a, b) ==> Cost(s) <= Cost(t)
  }

  /** In every group of changes the deletions come first: no insertion is directly followed by one. */
  ghost predicate DeletesFirst<T>(s: seq<Edit<T>>) {
    forall i :: 0 <= i < |s| - 1 ==> !(s[i].Insert? && s[i + 1].Delete?)
  }

  lemma {:induction false} SidesConcat<T>(s: seq<Edit<T>>, t: seq<Edit<T>>)
    ensures OldSide(s + t) == OldSide(s) + OldSide(t)
    ensures NewSide(s + t) == NewSide(s) + NewSide(t)
    ensures Cost(s + t) == Cost(s) + Cost(t)
  {
    hide OldPart, NewPart;
    if s == [] {
      assert s + t == t;
    } else {
      assert (s + t)[1..] == s[1..] + t;
      SidesConcat(s[1..], t);
      assert OldPart(s[0]) + (OldSide(s[1..]) + OldSide(t)) == OldSide(s) + OldSide(t);
      assert NewPart(s[0]) + (NewSide(s[1..]) + NewSide(t)) == NewSide(s) + NewSide(t);
    }
  }

  /** Scripts for consecutive regions can be chained. */
  lemma ValidConcat<T>(s: seq<Edit<T>>, a: seq<T>, b: seq<T>, t: seq<Edit<T>>, a': seq<T>, b': seq<T>)
    requires ValidScript(s, a, b) && ValidScript(t, a', b')
    ensures ValidScript(s + t, a + a', b + b')
    ensures Cost(s + t) == Cost(s) + Cost(t)
  {
    SidesConcat(s, t);
  }

  // ----- which lines a script keeps -----

  /** An old and a new line, by position. */
  type LinePair = (nat, nat)

  /** `len` consecutive pairs from old line `i` and new line `j` on. */
  ghost function Diagonal(i: nat, j: nat, len: nat): set<LinePair> {
    if len == 0 then {} else Diagonal(i, j, len - 1) + {(i + len - 1, j + len - 1)}
  }

  lemma {:induction false} DiagonalHolds(i: nat, j: nat, len: nat, p: LinePair)
    ensures p in Diagonal(i, j, len) <==> i <= p.0 < i + len && p.0 - i == p.1 - j
  {
    if len > 0 {
      DiagonalHolds(i, j, len - 1, p);
    }
  }

  lemma DiagonalNext(kept: set<LinePair>, i: nat, j: nat, len: nat)
    ensures kept + Diagonal(i, j, len) + {(i + len, j + len)} == kept + Diagonal(i, j, len + 1)
  {
  }

  lemma {:induction false} DiagonalJoin(i: nat, j: nat, m: nat, l: nat)
    ensures Diagonal(i, j, m + l) == Diagonal(i, j, m) + Diagonal(i + m, j + m, l)
  {
    if l > 0 {
      DiagonalJoin(i, j, m, l - 1);
      assert m + l - 1 == m + (l - 1) && i + (m + l) - 1 == i + m + l - 1 && j + (m + l) - 1 == j + m + l - 1;
    }
  }

  /** The pairs of positions a script keeps. */
  ghost function KeptPairs<T>(s: seq<Edit<T>>): set<LinePair> {
    if s == [] then {}
    else
      var front := s[..|s| - 1];
      KeptPairs(front) + if s[|s| - 1].Equal? then {(|OldSide(front)|, |NewSide(front)|)} else {}
  }

  lemma KeptPush<T>(s: seq<Edit<T>>, e: Edit<T>)
    ensures KeptPairs(s + [e]) == KeptPairs(s) + if e.Equal? then {(|OldSide(s)|, |NewSide(s)|)} else {}
  {
    assert (s + [e])[..|s|] == s;
  }
}
