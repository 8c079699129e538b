/** Scripts built in linear time: a shared prefix and suffix are kept, the interior is replaced
    wholesale or position by position. */
module LinearFallback {
  import opened EditScripts
  import opened Boundaries

  /** What a script pushed so far must satisfy: it is valid for the first `i` and `j` lines. */
  ghost predicate Upto<T>(s: seq<Edit<T>>, a: seq<T>, b: seq<T>, i: nat, j: nat, cost: nat) {
    i <= |a| && j <= |b| && ValidScript(s, a[..i], b[..j]) && Cost(s) == cost
  }

  lemma UptoPush<T>(s: seq<Edit<T>>, a: seq<T>, b: seq<T>, i: nat, j: nat, cost: nat, e: Edit<T>)
    requires Upto(s, a, b, i, j, cost)
    requires !e.Insert? ==> i < |a| && e.oldLine == a[i]
    requires !e.Delete? ==> j < |b| && e.newLine == b[j]
    requires e.Equal? ==> e.oldLine == e.newLine
    ensures Upto(s + [e], a, b, if e.Insert? then i else i + 1, if e.Delete? then j else j + 1,
                 if e.Equal? then cost else cost + 1)
    ensures KeptPairs(s + [e]) == KeptPairs(s) + if e.Equal? then {(i, j)} else {}
  {
    hide KeptPairs, OldSide, NewSide, Cost;
    PairPushed(s, a, b, i, j, cost, e);
    OneStep(e);
    SidesConcat(s, [e]);
    if !e.Insert? { assert a[..i + 1] == a[..i] + [a[i]]; }
    if !e.Delete? { assert b[..j + 1] == b[..j] + [b[j]]; }
  }

  lemma PairPushed<T>(s: seq<Edit<T>>, a: seq<T>, b: seq<T>, i: nat, j: nat, cost: nat, e: Edit<T>)
    requires Upto(s, a, b, i, j, cost)
    ensures KeptPairs(s + [e]) == KeptPairs(s) + if e.Equal? then {(i, j)} else {}
  {
    hide KeptPairs, OldSide, NewSide, Cost;
    KeptPush(s, e);
  }

  lemma OneStep<T>(e: Edit<T>)
    ensures OldSide([e]) == OldPart(e) && NewSide([e]) == NewPart(e) && Cost([e]) == if e.Equal? then 0 else 1
  {
    assert [e][1..] == [];
  }

  lemma UptoStart<T>(a: seq<T>, b: seq<T>)
    ensures Upto([], a, b, 0, 0, 0) && KeptPairs<T>([]) == {}
  {
  }

  lemma UptoEnd<T>(s: seq<Edit<T>>, a: seq<T>, b: seq<T>, cost: nat)
    requires Upto(s, a, b, |a|, |b|, cost)
    ensures ValidScript(s, a, b) && Cost(s) == cost
  {
    assert a[..|a|] == a && b[..|b|] == b;
  }

  /** `len` old lines from `i` on agree with the new lines from `j` on. */
  ghost predicate SameRun<T>(a: seq<T>, b: seq<T>, i: nat, j: nat, len: nat) {
    i + len <= |a| && j + len <= |b| && a[i..i + len] == b[j..j + len]
  }

  lemma SameRunAt<T>(a: seq<T>, b: seq<T>, i: nat, j: nat, len: nat, x: nat)
    requires SameRun(a, b, i, j, len) && x < len
    ensures i + x < |a| && j + x < |b| && a[i + x] == b[j + x]
  {
    assert a[i + x] == a[i..i + len][x] == b[j..j + len][x] == b[j + x];
  }

  // ----- the pieces scripts are made of -----

  ghost function KeptLines<T>(a: seq<T>, b: seq<T>, i: nat, j: nat, len: nat): seq<Edit<T>> {
    if i + len <= |a| && j + len <= |b| then seq(len, x requires 0 <= x < len => Equal(a[i + x], b[j + x])) else []
  }

  ghost function DeletedLines<T>(a: seq<T>, i: nat, i': nat): seq<Edit<T>> {
    if i <= i' <= |a| then seq(i' - i, x requires 0 <= x < i' - i => Delete(a[i + x])) else []
  }

  ghost function InsertedLines<T>(b: seq<T>, j: nat, j': nat): seq<Edit<T>> {
    if j <= j' <= |b| then seq(j' - j, x requires 0 <= x < j' - j => Insert(b[j + x])) else []
  }

  lemma NoLines<T>(s: seq<Edit<T>>, a: seq<T>, b: seq<T>, i: nat, j: nat)
    ensures s + KeptLines(a, b, i, j, 0) == s && s + DeletedLines(a, i, i) == s && s + InsertedLines(b, j, j) == s
  {
  }

  lemma KeptLinesNext<T>(s: seq<Edit<T>>, a: seq<T>, b: seq<T>, i: nat, j: nat, x: nat)
    requires i + x < |a| && j + x < |b|
    ensures s + KeptLines(a, b, i, j, x) + [Equal(a[i + x], b[j + x])] == s + KeptLines(a, b, i, j, x + 1)
  {
  }

  lemma DeletedLinesNext<T>(s: seq<Edit<T>>, a: seq<T>, i: nat, x: nat)
    requires i <= x < |a|
    ensures s + DeletedLines(a, i, x) + [Delete(a[x])] == s + DeletedLines(a, i, x + 1)
  {
  }

  lemma InsertedLinesNext<T>(s: seq<Edit<T>>, b: seq<T>, j: nat, x: nat)
    requires j <= x < |b|
    ensures s + InsertedLines(b, j, x) + [Insert(b[x])] == s + InsertedLines(b, j, x + 1)
  {
  }

  /** Push `len` kept pairs starting at old `i` and new `j`. */
  method PushEquals<T>(s0: seq<Edit<T>>, a: seq<T>, b: seq<T>, i: nat, j: nat, len: nat, ghost cost: nat)
    returns (s: seq<Edit<T>>)
    requires Upto(s0, a, b, i, j, cost)
    requires SameRun(a, b, i, j, len)
    ensures Upto(s, a, b, i + len, j + len, cost) && KeptPairs(s) == KeptPairs(s0) + Diagonal(i, j, len)
    ensures s == s0 + KeptLines(a, b, i, j, len)
  {
    hide *;
    s := s0;
    NoLines(s0, a, b, i, j);
    NoDiagonal(KeptPairs(s0), i, j);
    for x := 0 to len
      invariant Upto(s, a, b, i + x, j + x, cost)
      invariant KeptPairs(s) == KeptPairs(s0) + Diagonal(i, j, x) && s == s0 + KeptLines(a, b, i, j, x)
    {
      SameRunAt(a, b, i, j, len, x);
      KeptLinesNext(s0, a, b, i, j, x);
      UptoPush(s, a, b, i + x, j + x, cost, Equal(a[i + x], b[j + x]));
      DiagonalNext(KeptPairs(s0), i, j, x);
      s := s + [Equal(a[i + x], b[j + x])];
    }
  }

  lemma NoDiagonal(kept: set<LinePair>, i: nat, j: nat)
    ensures kept + Diagonal(i, j, 0) == kept
  {
  }

  method PushDeletes<T>(s0: seq<Edit<T>>, a: seq<T>, b: seq<T>, i: nat, j: nat, end: nat, ghost cost: nat)
    returns (s: seq<Edit<T>>)
    requires Upto(s0, a, b, i, j, cost) && i <= end <= |a|
    ensures Upto(s, a, b, end, j, cost + (end - i)) && KeptPairs(s) == KeptPairs(s0)
    ensures s == s0 + DeletedLines(a, i, end)
  {
    hide *;
    s := s0;
    NoLines(s0, a, b, i, j);
    for x := i to end
      invariant Upto(s, a, b, x, j, cost + (x - i)) && KeptPairs(s) == KeptPairs(s0)
      invariant s == s0 + DeletedLines(a, i, x)
    {
      DeletedLinesNext(s0, a, i, x);
      UptoPush(s, a, b, x, j, cost + (x - i), Delete(a[x]));
      s := s + [Delete(a[x])];
    }
  }

  method PushInserts<T>(s0: seq<Edit<T>>, a: seq<T>, b: seq<T>, i: nat, j: nat, end: nat, ghost cost: nat)
    returns (s: seq<Edit<T>>)
    requires Upto(s0, a, b, i, j, cost) && j <= end <= |b|
    ensures Upto(s, a, b, i, end, cost + (end - j)) && KeptPairs(s) == KeptPairs(s0)
    ensures s == s0 + InsertedLines(b, j, end)
  {
    hide *;
    s := s0;
    NoLines(s0, a, b, i, j);
    for x := j to end
      invariant Upto(s, a, b, i, x, cost + (x - j)) && KeptPairs(s) == KeptPairs(s0)
      invariant s == s0 + InsertedLines(b, j, x)
    {
      InsertedLinesNext(s0, b, j, x);
      UptoPush(s, a, b, i, x, cost + (x - j), Insert(b[x]));
      s := s + [Insert(b[x])];
    }
  }

  /** The lengths of the longest shared prefix and the longest suffix beside it. */
  ghost predicate Shared<T>(a: seq<T>, b: seq<T>, p: nat, s: nat) {
    IsCommonPrefix(a, b, p) && IsCommonSuffix(a, b, p, s) && p + s <= |a| && p + s <= |b|
  }

  /** Both scans, and what they establish in the form the pushes need. */
  method TrimEnds<T(==)>(a: seq<T>, b: seq<T>) returns (prefix: nat, suffix: nat)
    ensures Shared(a, b, prefix, suffix) && prefix + suffix <= |a| && prefix + suffix <= |b|
    ensures SameRun(a, b, 0, 0, prefix) && SameRun(a, b, |a| - suffix, |b| - suffix, suffix)
  {
    prefix := CommonPrefix(a, b);
    suffix := CommonSuffix(a, b, prefix);
    assert a[|a| - suffix..|a|] == a[|a| - suffix..] && b[|b| - suffix..|b|] == b[|b| - suffix..];
    assert a[0..prefix] == a[..prefix] && b[0..prefix] == b[..prefix];
  }

  /** The pairs of a shared prefix and suffix. */
  ghost function EndPairs(oldLen: nat, newLen: nat, p: nat, s: nat): set<LinePair>
    requires p + s <= oldLen && p + s <= newLen
  {
    Diagonal(0, 0, p) + Diagonal(oldLen - s, newLen - s, s)
  }

  /** Keep the shared prefix and suffix and replace everything between them. */
  method MyersFallbackEdits<T(==)>(a: seq<T>, b: seq<T>) returns (edits: seq<Edit<T>>)
    ensures ValidScript(edits, a, b)
    ensures exists p: nat, s: nat :: Shared(a, b, p, s) && Cost(edits) == |a| + |b| - 2 * (p + s)
                                     && KeptPairs(edits) == EndPairs(|a|, |b|, p, s)
    ensures DeletesFirst(edits)
  {
    hide *;
    var prefix, suffix := TrimEnds(a, b);
    var oldMidEnd, newMidEnd := |a| - suffix, |b| - suffix;
    UptoStart(a, b);
    edits := [];
    edits := PushEquals(edits, a, b, 0, 0, prefix, 0);
    edits := PushDeletes(edits, a, b, prefix, prefix, oldMidEnd, 0);
    edits := PushInserts(edits, a, b, oldMidEnd, prefix, newMidEnd, oldMidEnd - prefix);
    edits := PushEquals(edits, a, b, oldMidEnd, newMidEnd, suffix, |a| + |b| - 2 * (prefix + suffix));
    UptoEnd(edits, a, b, |a| + |b| - 2 * (prefix + suffix));
    EndPairsAre(|a|, |b|, prefix, suffix);
    PartsInOrder(edits, a, b, prefix, oldMidEnd, newMidEnd, suffix);
  }

  ghost predicate NoInserts<T>(s: seq<Edit<T>>) {
    forall i :: 0 <= i < |s| ==> !s[i].Insert?
  }

  ghost predicate NoDeletes<T>(s: seq<Edit<T>>) {
    forall i :: 0 <= i < |s| ==> !s[i].Delete?
  }

  lemma NoInsertsYet<T>(s: seq<Edit<T>>, t: seq<Edit<T>>)
    requires NoInserts(s) && NoInserts(t)
    ensures NoInserts(s + t)
  {
  }

  lemma NoDeletesLeft<T>(s: seq<Edit<T>>, t: seq<Edit<T>>)
    requires NoDeletes(s) && NoDeletes(t)
    ensures NoDeletes(s + t)
  {
  }

  lemma InOrder<T>(s: seq<Edit<T>>, t: seq<Edit<T>>)
    requires NoInserts(s) && NoDeletes(t)
    ensures DeletesFirst(s + t)
  {
  }

  lemma PieceKinds<T>(a: seq<T>, b: seq<T>, i: nat, j: nat, len: nat, i': nat, j': nat)
    ensures NoInserts(KeptLines(a, b, i, j, len)) && NoDeletes(KeptLines(a, b, i, j, len))
    ensures NoInserts(DeletedLines(a, i, i')) && NoDeletes(InsertedLines(b, j, j'))
  {
  }

  /** Kept lines, then deletions, then insertions, then kept lines. */
  lemma PartsInOrder<T>(s: seq<Edit<T>>, a: seq<T>, b: seq<T>, prefix: nat, oldEnd: nat, newEnd: nat, suffix: nat)
    requires s == [] + KeptLines(a, b, 0, 0, prefix) + DeletedLines(a, prefix, oldEnd)
                  + InsertedLines(b, prefix, newEnd) + KeptLines(a, b, oldEnd, newEnd, suffix)
    ensures DeletesFirst(s)
  {
    PieceKinds(a, b, 0, 0, prefix, 0, 0);
    PieceKinds(a, b, prefix, prefix, 0, oldEnd, newEnd);
    PieceKinds(a, b, oldEnd, newEnd, suffix, 0, 0);
    hide *;
    NoInsertsYet(KeptLines(a, b, 0, 0, prefix), DeletedLines(a, prefix, oldEnd));
    NoDeletesLeft(InsertedLines(b, prefix, newEnd), KeptLines(a, b, oldEnd, newEnd, suffix));
    InOrder(KeptLines(a, b, 0, 0, prefix) + DeletedLines(a, prefix, oldEnd),
            InsertedLines(b, prefix, newEnd) + KeptLines(a, b, oldEnd, newEnd, suffix));
    FourParts(KeptLines(a, b, 0, 0, prefix), DeletedLines(a, prefix, oldEnd), InsertedLines(b, prefix, newEnd),
              KeptLines(a, b, oldEnd, newEnd, suffix));
  }

  lemma FourParts<T>(w: seq<T>, x: seq<T>, y: seq<T>, z: seq<T>)
    ensures [] + w + x + y + z == (w + x) + (y + z)
  {
  }

  lemma EndPairsAre(oldLen: nat, newLen: nat, p: nat, s: nat)
    requires p + s <= oldLen && p + s <= newLen
    ensures {} + Diagonal(0, 0, p) + Diagonal(oldLen - s, newLen - s, s) == EndPairs(oldLen, newLen, p, s)
  {
    assert {} + Diagonal(0, 0, p) == Diagonal(0, 0, p);
  }

  /** The number of positions from `start` on, `len` of them, at which both sides have the same line. */
  ghost function AgreeingFrom<T>(a: seq<T>, b: seq<T>, start: nat, len: nat): (n: nat)
    requires start + len <= |a| && start + len <= |b|
    ensures n <= len
  {
    if len == 0 then 0
    else AgreeingFrom(a, b, start, len - 1) + if a[start + len - 1] == b[start + len - 1] then 1 else 0
  }

  /** Those positions, as pairs. */
  ghost function AgreeingPairs<T>(a: seq<T>, b: seq<T>, start: nat, len: nat): set<LinePair>
    requires start + len <= |a| && start + len <= |b|
  {
    if len == 0 then {}
    else
      var x := start + len - 1;
      AgreeingPairs(a, b, start, len - 1) + if a[x] == b[x] then {(x, x)} else {}
  }

  /** And the positions at which the lines differ. */
  ghost function DifferingPairs<T>(a: seq<T>, b: seq<T>, start: nat, len: nat): set<LinePair>
    requires start + len <= |a| && start + len <= |b|
  {
    if len == 0 then {}
    else
      var x := start + len - 1;
      DifferingPairs(a, b, start, len - 1) + if a[x] == b[x] then {} else {(x, x)}
  }

  lemma {:induction false} DifferingPairsHold<T>(a: seq<T>, b: seq<T>, start: nat, len: nat, p: LinePair)
    requires start + len <= |a| && start + len <= |b|
    ensures p in DifferingPairs(a, b, start, len) <==> start <= p.0 < start + len && p.0 == p.1 && a[p.0] != b[p.1]
  {
    if len > 0 {
      DifferingPairsHold(a, b, start, len - 1, p);
    }
  }

  /** They are what the name says. */
  lemma {:induction false} AgreeingPairsHold<T>(a: seq<T>, b: seq<T>, start: nat, len: nat, p: LinePair)
    requires start + len <= |a| && start + len <= |b|
    ensures p in AgreeingPairs(a, b, start, len) <==> start <= p.0 < start + len && p.0 == p.1 && a[p.0] == b[p.1]
  {
    if len > 0 {
      AgreeingPairsHold(a, b, start, len - 1, p);
    }
  }

  lemma AgreeingNext<T>(a: seq<T>, b: seq<T>, start: nat, len: nat, kept: set<LinePair>)
    requires start + len < |a| && start + len < |b|
    ensures var x := start + len;
            && AgreeingFrom(a, b, start, len + 1) == AgreeingFrom(a, b, start, len) + (if a[x] == b[x] then 1 else 0)
            && kept + AgreeingPairs(a, b, start, len + 1)
               == kept + AgreeingPairs(a, b, start, len) + if a[x] == b[x] then {(x, x)} else {}
  {
  }

  lemma NothingAgrees<T>(a: seq<T>, b: seq<T>, start: nat, kept: set<LinePair>)
    requires start <= |a| && start <= |b|
    ensures AgreeingFrom(a, b, start, 0) == 0 && kept + AgreeingPairs(a, b, start, 0) == kept
  {
  }

  /** Position `x` is replaced in place: its deletion is directly followed by its insertion. */
  ghost predicate ReplacedAt<T>(s: seq<Edit<T>>, a: seq<T>, b: seq<T>, x: nat) {
    x < |a| && x < |b| && exists k: nat :: ReplacesAt(s, a, b, x, k)
  }

  ghost predicate ReplacesAt<T>(s: seq<Edit<T>>, a: seq<T>, b: seq<T>, x: nat, k: nat)
    requires x < |a| && x < |b|
  {
    && k + 1 < |s| && s[k] == Delete(a[x]) && s[k + 1] == Insert(b[x])
    && |OldSide(s[..k])| == x == |NewSide(s[..k])|
  }

  /** All differing positions of a stretch are. */
  ghost predicate ReplacesAll<T>(s: seq<Edit<T>>, a: seq<T>, b: seq<T>, start: nat, end: nat) {
    && end <= |a| && end <= |b|
    && forall x: nat :: start <= x < end && a[x] != b[x] ==> ReplacedAt(s, a, b, x)
  }

  lemma ReplacedLonger<T>(s: seq<Edit<T>>, t: seq<Edit<T>>, a: seq<T>, b: seq<T>, x: nat)
    requires ReplacedAt(s, a, b, x)
    ensures ReplacedAt(s + t, a, b, x)
  {
    hide OldSide, NewSide;
    var k: nat :| ReplacesAt(s, a, b, x, k);
    assert (s + t)[..k] == s[..k];
    assert ReplacesAt(s + t, a, b, x, k);
  }

  lemma ReplacesLonger<T>(s: seq<Edit<T>>, t: seq<Edit<T>>, a: seq<T>, b: seq<T>, start: nat, end: nat)
    requires ReplacesAll(s, a, b, start, end)
    ensures ReplacesAll(s + t, a, b, start, end)
  {
    hide ReplacedAt;
    forall x: nat | start <= x < end && a[x] != b[x]
      ensures ReplacedAt(s + t, a, b, x)
    {
      ReplacedLonger(s, t, a, b, x);
    }
  }

  /** One more position, kept or replaced. */
  lemma ReplacesNext<T>(s: seq<Edit<T>>, t: seq<Edit<T>>, a: seq<T>, b: seq<T>, start: nat, x: nat, cost: nat)
    requires ReplacesAll(s, a, b, start, x) && x < |a| && x < |b| && Upto(s, a, b, x, x, cost)
    requires a[x] != b[x] ==> t == [Delete(a[x]), Insert(b[x])]
    ensures ReplacesAll(s + t, a, b, start, x + 1)
  {
    ReplacesLonger(s, t, a, b, start, x);
    if a[x] != b[x] {
      hide OldSide, NewSide, Cost, PairsEqual;
      assert (s + t)[..|s|] == s;
      assert ReplacesAt(s + t, a, b, x, |s|);
    }
    hide ReplacesAt;
  }

  lemma ReplacesNothing<T>(s: seq<Edit<T>>, a: seq<T>, b: seq<T>, start: nat)
    requires start <= |a| && start <= |b|
    ensures ReplacesAll(s, a, b, start, start)
  {
  }

  /** Push `len` line pairs of the two sides, kept where they agree and replaced where they do not. */
  method PushByPosition<T(==)>(s0: seq<Edit<T>>, a: seq<T>, b: seq<T>, start: nat, len: nat, ghost cost0: nat)
    returns (s: seq<Edit<T>>, ghost cost: nat)
    requires Upto(s0, a, b, start, start, cost0) && start + len <= |a| && start + len <= |b|
    ensures Upto(s, a, b, start + len, start + len, cost) && cost == cost0 + 2 * (len - AgreeingFrom(a, b, start, len))
    ensures KeptPairs(s) == KeptPairs(s0) + AgreeingPairs(a, b, start, len)
    ensures ReplacesAll(s, a, b, start, start + len)
  {
    hide *;
    s, cost := s0, cost0;
    ReplacesNothing(s0, a, b, start);
    NothingAgrees(a, b, start, KeptPairs(s0));
    for i := start to start + len
      invariant Upto(s, a, b, i, i, cost) && cost == cost0 + 2 * (i - start - AgreeingFrom(a, b, start, i - start))
      invariant KeptPairs(s) == KeptPairs(s0) + AgreeingPairs(a, b, start, i - start)
      invariant ReplacesAll(s, a, b, start, i)
    {
      AgreeingNext(a, b, start, i - start, KeptPairs(s0));
      if a[i] == b[i] {
        UptoPush(s, a, b, i, i, cost, Equal(a[i], b[i]));
        ReplacesNext(s, [Equal(a[i], b[i])], a, b, start, i, cost);
        s := s + [Equal(a[i], b[i])];
      } else {
        UptoPush(s, a, b, i, i, cost, Delete(a[i]));
        ReplacesNext(s, [Delete(a[i]), Insert(b[i])], a, b, start, i, cost);
        assert s + [Delete(a[i])] + [Insert(b[i])] == s + [Delete(a[i]), Insert(b[i])];
        s := s + [Delete(a[i])];
        UptoPush(s, a, b, i + 1, i, cost + 1, Insert(b[i]));
        s := s + [Insert(b[i])];
        cost := cost + 2;
      }
    }
  }

  /** What the positional fallback keeps: the shared ends, and between them the lines that agree at
      the same distance from the prefix; the others are replaced in place. */
  ghost predicate KeepsPositions<T>(a: seq<T>, b: seq<T>, edits: seq<Edit<T>>, p: nat, s: nat)
    requires p + s <= |a| && p + s <= |b|
  {
    var paired := if |a| < |b| then |a| - p - s else |b| - p - s;
    && Cost(edits) == |a| + |b| - 2 * (p + s + AgreeingFrom(a, b, p, paired))
    && KeptPairs(edits) == EndPairs(|a|, |b|, p, s) + AgreeingPairs(a, b, p, paired)
    && ReplacesAll(edits, a, b, p, p + paired)
  }

  lemma PositionsKept<T>(a: seq<T>, b: seq<T>, edits: seq<Edit<T>>, p: nat, s: nat, paired: nat)
    requires p + s <= |a| && p + s <= |b| && paired == if |a| < |b| then |a| - p - s else |b| - p - s
    requires Cost(edits) == |a| + |b| - 2 * (p + s + AgreeingFrom(a, b, p, paired))
    requires KeptPairs(edits) == {} + Diagonal(0, 0, p) + AgreeingPairs(a, b, p, paired) + Diagonal(|a| - s, |b| - s, s)
    requires ReplacesAll(edits, a, b, p, p + paired)
    ensures KeepsPositions(a, b, edits, p, s)
  {
  }

  lemma ThreeMore<T>(s: seq<T>, x: seq<T>, y: seq<T>, z: seq<T>)
    ensures s + (x + y + z) == s + x + y + z
  {
  }

  /** Like `MyersFallbackEdits`, but interior lines that agree at the same position are kept. */
  method PositionalFallbackEdits<T(==)>(a: seq<T>, b: seq<T>) returns (edits: seq<Edit<T>>)
    ensures ValidScript(edits, a, b)
    ensures exists p: nat, s: nat :: Shared(a, b, p, s) && KeepsPositions(a, b, edits, p, s)
  {
    hide *;
    var prefix, suffix := TrimEnds(a, b);
    var oldMidEnd, newMidEnd := |a| - suffix, |b| - suffix;
    var oldMidLen, newMidLen := oldMidEnd - prefix, newMidEnd - prefix;
    var paired := if oldMidLen < newMidLen then oldMidLen else newMidLen;
    UptoStart(a, b);
    edits := [];
    edits := PushEquals(edits, a, b, 0, 0, prefix, 0);
    ghost var cost: nat;
    edits, cost := PushByPosition(edits, a, b, prefix, paired, 0);
    ghost var replaced := edits;
    edits := PushDeletes(edits, a, b, prefix + paired, prefix + paired, oldMidEnd, cost);
    cost := cost + (oldMidEnd - prefix - paired);
    edits := PushInserts(edits, a, b, oldMidEnd, prefix + paired, newMidEnd, cost);
    cost := cost + (newMidEnd - prefix - paired);
    edits := PushEquals(edits, a, b, oldMidEnd, newMidEnd, suffix, cost);
    UptoEnd(edits, a, b, cost);
    ReplacesLonger(replaced, DeletedLines(a, prefix + paired, oldMidEnd) + InsertedLines(b, prefix + paired, newMidEnd)
                             + KeptLines(a, b, oldMidEnd, newMidEnd, suffix), a, b, prefix, prefix + paired);
    ThreeMore(replaced, DeletedLines(a, prefix + paired, oldMidEnd), InsertedLines(b, prefix + paired, newMidEnd),
              KeptLines(a, b, oldMidEnd, newMidEnd, suffix));
    PositionsKept(a, b, edits, prefix, suffix, paired);
  }
}
