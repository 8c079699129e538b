module Patience {
  // Patience diff: keep shared ends, split the rest at its anchors and recurse; fall back to the
  // shortest-script search, or to a positional script, where there is nothing to split at.

  import opened EditScripts
  import opened Boundaries
  import opened LinearFallback
  import opened IncreasingSubsequence
  import opened PatienceAnchors
  import opened Myers

  const MAX_DEPTH: nat := 32
  const POSITIONAL_THRESHOLD: nat := 2_048

  /** A script for old lines `i..i'` and new lines `j..j'`. */
  ghost predicate Region<T>(s: seq<Edit<T>>, a: seq<T>, b: seq<T>, i: nat, i': nat, j: nat, j': nat) {
    i <= i' <= |a| && j <= j' <= |b| && ValidScript(s, a[i..i'], b[j..j'])
  }

  lemma RegionStart<T>(a: seq<T>, b: seq<T>, i: nat, j: nat)
    requires i <= |a| && j <= |b|
    ensures Region([], a, b, i, i, j, j)
  {
  }

  lemma RegionConcat<T>(s: seq<Edit<T>>, t: seq<Edit<T>>, a: seq<T>, b: seq<T>, i: nat, i': nat, i'': nat, j: nat,
                        j': nat, j'': nat)
    requires Region(s, a, b, i, i', j, j') && Region(t, a, b, i', i'', j', j'')
    ensures Region(s + t, a, b, i, i'', j, j'')
  {
    hide ValidScript;
    ValidConcat(s, a[i..i'], b[j..j'], t, a[i'..i''], b[j'..j'']);
    assert a[i..i'] + a[i'..i''] == a[i..i''];
    assert b[j..j'] + b[j'..j''] == b[j..j''];
  }

  lemma OneEqual<T>(a: seq<T>, b: seq<T>, i: nat, j: nat)
    requires i < |a| && j < |b| && a[i] == b[j]
    ensures Region([Equal(a[i], b[j])], a, b, i, i + 1, j, j + 1)
  {
    OneStep(Equal(a[i], b[j]));
  }

  lemma OneDelete<T>(a: seq<T>, b: seq<T>, i: nat, j: nat)
    requires i < |a| && j <= |b|
    ensures Region([Delete(a[i])], a, b, i, i + 1, j, j)
  {
    OneStep(Delete(a[i]));
  }

  lemma OneInsert<T>(a: seq<T>, b: seq<T>, i: nat, j: nat)
    requires i <= |a| && j < |b|
    ensures Region([Insert(b[j])], a, b, i, i, j, j + 1)
  {
    OneStep(Insert(b[j]));
  }

  // ----- pairs a script keeps -----

  /** Reading from old line `i` and new line `j`, the script keeps the pair `p`. */
  ghost predicate KeepsPair<T>(s: seq<Edit<T>>, a: seq<T>, b: seq<T>, i: nat, j: nat, p: Pair) {
    p.0 < |a| && p.1 < |b| &&
    exists k: nat :: k < |s| && s[k] == Equal(a[p.0], b[p.1]) && Region(s[..k], a, b, i, p.0, j, p.1)
  }

  ghost predicate KeepsAt<T>(s: seq<Edit<T>>, a: seq<T>, b: seq<T>, i0: nat, j0: nat, i: nat, j: nat, x: nat) {
    KeepsPair(s, a, b, i0, j0, (i + x, j + x))
  }

  /** It keeps `len` consecutive pairs from old line `i` and new line `j` on. */
  ghost predicate KeepsRun<T>(s: seq<Edit<T>>, a: seq<T>, b: seq<T>, i0: nat, j0: nat, i: nat, j: nat, len: nat) {
    forall x: nat :: x < len ==> KeepsAt(s, a, b, i0, j0, i, j, x)
  }

  lemma KeepsLonger<T>(s: seq<Edit<T>>, t: seq<Edit<T>>, a: seq<T>, b: seq<T>, i: nat, j: nat, p: Pair)
    requires KeepsPair(s, a, b, i, j, p) && s <= t
    ensures KeepsPair(t, a, b, i, j, p)
  {
    hide Region;
    var k: nat :| k < |s| && s[k] == Equal(a[p.0], b[p.1]) && Region(s[..k], a, b, i, p.0, j, p.1);
    assert t[..k] == s[..k];
  }

  lemma KeepsAfter<T>(t: seq<Edit<T>>, s: seq<Edit<T>>, a: seq<T>, b: seq<T>, i0: nat, i: nat, j0: nat, j: nat, p: Pair)
    requires Region(t, a, b, i0, i, j0, j) && KeepsPair(s, a, b, i, j, p)
    ensures KeepsPair(t + s, a, b, i0, j0, p)
  {
    hide Region;
    var k: nat :| k < |s| && s[k] == Equal(a[p.0], b[p.1]) && Region(s[..k], a, b, i, p.0, j, p.1);
    RegionConcat(t, s[..k], a, b, i0, i, p.0, j0, j, p.1);
    assert (t + s)[..|t| + k] == t + s[..k];
  }

  lemma KeepsLast<T>(s: seq<Edit<T>>, a: seq<T>, b: seq<T>, i: nat, j: nat, p: Pair)
    requires Region(s, a, b, i, p.0, j, p.1) && p.0 < |a| && p.1 < |b|
    ensures KeepsPair(s + [Equal(a[p.0], b[p.1])], a, b, i, j, p)
  {
    hide Region;
    assert (s + [Equal(a[p.0], b[p.1])])[..|s|] == s;
  }

  // ----- pushing whole runs -----

  method ExtendEquals<T>(s0: seq<Edit<T>>, a: seq<T>, b: seq<T>, ghost i0: nat, i: nat, ghost j0: nat, j: nat, len: nat)
    returns (s: seq<Edit<T>>)
    requires Region(s0, a, b, i0, i, j0, j) && SameRun(a, b, i, j, len)
    ensures Region(s, a, b, i0, i + len, j0, j + len) && s0 <= s
    ensures KeepsRun(s, a, b, i0, j0, i, j, len)
    ensures s == s0 + KeptLines(a, b, i, j, len)
  {
    hide *;
    s := s0;
    NoRun(s, a, b, i0, j0, i, j);
    NoLines(s0, a, b, i, j);
    for x := 0 to len
      invariant Region(s, a, b, i0, i + x, j0, j + x) && s0 <= s
      invariant s == s0 + KeptLines(a, b, i, j, x)
      invariant KeepsRun(s, a, b, i0, j0, i, j, x)
    {
      SameRunAt(a, b, i, j, len, x);
      PushedEqual(s, a, b, i0, j0, i, j, x);
      KeptLinesNext(s0, a, b, i, j, x);
      s := s + [Equal(a[i + x], b[j + x])];
    }
  }

  lemma PushedEqual<T>(s: seq<Edit<T>>, a: seq<T>, b: seq<T>, i0: nat, j0: nat, i: nat, j: nat, x: nat)
    requires Region(s, a, b, i0, i + x, j0, j + x) && KeepsRun(s, a, b, i0, j0, i, j, x)
    requires i + x < |a| && j + x < |b| && a[i + x] == b[j + x]
    ensures var t := s + [Equal(a[i + x], b[j + x])];
            Region(t, a, b, i0, i + x + 1, j0, j + x + 1) && KeepsRun(t, a, b, i0, j0, i, j, x + 1)
  {
    hide *;
    OneEqual(a, b, i + x, j + x);
    KeepsLast(s, a, b, i0, j0, (i + x, j + x));
    RunNext(s, s + [Equal(a[i + x], b[j + x])], a, b, i0, j0, i, j, x);
    RegionConcat(s, [Equal(a[i + x], b[j + x])], a, b, i0, i + x, i + x + 1, j0, j + x, j + x + 1);
  }

  lemma RunLonger<T>(s: seq<Edit<T>>, t: seq<Edit<T>>, a: seq<T>, b: seq<T>, i0: nat, j0: nat, i: nat, j: nat, len: nat)
    requires s <= t && KeepsRun(s, a, b, i0, j0, i, j, len)
    ensures KeepsRun(t, a, b, i0, j0, i, j, len)
  {
    hide KeepsPair;
    forall x: nat | x < len
      ensures KeepsAt(t, a, b, i0, j0, i, j, x)
    {
      assert KeepsAt(s, a, b, i0, j0, i, j, x);
      KeepsLonger(s, t, a, b, i0, j0, (i + x, j + x));
    }
  }

  lemma RunNext<T>(s: seq<Edit<T>>, t: seq<Edit<T>>, a: seq<T>, b: seq<T>, i0: nat, j0: nat, i: nat, j: nat, len: nat)
    requires s <= t && KeepsRun(s, a, b, i0, j0, i, j, len) && KeepsPair(t, a, b, i0, j0, (i + len, j + len))
    ensures KeepsRun(t, a, b, i0, j0, i, j, len + 1)
  {
    hide KeepsPair;
    RunLonger(s, t, a, b, i0, j0, i, j, len);
    assert KeepsAt(t, a, b, i0, j0, i, j, len);
  }

  lemma NoRun<T>(s: seq<Edit<T>>, a: seq<T>, b: seq<T>, i0: nat, j0: nat, i: nat, j: nat)
    ensures KeepsRun(s, a, b, i0, j0, i, j, 0)
  {
  }

  lemma RegionInRange<T>(s: seq<Edit<T>>, a: seq<T>, b: seq<T>, i: nat, i': nat, j: nat, j': nat)
    requires Region(s, a, b, i, i', j, j')
    ensures i <= i' <= |a| && j <= j' <= |b|
  {
  }

  method ExtendDeletes<T>(s0: seq<Edit<T>>, a: seq<T>, b: seq<T>, ghost i0: nat, i: nat, i': nat, ghost j0: nat, j: nat)
    returns (s: seq<Edit<T>>)
    requires Region(s0, a, b, i0, i, j0, j) && i <= i' <= |a|
    ensures Region(s, a, b, i0, i', j0, j) && s0 <= s && s == s0 + DeletedLines(a, i, i')
  {
    hide *;
    s := s0;
    NoLines(s0, a, b, i, j);
    for x := i to i'
      invariant Region(s, a, b, i0, x, j0, j) && s0 <= s && s == s0 + DeletedLines(a, i, x)
    {
      RegionInRange(s, a, b, i0, x, j0, j);
      OneDelete(a, b, x, j);
      DeletedLinesNext(s0, a, i, x);
      RegionConcat(s, [Delete(a[x])], a, b, i0, x, x + 1, j0, j, j);
      s := s + [Delete(a[x])];
    }
  }

  method ExtendInserts<T>(s0: seq<Edit<T>>, a: seq<T>, b: seq<T>, ghost i0: nat, i: nat, ghost j0: nat, j: nat, j': nat)
    returns (s: seq<Edit<T>>)
    requires Region(s0, a, b, i0, i, j0, j) && j <= j' <= |b|
    ensures Region(s, a, b, i0, i, j0, j') && s0 <= s && s == s0 + InsertedLines(b, j, j')
  {
    hide *;
    s := s0;
    NoLines(s0, a, b, i, j);
    for x := j to j'
      invariant Region(s, a, b, i0, i, j0, x) && s0 <= s && s == s0 + InsertedLines(b, j, x)
    {
      RegionInRange(s, a, b, i0, i, j0, x);
      OneInsert(a, b, i, x);
      InsertedLinesNext(s0, b, j, x);
      RegionConcat(s, [Insert(b[x])], a, b, i0, i, i, j0, x, x + 1);
      s := s + [Insert(b[x])];
    }
  }

  // ----- the recursion -----

  predicate UsePositionalFallback(oldLen: nat, newLen: nat) {
    oldLen == newLen && oldLen + newLen >= POSITIONAL_THRESHOLD
  }

  /** A script for a region without anchors: by position for large ones of equal length, else searched. */
  ghost predicate AnchorlessScript<T(!new)>(s: seq<Edit<T>>, x: seq<T>, y: seq<T>) {
    if |x| == |y| && |x| + |y| >= 2_048 then
      exists p: nat, t: nat :: Shared(x, y, p, t) && KeepsPositions(x, y, s, p, t)
    else SearchedScript(s, x, y)
  }

  /** What the recursion gives for old lines `i..i'` and new lines `j..j'`: a searched script when it is
      too deep, and else the shared ends around a script for what is between them. */
  ghost predicate PatienceScript<T(!new)>(s: seq<Edit<T>>, a: seq<T>, b: seq<T>, i: nat, i': nat, j: nat, j': nat,
                                          depth: nat)
    decreases MAX_DEPTH - depth, 5
  {
    && i <= i' <= |a| && j <= j' <= |b|
    && if depth >= 32 then SearchedScript(s, a[i..i'], b[j..j'])
       else exists prefix: nat, suffix: nat, body :: EndsAround(s, a, b, i, i', j, j', depth, prefix, suffix, body)
  }

  ghost predicate EndsAround<T(!new)>(s: seq<Edit<T>>, a: seq<T>, b: seq<T>, i: nat, i': nat, j: nat, j': nat,
                                      depth: nat, prefix: nat, suffix: nat, body: seq<Edit<T>>)
    requires i <= i' <= |a| && j <= j' <= |b| && depth < MAX_DEPTH
    decreases MAX_DEPTH - depth, 4
  {
    && i + prefix + suffix <= i' && j + prefix + suffix <= j' && EndsOf(a, b, i, i', j, j', prefix, suffix)
    && s == KeptLines(a, b, i, j, prefix) + body + KeptLines(a, b, i' - suffix, j' - suffix, suffix)
    && BetweenEnds(body, a, b, i + prefix, i' - suffix, j + prefix, j' - suffix, depth)
  }

  /** Between the ends: nothing, lines of one side only, or a split at the anchors, if there are any. */
  ghost predicate BetweenEnds<T(!new)>(s: seq<Edit<T>>, a: seq<T>, b: seq<T>, p: nat, p': nat, q: nat, q': nat,
                                       depth: nat)
    requires p <= p' <= |a| && q <= q' <= |b| && depth < MAX_DEPTH
    decreases MAX_DEPTH - depth, 3
  {
    if p == p' then s == InsertedLines(b, q, q')
    else if q == q' then s == DeletedLines(a, p, p')
    else
      var r := Ranges(a, p, p', b, q, q');
      exists anchors :: AnchorsFound(r, anchors) && BetweenAnchors(s, r, anchors, depth)
  }

  ghost predicate BetweenAnchors<T(!new)>(s: seq<Edit<T>>, r: Ranges<T>, anchors: seq<Pair>, depth: nat)
    requires r.Valid() && depth < MAX_DEPTH
    decreases MAX_DEPTH - depth, 2
  {
    if anchors == [] then AnchorlessScript(s, r.a[r.aStart..r.aEnd], r.b[r.bStart..r.bEnd])
    else exists front, rest ::
        && s == front + rest && UpToAnchor(front, r, anchors, |anchors|, depth)
        && GapScript(rest, r.a, r.b, OldFrom(r, anchors, |anchors|), r.aEnd, NewFrom(r, anchors, |anchors|), r.bEnd,
                     depth)
  }

  /** Where the gap before anchor `k` begins. */
  ghost function OldFrom<T>(r: Ranges<T>, anchors: seq<Pair>, k: nat): nat {
    if 0 < k <= |anchors| then anchors[k - 1].0 + 1 else r.aStart
  }

  ghost function NewFrom<T>(r: Ranges<T>, anchors: seq<Pair>, k: nat): nat {
    if 0 < k <= |anchors| then anchors[k - 1].1 + 1 else r.bStart
  }

  /** The first `k` anchors as kept pairs, each after a script for the gap before it. */
  ghost predicate UpToAnchor<T(!new)>(s: seq<Edit<T>>, r: Ranges<T>, anchors: seq<Pair>, k: nat, depth: nat)
    requires depth < MAX_DEPTH
    decreases MAX_DEPTH - depth, 1, k, 0
  {
    if k == 0 then s == []
    else exists front, gap :: AfterGap(s, r, anchors, k, depth, front, gap)
  }

  ghost predicate AfterGap<T(!new)>(s: seq<Edit<T>>, r: Ranges<T>, anchors: seq<Pair>, k: nat, depth: nat,
                                    front: seq<Edit<T>>, gap: seq<Edit<T>>)
    requires 0 < k && depth < MAX_DEPTH
    decreases MAX_DEPTH - depth, 1, k - 1, 1
  {
    && k <= |anchors| && anchors[k - 1].0 < |r.a| && anchors[k - 1].1 < |r.b|
    && s == front + gap + [Equal(r.a[anchors[k - 1].0], r.b[anchors[k - 1].1])]
    && UpToAnchor(front, r, anchors, k - 1, depth)
    && GapScript(gap, r.a, r.b, OldFrom(r, anchors, k - 1), anchors[k - 1].0, NewFrom(r, anchors, k - 1),
                 anchors[k - 1].1,
                 depth)
  }

  /** A gap is what the recursion gives one level deeper, unless it is empty. */
  ghost predicate GapScript<T(!new)>(s: seq<Edit<T>>, a: seq<T>, b: seq<T>, i: nat, i': nat, j: nat, j': nat,
                                     depth: nat)
    requires depth < MAX_DEPTH
    decreases MAX_DEPTH - depth, 0
  {
    if i < i' || j < j' then PatienceScript(s, a, b, i, i', j, j', depth + 1) else s == []
  }

  /** Regions without anchors. */
  method AnchorlessEdits<T(==,!new)>(a: seq<T>, b: seq<T>, i: nat, i': nat, j: nat, j': nat) returns (s: seq<Edit<T>>)
    requires i <= i' <= |a| && j <= j' <= |b|
    ensures Region(s, a, b, i, i', j, j') && AnchorlessScript(s, a[i..i'], b[j..j'])
  {
    hide ValidScript, Minimal, SearchedScript, KeepsPositions, Shared, Cost;
    var oldInner, newInner := a[i..i'], b[j..j'];
    if UsePositionalFallback(|oldInner|, |newInner|) {
      s := PositionalFallbackEdits(oldInner, newInner);
    } else {
      s := MyersEdits(oldInner, newInner);
    }
  }

  /** The region's longest shared prefix and, beside it, suffix. */
  ghost predicate EndsOf<T>(a: seq<T>, b: seq<T>, i: nat, i': nat, j: nat, j': nat, prefix: nat, suffix: nat)
    requires i <= i' <= |a| && j <= j' <= |b|
  {
    IsCommonPrefix(a[i..i'], b[j..j'], prefix) && IsCommonSuffix(a[i..i'], b[j..j'], prefix, suffix)
  }

  /** The same, by absolute position. */
  method TrimRegion<T(==)>(a: seq<T>, b: seq<T>, i: nat, i': nat, j: nat, j': nat) returns (prefix: nat, suffix: nat)
    requires i <= i' <= |a| && j <= j' <= |b|
    ensures EndsOf(a, b, i, i', j, j', prefix, suffix)
    ensures i + prefix + suffix <= i' && j + prefix + suffix <= j'
    ensures SameRun(a, b, i, j, prefix) && SameRun(a, b, i' - suffix, j' - suffix, suffix)
  {
    var x, y := a[i..i'], b[j..j'];
    prefix, suffix := TrimEnds(x, y);
    assert a[i..i + prefix] == x[0..prefix] && b[j..j + prefix] == y[0..prefix];
    assert a[i' - suffix..i'] == x[|x| - suffix..|x|] && b[j' - suffix..j'] == y[|y| - suffix..|y|];
  }

  /** Every anchor of the ranges is kept. */
  ghost predicate KeepsAnchors<T>(s: seq<Edit<T>>, a: seq<T>, b: seq<T>, i: nat, j: nat, r: Ranges<T>) {
    r.Valid() && forall pairs, k :: AllPairs(r, pairs) && 0 <= k < |Lis(pairs)| ==>
      KeepsPair(s, a, b, i, j, Lis(pairs)[k])
  }

  /** The lines of the shared prefix and suffix are kept, and so are the anchors between them. */
  ghost predicate KeepsEnds<T>(s: seq<Edit<T>>, a: seq<T>, b: seq<T>, i: nat, i': nat, j: nat, j': nat, prefix: nat,
                               suffix: nat)
    requires i + prefix + suffix <= i' <= |a| && j + prefix + suffix <= j' <= |b|
  {
    && KeepsRun(s, a, b, i, j, i, j, prefix)
    && KeepsRun(s, a, b, i, j, i' - suffix, j' - suffix, suffix)
    && (i + prefix + suffix < i' && j + prefix + suffix < j' ==>
          KeepsAnchors(s, a, b, i, j, Ranges(a, i + prefix, i' - suffix, b, j + prefix, j' - suffix)))
  }

  ghost predicate PatienceOk<T>(s: seq<Edit<T>>, a: seq<T>, b: seq<T>, i: nat, i': nat, j: nat, j': nat)
    requires i <= i' <= |a| && j <= j' <= |b|
  {
    exists prefix: nat, suffix: nat ::
      && i + prefix + suffix <= i' && j + prefix + suffix <= j'
      && EndsOf(a, b, i, i', j, j', prefix, suffix) && KeepsEnds(s, a, b, i, i', j, j', prefix, suffix)
  }

  /** Regions nested too deeply. */
  method DeepEdits<T(==,!new)>(a: seq<T>, b: seq<T>, i: nat, i': nat, j: nat, j': nat) returns (s: seq<Edit<T>>)
    requires i <= i' <= |a| && j <= j' <= |b|
    ensures Region(s, a, b, i, i', j, j') && SearchedScript(s, a[i..i'], b[j..j'])
  {
    hide ValidScript, Minimal, SearchedScript, Cost;
    s := MyersEdits(a[i..i'], b[j..j']);
  }

  lemma TooDeep<T(!new)>(s: seq<Edit<T>>, a: seq<T>, b: seq<T>, i: nat, i': nat, j: nat, j': nat, depth: nat)
    requires i <= i' <= |a| && j <= j' <= |b| && depth >= MAX_DEPTH && SearchedScript(s, a[i..i'], b[j..j'])
    ensures PatienceScript(s, a, b, i, i', j, j', depth)
  {
  }

  lemma AroundBody<T(!new)>(s: seq<Edit<T>>, a: seq<T>, b: seq<T>, i: nat, i': nat, j: nat, j': nat, depth: nat,
                            prefix: nat, suffix: nat, body: seq<Edit<T>>)
    requires i + prefix + suffix <= i' <= |a| && j + prefix + suffix <= j' <= |b| && depth < MAX_DEPTH
    requires EndsOf(a, b, i, i', j, j', prefix, suffix)
    requires s == [] + KeptLines(a, b, i, j, prefix) + body + KeptLines(a, b, i' - suffix, j' - suffix, suffix)
    requires BetweenEnds(body, a, b, i + prefix, i' - suffix, j + prefix, j' - suffix, depth)
    ensures PatienceScript(s, a, b, i, i', j, j', depth)
  {
    hide EndsOf, KeptLines, BetweenEnds;
    assert [] + KeptLines(a, b, i, j, prefix) == KeptLines(a, b, i, j, prefix);
    assert EndsAround(s, a, b, i, i', j, j', depth, prefix, suffix, body);
  }

  /** The recursion: keep the shared ends, and split what is between them at its anchors. */
  method PatienceRecurse<T(==,!new)>(a: seq<T>, b: seq<T>, i: nat, i': nat, j: nat, j': nat, depth: nat)
    returns (s: seq<Edit<T>>)
    requires i <= i' <= |a| && j <= j' <= |b| && depth <= MAX_DEPTH
    ensures Region(s, a, b, i, i', j, j')
    ensures depth < MAX_DEPTH ==> PatienceOk(s, a, b, i, i', j, j')
    ensures PatienceScript(s, a, b, i, i', j, j', depth)
    decreases MAX_DEPTH - depth, 3
  {
    hide *;
    if depth >= MAX_DEPTH {
      s := DeepEdits(a, b, i, i', j, j');
      TooDeep(s, a, b, i, i', j, j', depth);
      return;
    }
    var prefix, suffix := TrimRegion(a, b, i, i', j, j');
    RegionStart(a, b, i, j);
    var p, p', q, q' := i + prefix, i' - suffix, j + prefix, j' - suffix;
    var head := ExtendEquals([], a, b, i, i, j, j, prefix);
    var body;
    ghost var inner;
    body, inner := ExtendInner(head, a, b, i, p, p', j, q, q', depth);
    s := ExtendEquals(body, a, b, i, p', j, q', suffix);
    RunLonger(head, s, a, b, i, j, i, j, prefix);
    if p < p' && q < q' {
      AnchorsLonger(body, s, a, b, i, j, Ranges(a, p, p', b, q, q'));
    }
    PatienceWitness(s, a, b, i, i', j, j', prefix, suffix);
    AroundBody(s, a, b, i, i', j, j', depth, prefix, suffix, inner);
  }

  lemma PatienceWitness<T>(s: seq<Edit<T>>, a: seq<T>, b: seq<T>, i: nat, i': nat, j: nat, j': nat, prefix: nat,
                           suffix: nat)
    requires i + prefix + suffix <= i' <= |a| && j + prefix + suffix <= j' <= |b|
    requires EndsOf(a, b, i, i', j, j', prefix, suffix)
    requires KeepsRun(s, a, b, i, j, i, j, prefix) && KeepsRun(s, a, b, i, j, i' - suffix, j' - suffix, suffix)
    requires i + prefix < i' - suffix && j + prefix < j' - suffix ==>
               KeepsAnchors(s, a, b, i, j, Ranges(a, i + prefix, i' - suffix, b, j + prefix, j' - suffix))
    ensures PatienceOk(s, a, b, i, i', j, j')
  {
    hide EndsOf, KeepsRun, KeepsAnchors;
    assert KeepsEnds(s, a, b, i, i', j, j', prefix, suffix);
  }

  /** What lies between the shared ends: nothing, one side only, or both. */
  method ExtendInner<T(==,!new)>(s0: seq<Edit<T>>, a: seq<T>, b: seq<T>, ghost i: nat, p: nat, p': nat, ghost j: nat,
                                 q: nat, q': nat, depth: nat) returns (s: seq<Edit<T>>, ghost inner: seq<Edit<T>>)
    requires Region(s0, a, b, i, p, j, q) && p <= p' <= |a| && q <= q' <= |b| && depth < MAX_DEPTH
    ensures Region(s, a, b, i, p', j, q') && s0 <= s
    ensures s == s0 + inner && BetweenEnds(inner, a, b, p, p', q, q', depth)
    ensures p < p' && q < q' ==> KeepsAnchors(s, a, b, i, j, Ranges(a, p, p', b, q, q'))
    decreases MAX_DEPTH - depth, 2, 1
  {
    hide *;
    OneSided(a, b, p, p', q, q', depth);
    if p == p' && q == q' {
      NoLines(s0, a, b, p, q);
      s, inner := s0, InsertedLines(b, q, q');
    } else if p == p' {
      s := ExtendInserts(s0, a, b, i, p, j, q, q');
      inner := InsertedLines(b, q, q');
    } else if q == q' {
      s := ExtendDeletes(s0, a, b, i, p, p', j, q);
      inner := DeletedLines(a, p, p');
    } else {
      var between := InnerEdits(a, b, p, p', q, q', depth);
      inner := between;
      RegionConcat(s0, between, a, b, i, p, p', j, q, q');
      AnchorsAfter(s0, between, a, b, i, p, j, q, Ranges(a, p, p', b, q, q'));
      s := s0 + between;
    }
  }

  lemma OneSided<T(!new)>(a: seq<T>, b: seq<T>, p: nat, p': nat, q: nat, q': nat, depth: nat)
    requires p <= p' <= |a| && q <= q' <= |b| && depth < MAX_DEPTH
    ensures p == p' ==> BetweenEnds(InsertedLines(b, q, q'), a, b, p, p', q, q', depth)
    ensures p < p' && q == q' ==> BetweenEnds(DeletedLines(a, p, p'), a, b, p, p', q, q', depth)
  {
  }

  lemma AnchorsAfter<T>(t: seq<Edit<T>>, s: seq<Edit<T>>, a: seq<T>, b: seq<T>, i0: nat, i: nat, j0: nat, j: nat,
                        r: Ranges<T>)
    requires Region(t, a, b, i0, i, j0, j) && KeepsAnchors(s, a, b, i, j, r)
    ensures KeepsAnchors(t + s, a, b, i0, j0, r)
  {
    hide Region, KeepsPair, AllPairs, Lis;
    forall pairs, k | AllPairs(r, pairs) && 0 <= k < |Lis(pairs)|
      ensures KeepsPair(t + s, a, b, i0, j0, Lis(pairs)[k])
    {
      KeepsAfter(t, s, a, b, i0, i, j0, j, Lis(pairs)[k]);
    }
  }

  lemma AnchorsLonger<T>(s: seq<Edit<T>>, t: seq<Edit<T>>, a: seq<T>, b: seq<T>, i: nat, j: nat, r: Ranges<T>)
    requires KeepsAnchors(s, a, b, i, j, r) && s <= t
    ensures KeepsAnchors(t, a, b, i, j, r)
  {
    hide KeepsPair, AllPairs, Lis;
    forall pairs, k | AllPairs(r, pairs) && 0 <= k < |Lis(pairs)|
      ensures KeepsPair(t, a, b, i, j, Lis(pairs)[k])
    {
      KeepsLonger(s, t, a, b, i, j, Lis(pairs)[k]);
    }
  }

  /** The part between the shared ends. */
  method InnerEdits<T(==,!new)>(a: seq<T>, b: seq<T>, p: nat, p': nat, q: nat, q': nat, depth: nat)
    returns (s: seq<Edit<T>>)
    requires p < p' <= |a| && q < q' <= |b| && depth < MAX_DEPTH
    ensures Region(s, a, b, p, p', q, q') && BetweenEnds(s, a, b, p, p', q, q', depth)
    ensures KeepsAnchors(s, a, b, p, q, Ranges(a, p, p', b, q, q'))
    decreases MAX_DEPTH - depth, 2, 0
  {
    var r := Ranges(a, p, p', b, q, q');
    assert r.Valid();
    hide *;
    var anchors := AnchorsOf(r);
    if anchors == [] {
      s := AnchorlessEdits(a, b, p, p', q, q');
      WithoutAnchors(s, r, depth);
    } else {
      s := SplitAtAnchors(r, anchors, depth);
    }
    AllKept(s, r, anchors);
    WithAnchors(s, r, anchors, depth);
  }

  lemma WithoutAnchors<T(!new)>(s: seq<Edit<T>>, r: Ranges<T>, depth: nat)
    requires r.Valid() && depth < MAX_DEPTH && AnchorlessScript(s, r.a[r.aStart..r.aEnd], r.b[r.bStart..r.bEnd])
    ensures BetweenAnchors(s, r, [], depth)
  {
  }

  lemma WithAnchors<T(!new)>(s: seq<Edit<T>>, r: Ranges<T>, anchors: seq<Pair>, depth: nat)
    requires r.Valid() && r.aStart < r.aEnd && r.bStart < r.bEnd && depth < MAX_DEPTH
    requires AnchorsFound(r, anchors) && BetweenAnchors(s, r, anchors, depth)
    ensures BetweenEnds(s, r.a, r.b, r.aStart, r.aEnd, r.bStart, r.bEnd, depth)
  {
    hide AnchorsFound, BetweenAnchors;
    assert r == Ranges(r.a, r.aStart, r.aEnd, r.b, r.bStart, r.bEnd);
  }

  /** Keeping the anchors found is keeping all anchors there are. */
  lemma AllKept<T>(s: seq<Edit<T>>, r: Ranges<T>, anchors: seq<Pair>)
    requires r.Valid() && AnchorsFound(r, anchors)
    requires forall k :: 0 <= k < |anchors| ==> KeepsPair(s, r.a, r.b, r.aStart, r.bStart, anchors[k])
    ensures KeepsAnchors(s, r.a, r.b, r.aStart, r.bStart, r)
  {
    hide KeepsPair, AllPairs, Lis;
    var found :| AllPairs(r, found) && anchors == Lis(found);
    forall pairs | AllPairs(r, pairs)
      ensures Lis(pairs) == anchors
    {
      AllPairsUnique(r, pairs, found);
    }
  }

  ghost predicate AnchorsFound<T>(r: Ranges<T>, anchors: seq<Pair>)
    requires r.Valid()
  {
    exists pairs :: AllPairs(r, pairs) && anchors == Lis(pairs)
  }

  method AnchorsOf<T(==)>(r: Ranges<T>) returns (anchors: seq<Pair>)
    requires r.Valid()
    ensures Anchors(r, anchors) && AnchorsFound(r, anchors)
  {
    anchors := FindPatienceAnchors(r);
    ghost var pairs :| AllPairs(r, pairs) && anchors == Lis(pairs);
    hide AllPairs, Lis, Anchors;
    LisAnchors(r, pairs);
  }

  /** Recurse before, between and after the anchors. */
  method SplitAtAnchors<T(==,!new)>(r: Ranges<T>, anchors: seq<Pair>, depth: nat) returns (s: seq<Edit<T>>)
    requires r.Valid() && Anchors(r, anchors) && anchors != [] && depth < MAX_DEPTH
    ensures Region(s, r.a, r.b, r.aStart, r.aEnd, r.bStart, r.bEnd) && BetweenAnchors(s, r, anchors, depth)
    ensures forall k :: 0 <= k < |anchors| ==> KeepsPair(s, r.a, r.b, r.aStart, r.bStart, anchors[k])
    decreases MAX_DEPTH - depth, 1
  {
    hide *;
    var (oi, ni) := (r.aStart, r.bStart);
    NoAnchorYet(r, anchors, depth);
    RegionStart(r.a, r.b, oi, ni);
    s := [];
    for k := 0 to |anchors|
      invariant Reached(r, anchors, k, oi, ni) && oi == OldFrom(r, anchors, k) && ni == NewFrom(r, anchors, k)
      invariant Region(s, r.a, r.b, r.aStart, oi, r.bStart, ni)
      invariant KeptUpTo(s, r, anchors, k) && UpToAnchor(s, r, anchors, k, depth)
    {
      s, oi, ni := ToAnchor(s, r, anchors, k, oi, ni, depth);
    }
    ReachedRange(r, anchors, |anchors|, oi, ni);
    var rest := GapEdits(r.a, r.b, oi, r.aEnd, ni, r.bEnd, depth);
    RegionConcat(s, rest, r.a, r.b, r.aStart, oi, r.aEnd, r.bStart, ni, r.bEnd);
    KeptLonger(s, s + rest, r, anchors, |anchors|);
    KeptAll(s + rest, r, anchors);
    LastGap(s, rest, r, anchors, depth);
    s := s + rest;
  }

  lemma NoAnchorYet<T(!new)>(r: Ranges<T>, anchors: seq<Pair>, depth: nat)
    requires r.Valid() && Anchors(r, anchors) && depth < MAX_DEPTH
    ensures r.aStart <= r.aEnd <= |r.a| && r.bStart <= r.bEnd <= |r.b|
    ensures Reached(r, anchors, 0, r.aStart, r.bStart) && KeptUpTo([], r, anchors, 0)
            && UpToAnchor([], r, anchors, 0, depth)
    ensures OldFrom(r, anchors, 0) == r.aStart && NewFrom(r, anchors, 0) == r.bStart
  {
  }

  lemma ReachedRange<T>(r: Ranges<T>, anchors: seq<Pair>, k: nat, oi: nat, ni: nat)
    requires r.Valid() && Reached(r, anchors, k, oi, ni)
    ensures oi <= r.aEnd <= |r.a| && ni <= r.bEnd <= |r.b|
  {
  }

  lemma KeptAll<T>(s: seq<Edit<T>>, r: Ranges<T>, anchors: seq<Pair>)
    requires KeptUpTo(s, r, anchors, |anchors|)
    ensures forall k :: 0 <= k < |anchors| ==> KeepsPair(s, r.a, r.b, r.aStart, r.bStart, anchors[k])
  {
    hide KeepsPair;
  }

  lemma LastGap<T(!new)>(s: seq<Edit<T>>, rest: seq<Edit<T>>, r: Ranges<T>, anchors: seq<Pair>, depth: nat)
    requires r.Valid() && anchors != [] && depth < MAX_DEPTH && UpToAnchor(s, r, anchors, |anchors|, depth)
    requires GapScript(rest, r.a, r.b, OldFrom(r, anchors, |anchors|), r.aEnd, NewFrom(r, anchors, |anchors|), r.bEnd,
                       depth)
    ensures BetweenAnchors(s + rest, r, anchors, depth)
  {
    hide UpToAnchor, GapScript, OldFrom, NewFrom;
  }

  /** One more gap and the anchor after it. */
  lemma NextAnchor<T(!new)>(s: seq<Edit<T>>, gap: seq<Edit<T>>, r: Ranges<T>, anchors: seq<Pair>, k: nat, depth: nat)
    requires r.Valid() && k < |anchors| && anchors[k].0 < |r.a| && anchors[k].1 < |r.b| && depth < MAX_DEPTH
    requires UpToAnchor(s, r, anchors, k, depth)
    requires GapScript(gap, r.a, r.b, OldFrom(r, anchors, k), anchors[k].0, NewFrom(r, anchors, k), anchors[k].1, depth)
    ensures UpToAnchor(s + gap + [Equal(r.a[anchors[k].0], r.b[anchors[k].1])], r, anchors, k + 1, depth)
    ensures OldFrom(r, anchors, k + 1) == anchors[k].0 + 1 && NewFrom(r, anchors, k + 1) == anchors[k].1 + 1
  {
    hide GapScript;
    assert AfterGap(s + gap + [Equal(r.a[anchors[k].0], r.b[anchors[k].1])], r, anchors, k + 1, depth, s, gap);
  }

  ghost predicate KeptUpTo<T>(s: seq<Edit<T>>, r: Ranges<T>, anchors: seq<Pair>, n: nat) {
    n <= |anchors| && forall k :: 0 <= k < n ==> KeepsPair(s, r.a, r.b, r.aStart, r.bStart, anchors[k])
  }

  lemma KeptLonger<T>(s: seq<Edit<T>>, t: seq<Edit<T>>, r: Ranges<T>, anchors: seq<Pair>, n: nat)
    requires KeptUpTo(s, r, anchors, n) && s <= t
    ensures KeptUpTo(t, r, anchors, n)
  {
    hide KeepsPair;
    forall k | 0 <= k < n
      ensures KeepsPair(t, r.a, r.b, r.aStart, r.bStart, anchors[k])
    {
      KeepsLonger(s, t, r.a, r.b, r.aStart, r.bStart, anchors[k]);
    }
  }

  lemma KeptNext<T>(s: seq<Edit<T>>, r: Ranges<T>, anchors: seq<Pair>, n: nat)
    requires KeptUpTo(s, r, anchors, n) && n < |anchors|
    requires KeepsPair(s, r.a, r.b, r.aStart, r.bStart, anchors[n])
    ensures KeptUpTo(s, r, anchors, n + 1)
  {
    hide KeepsPair;
  }

  /** The gap before an anchor, and the anchor itself. */
  method ToAnchor<T(==,!new)>(s0: seq<Edit<T>>, r: Ranges<T>, anchors: seq<Pair>, k: nat, oi0: nat, ni0: nat,
                              depth: nat)
    returns (s: seq<Edit<T>>, oi: nat, ni: nat)
    requires r.Valid() && Anchors(r, anchors) && k < |anchors| && depth < MAX_DEPTH
    requires Reached(r, anchors, k, oi0, ni0) && KeptUpTo(s0, r, anchors, k)
    requires Region(s0, r.a, r.b, r.aStart, oi0, r.bStart, ni0)
    requires oi0 == OldFrom(r, anchors, k) && ni0 == NewFrom(r, anchors, k) && UpToAnchor(s0, r, anchors, k, depth)
    ensures oi == OldFrom(r, anchors, k + 1) && ni == NewFrom(r, anchors, k + 1)
            && UpToAnchor(s, r, anchors, k + 1, depth)
    ensures Reached(r, anchors, k + 1, oi, ni) && KeptUpTo(s, r, anchors, k + 1)
    ensures Region(s, r.a, r.b, r.aStart, oi, r.bStart, ni)
    decreases MAX_DEPTH - depth, 1, 0
  {
    hide *;
    var (oldIdx, newIdx) := anchors[k];
    AnchorAt(r, anchors, k, oi0, ni0);
    var gap := GapEdits(r.a, r.b, oi0, oldIdx, ni0, newIdx, depth);
    RegionConcat(s0, gap, r.a, r.b, r.aStart, oi0, oldIdx, r.bStart, ni0, newIdx);
    s := s0 + gap;
    OneEqual(r.a, r.b, oldIdx, newIdx);
    KeepsLast(s, r.a, r.b, r.aStart, r.bStart, anchors[k]);
    RegionConcat(s, [Equal(r.a[oldIdx], r.b[newIdx])], r.a, r.b, r.aStart, oldIdx, oldIdx + 1,
                 r.bStart, newIdx, newIdx + 1);
    s := s + [Equal(r.a[oldIdx], r.b[newIdx])];
    KeptLonger(s0, s, r, anchors, k);
    KeptNext(s, r, anchors, k);
    NextAnchor(s0, gap, r, anchors, k, depth);
    oi, ni := oldIdx + 1, newIdx + 1;
  }

  /** A gap between anchors is diffed one level deeper, unless it is empty. */
  method GapEdits<T(==,!new)>(a: seq<T>, b: seq<T>, i: nat, i': nat, j: nat, j': nat, depth: nat)
    returns (s: seq<Edit<T>>)
    requires i <= i' <= |a| && j <= j' <= |b| && depth < MAX_DEPTH
    ensures Region(s, a, b, i, i', j, j') && GapScript(s, a, b, i, i', j, j', depth)
    decreases MAX_DEPTH - depth, 0
  {
    hide Region, PatienceScript, PatienceOk;
    if i < i' || j < j' {
      s := PatienceRecurse(a, b, i, i', j, j', depth + 1);
    } else {
      RegionStart(a, b, i, j);
      s := [];
    }
  }

  /** Everything before anchor `k` is done, and it ends at (oi, ni). */
  ghost predicate Reached<T>(r: Ranges<T>, anchors: seq<Pair>, k: nat, oi: nat, ni: nat)
    requires r.Valid()
  {
    && r.aStart <= oi <= r.aEnd && r.bStart <= ni <= r.bEnd
    && forall l :: k <= l < |anchors| ==> oi <= anchors[l].0 && ni <= anchors[l].1
  }

  lemma AnchorAt<T>(r: Ranges<T>, anchors: seq<Pair>, k: nat, oi: nat, ni: nat)
    requires r.Valid() && Anchors(r, anchors) && k < |anchors| && Reached(r, anchors, k, oi, ni)
    ensures r.aStart <= oi <= anchors[k].0 < r.aEnd <= |r.a| && r.bStart <= ni <= anchors[k].1 < r.bEnd <= |r.b|
    ensures r.a[anchors[k].0] == r.b[anchors[k].1]
    ensures Reached(r, anchors, k + 1, anchors[k].0 + 1, anchors[k].1 + 1)
  {
  }

  /** A correct edit script that keeps the shared ends of two files and every anchor between them:
      the lines unique to both sides, thinned to a longest increasing run of them. */
  method HistogramEdits<T(==,!new)>(a: seq<T>, b: seq<T>) returns (s: seq<Edit<T>>)
    ensures ValidScript(s, a, b) && PatienceOk(s, a, b, 0, |a|, 0, |b|) && PatienceScript(s, a, b, 0, |a|, 0, |b|, 0)
  {
    s := PatienceRecurse(a, b, 0, |a|, 0, |b|, 0);
    hide PatienceOk, ValidScript, PatienceScript;
    assert a[0..|a|] == a && b[0..|b|] == b;
  }
}
