/** Patience anchors: lines that occur exactly once on both sides, thinned to a longest increasing
    subsequence of their positions. */
module PatienceAnchors {
  import opened Sorting
  import opened IncreasingSubsequence

  /** How often `line` occurs among lines `start` to `end`. */
  ghost function Occurs<T>(lines: seq<T>, start: nat, end: nat, line: T): nat
    requires end <= |lines|
    decreases end
  {
    if end <= start then 0 else Occurs(lines, start, end - 1, line) + if lines[end - 1] == line then 1 else 0
  }

  lemma {:induction false} OccursAt<T>(lines: seq<T>, start: nat, end: nat, line: T, i: nat)
    requires start <= i < end <= |lines| && lines[i] == line
    ensures Occurs(lines, start, end, line) >= 1
    ensures forall j :: start <= j < end && j != i && lines[j] == line ==> Occurs(lines, start, end, line) >= 2
    decreases end
  {
    if i < end - 1 {
      OccursAt(lines, start, end - 1, line, i);
    } else {
      forall j | start <= j < end && j != i && lines[j] == line
        ensures Occurs(lines, start, end, line) >= 2
      {
        OccursAt(lines, start, end - 1, line, j);
      }
    }
  }

  // ----- the occurrence tables -----

  /** Count and a position for every line of the range, and for no other line. */
  ghost predicate InfoOk<T>(lines: seq<T>, start: nat, end: nat, info: map<T, (nat, nat)>) {
    && end <= |lines|
    && (forall l :: l in info ==>
          && info[l].0 == Occurs(lines, start, end, l)
          && start <= info[l].1 < end && lines[info[l].1] == l)
    && (forall i :: start <= i < end ==> lines[i] in info)
  }

  method LineInfo<T(==)>(lines: seq<T>, start: nat, end: nat) returns (info: map<T, (nat, nat)>)
    requires start <= end <= |lines|
    ensures InfoOk(lines, start, end, info)
  {
    info := map[];
    for i := start to end
      invariant InfoOk(lines, start, i, info)
    {
      var line := lines[i];
      NotYetSeen(lines, start, i, info);
      var entry := if line in info then info[line] else (0, i);
      info := info[line := (entry.0 + 1, i)];
    }
  }

  lemma NotYetSeen<T>(lines: seq<T>, start: nat, end: nat, info: map<T, (nat, nat)>)
    requires InfoOk(lines, start, end, info) && start <= end < |lines|
    ensures lines[end] !in info ==> Occurs(lines, start, end, lines[end]) == 0
  {
    if lines[end] !in info {
      NoOccurrence(lines, start, end, lines[end]);
    }
  }

  lemma {:induction false} NoOccurrence<T>(lines: seq<T>, start: nat, end: nat, line: T)
    requires end <= |lines| && forall i :: start <= i < end ==> lines[i] != line
    ensures Occurs(lines, start, end, line) == 0
    decreases end
  {
    if start < end {
      NoOccurrence(lines, start, end - 1, line);
    }
  }

  // ----- the pairs of unique lines -----

  /** The two ranges under comparison. */
  datatype Ranges<T> = Ranges(a: seq<T>, aStart: nat, aEnd: nat, b: seq<T>, bStart: nat, bEnd: nat)
  {
    ghost predicate Valid() {
      aStart <= aEnd <= |a| && bStart <= bEnd <= |b|
    }
  }

  /** A line that occurs once in each range, at these two positions. */
  ghost predicate UniquePair<T>(r: Ranges<T>, p: Pair)
    requires r.Valid()
  {
    && r.aStart <= p.0 < r.aEnd && r.bStart <= p.1 < r.bEnd
    && r.a[p.0] == r.b[p.1]
    && Occurs(r.a, r.aStart, r.aEnd, r.a[p.0]) == 1
    && Occurs(r.b, r.bStart, r.bEnd, r.b[p.1]) == 1
  }

  lemma PairDetermined<T>(r: Ranges<T>, p: Pair, q: Pair)
    requires r.Valid() && UniquePair(r, p) && UniquePair(r, q)
    requires p.0 == q.0 || p.1 == q.1 || r.a[p.0] == r.a[q.0]
    ensures p == q
  {
    if p.0 != q.0 {
      OccursAt(r.a, r.aStart, r.aEnd, r.a[p.0], p.0);
    }
    if p.1 != q.1 {
      OccursAt(r.b, r.bStart, r.bEnd, r.b[p.1], p.1);
    }
  }

  /** All unique pairs, each once, ordered by old position. */
  ghost predicate AllPairs<T>(r: Ranges<T>, pairs: seq<Pair>)
    requires r.Valid()
  {
    && (forall k :: 0 <= k < |pairs| ==> UniquePair(r, pairs[k]))
    && (forall p: Pair :: UniquePair(r, p) ==> p in pairs)
    && (forall k, l :: 0 <= k < l < |pairs| ==> pairs[k].0 < pairs[l].0)
  }

  /** The list is the same whatever order the pairs were found in. */
  lemma {:induction false} AllPairsUnique<T>(r: Ranges<T>, xs: seq<Pair>, ys: seq<Pair>)
    requires r.Valid() && AllPairs(r, xs) && AllPairs(r, ys)
    ensures xs == ys
  {
    forall p: Pair
      ensures p in xs <==> p in ys
    {
    }
    SameOrderedElements(xs, ys);
  }

  lemma FirstIn(xs: seq<Pair>)
    requires xs != []
    ensures xs[0] in xs
  {
  }

  lemma {:induction false} SameOrderedElements(xs: seq<Pair>, ys: seq<Pair>)
    requires forall k, l :: 0 <= k < l < |xs| ==> xs[k].0 < xs[l].0
    requires forall k, l :: 0 <= k < l < |ys| ==> ys[k].0 < ys[l].0
    requires forall p: Pair :: p in xs <==> p in ys
    ensures xs == ys
    decreases |xs|
  {
    if xs == [] {
      if ys != [] {
        FirstIn(ys);
      }
    } else {
      assert xs[0] in ys;
      assert ys[0] in xs;
      assert xs[0] == ys[0];
      forall p: Pair
        ensures p in xs[1..] <==> p in ys[1..]
      {
        assert p in xs <==> p == xs[0] || p in xs[1..];
        assert p in ys <==> p == ys[0] || p in ys[1..];
      }
      SameOrderedElements(xs[1..], ys[1..]);
      assert xs == [xs[0]] + xs[1..] && ys == [ys[0]] + ys[1..];
    }
  }

  // ----- finding them -----

  /** Pairs found so far: exactly those whose line was looked up. */
  ghost predicate Found<T>(r: Ranges<T>, pairs: seq<Pair>, done: set<T>)
    requires r.Valid()
  {
    && (forall k :: 0 <= k < |pairs| ==> UniquePair(r, pairs[k]) && r.a[pairs[k].0] in done)
    && (forall p: Pair :: UniquePair(r, p) && r.a[p.0] in done ==> p in pairs)
    && (forall k, l :: 0 <= k < l < |pairs| ==> pairs[k].0 != pairs[l].0)
  }

  /** Walk the old table in whatever order the map yields its keys. */
  method CollectPairs<T(==)>(r: Ranges<T>, oldInfo: map<T, (nat, nat)>, newInfo: map<T, (nat, nat)>)
    returns (pairs: seq<Pair>)
    requires r.Valid() && InfoOk(r.a, r.aStart, r.aEnd, oldInfo) && InfoOk(r.b, r.bStart, r.bEnd, newInfo)
    ensures Found(r, pairs, oldInfo.Keys)
  {
    hide *;
    pairs := [];
    var todo, done: set<T> := oldInfo.Keys, {};
    FoundStart(r);
    while todo != {}
      invariant done !! todo && done + todo == oldInfo.Keys
      invariant Found(r, pairs, done)
      decreases |todo|
    {
      var line :| line in todo;
      var (oldCount, oldIdx) := oldInfo[line];
      if oldCount == 1 && line in newInfo && newInfo[line].0 == 1 {
        LookedUp(r, oldInfo, newInfo, line);
        FoundPair(r, pairs, done, (oldIdx, newInfo[line].1), line);
        pairs := pairs + [(oldIdx, newInfo[line].1)];
      } else {
        FoundNothing(r, pairs, done, line, oldInfo, newInfo);
      }
      todo, done := todo - {line}, done + {line};
    }
    assert done == oldInfo.Keys;
  }

  lemma FoundStart<T>(r: Ranges<T>)
    requires r.Valid()
    ensures Found(r, [], {})
  {
  }

  /** A unique pair whose old line is `line`. */
  ghost predicate PairFor<T>(r: Ranges<T>, p: Pair, line: T)
    requires r.Valid()
  {
    UniquePair(r, p) && r.a[p.0] == line
  }

  lemma LookedUp<T>(r: Ranges<T>, oldInfo: map<T, (nat, nat)>, newInfo: map<T, (nat, nat)>, line: T)
    requires r.Valid() && InfoOk(r.a, r.aStart, r.aEnd, oldInfo) && InfoOk(r.b, r.bStart, r.bEnd, newInfo)
    requires line in oldInfo && line in newInfo && oldInfo[line].0 == 1 && newInfo[line].0 == 1
    ensures PairFor(r, (oldInfo[line].1, newInfo[line].1), line)
  {
    hide Occurs;
  }

  lemma FoundPair<T>(r: Ranges<T>, pairs: seq<Pair>, done: set<T>, p: Pair, line: T)
    requires r.Valid() && Found(r, pairs, done) && PairFor(r, p, line) && line !in done
    ensures Found(r, pairs + [p], done + {line})
  {
    var pairs', done' := pairs + [p], done + {line};
    forall q: Pair | UniquePair(r, q) && r.a[q.0] in done'
      ensures q in pairs'
    {
      if r.a[q.0] == r.a[p.0] {
        PairDetermined(r, p, q);
      }
      hide Occurs;
    }
    hide Occurs;
  }

  lemma FoundNothing<T>(r: Ranges<T>, pairs: seq<Pair>, done: set<T>, line: T,
                        oldInfo: map<T, (nat, nat)>, newInfo: map<T, (nat, nat)>)
    requires r.Valid() && InfoOk(r.a, r.aStart, r.aEnd, oldInfo) && InfoOk(r.b, r.bStart, r.bEnd, newInfo)
    requires Found(r, pairs, done) && line in oldInfo
    requires !(oldInfo[line].0 == 1 && line in newInfo && newInfo[line].0 == 1)
    ensures Found(r, pairs, done + {line})
  {
    hide Occurs;
    forall q: Pair | UniquePair(r, q) && r.a[q.0] in done + {line}
      ensures q in pairs
    {
      assert r.b[q.1] in newInfo;
    }
  }

  predicate ByOld(p: Pair, q: Pair) {
    p.0 <= q.0
  }

  lemma SortedPairs<T>(r: Ranges<T>, found: seq<Pair>, sorted: seq<Pair>, done: set<T>)
    requires r.Valid() && Found(r, found, done) && (forall i :: r.aStart <= i < r.aEnd ==> r.a[i] in done)
    requires multiset(sorted) == multiset(found) && Ordered(sorted, ByOld)
    ensures AllPairs(r, sorted)
  {
    hide Occurs;
    forall k | 0 <= k < |sorted|
      ensures sorted[k] in found
    {
      assert sorted[k] in multiset(sorted);
    }
    forall p: Pair | UniquePair(r, p)
      ensures p in sorted
    {
      assert p in multiset(found);
    }
    forall k, l | 0 <= k < l < |sorted|
      ensures sorted[k].0 < sorted[l].0
    {
      assert ByOld(sorted[k], sorted[l]);
      if sorted[k].0 == sorted[l].0 {
        PairDetermined(r, sorted[k], sorted[l]);
        PermutedNoRepeats(sorted, found);
      }
    }
  }

  /** The anchors of two ranges: a longest increasing subsequence of all unique pairs. */
  method FindPatienceAnchors<T(==)>(r: Ranges<T>) returns (anchors: seq<Pair>)
    requires r.Valid()
    ensures exists pairs :: AllPairs(r, pairs) && anchors == Lis(pairs)
  {
    var oldInfo := LineInfo(r.a, r.aStart, r.aEnd);
    var newInfo := LineInfo(r.b, r.bStart, r.bEnd);
    var found := CollectPairs(r, oldInfo, newInfo);
    var uniquePairs := Sort(found, ByOld);
    SortedPairs(r, found, uniquePairs, oldInfo.Keys);
    hide *;
    anchors := PatienceLis(uniquePairs);
  }

  /** Anchors are determined by the two ranges. */
  lemma AnchorsDetermined<T>(r: Ranges<T>, xs: seq<Pair>, ys: seq<Pair>)
    requires r.Valid()
    requires exists pairs :: AllPairs(r, pairs) && xs == Lis(pairs)
    requires exists pairs :: AllPairs(r, pairs) && ys == Lis(pairs)
    ensures xs == ys
  {
    hide *;
    var ps :| AllPairs(r, ps) && xs == Lis(ps);
    var qs :| AllPairs(r, qs) && ys == Lis(qs);
    AllPairsUnique(r, ps, qs);
  }

  /** In range, pairing equal lines, and strictly increasing on both sides. */
  ghost predicate Anchors<T>(r: Ranges<T>, anchors: seq<Pair>)
    requires r.Valid()
  {
    && (forall k :: 0 <= k < |anchors| ==>
          && r.aStart <= anchors[k].0 < r.aEnd && r.bStart <= anchors[k].1 < r.bEnd
          && r.a[anchors[k].0] == r.b[anchors[k].1])
    && (forall k, l :: 0 <= k < l < |anchors| ==> anchors[k].0 < anchors[l].0 && anchors[k].1 < anchors[l].1)
  }

  lemma LisAnchors<T>(r: Ranges<T>, pairs: seq<Pair>)
    requires r.Valid() && AllPairs(r, pairs)
    ensures Anchors(r, Lis(pairs))
  {
    hide Lis, Occurs;
    LisIsLongest(pairs);
    var at :| Increasing(pairs, at) && InRange(pairs, at) && Lis(pairs) == Select(pairs, at);
  }

  /** Two ranges that share a line unique to both have at least one anchor. */
  lemma SomeAnchor<T>(r: Ranges<T>, pairs: seq<Pair>, p: Pair)
    requires r.Valid() && AllPairs(r, pairs) && UniquePair(r, p)
    ensures Lis(pairs) != []
  {
    hide Lis, Occurs;
    LisIsLongest(pairs);
    var k :| 0 <= k < |pairs| && pairs[k] == p;
    assert Increasing(pairs, [k]);
  }
}
