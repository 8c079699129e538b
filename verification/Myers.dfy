module Myers {
  // The O(ND) line diff: a greedy search over one frontier array that is updated in place, a
  // triangular trace of its per-depth snapshots, and backtracking through that trace.

  import opened Machine
  import opened Sequences
  import opened EditScripts
  import opened InsDelDistance
  import opened LinearFallback

  // ----- furthest-reaching points -----

  /** `x` is the furthest point on diagonal `k` that `d` insertions and deletions can reach. */
  ghost predicate Furthest<T>(a: seq<T>, b: seq<T>, d: int, k: int, x: int) {
    && 0 <= x && 0 <= x - k
    && Dist(a, b, x, x - k) <= d
    && Dist(a, b, x + 1, x + 1 - k) > d
  }

  lemma FurthestBounds<T>(a: seq<T>, b: seq<T>, d: int, k: int, x: int, x': nat)
    requires Furthest(a, b, d, k, x)
    requires 0 <= x' - k && Dist(a, b, x', x' - k) <= d
    ensures x' <= x
  {
    if x < x' {
      DiagonalMonotone(a, b, x + 1, x + 1 - k, x' - x - 1);
    }
  }

  /** Where depth `d` enters diagonal `k`, given the two neighbours at depth `d - 1`. */
  function EntryFromAbove(d: nat, k: int, below: int, above: int): bool {
    k == 0 - d || (k != d && below < above)
  }

  ghost predicate Neighbours<T>(a: seq<T>, b: seq<T>, d: nat, k: int, below: int, above: int) {
    && d > 0 && 0 - d <= k <= d
    && (k != 0 - d ==> Furthest(a, b, d - 1, k - 1, below))
    && (k != d ==> Furthest(a, b, d - 1, k + 1, above))
  }

  ghost function Entry(d: nat, k: int, below: int, above: int): int {
    if EntryFromAbove(d, k, below, above) then above else below + 1
  }

  /** The entry point is within depth `d`. */
  lemma EntryReachable<T>(a: seq<T>, b: seq<T>, d: nat, k: int, below: int, above: int)
    requires Neighbours(a, b, d, k, below, above)
    ensures var x := Entry(d, k, below, above); 0 <= x && 0 <= x - k && Dist(a, b, x, x - k) <= d
  {
    if EntryFromAbove(d, k, below, above) {
      Steps(a, b, above, above - k - 1);
    } else {
      Steps(a, b, below, below - k + 1);
    }
  }

  /** From the entry point on, depth `d` can leave a cell of the diagonal only along a match. */
  lemma NoShortcut<T>(a: seq<T>, b: seq<T>, d: nat, k: int, below: int, above: int, x: nat)
    requires Neighbours(a, b, d, k, below, above)
    requires Entry(d, k, below, above) <= x && 0 <= x - k
    requires !Match(a, b, x, x - k)
    ensures Dist(a, b, x + 1, x + 1 - k) > d
  {
    NoShortcutDown(a, b, d, k, below, above, x);
    NoShortcutRight(a, b, d, k, below, above, x);
    hide Furthest;
  }

  lemma NoShortcutDown<T>(a: seq<T>, b: seq<T>, d: nat, k: int, below: int, above: int, x: nat)
    requires Neighbours(a, b, d, k, below, above)
    requires Entry(d, k, below, above) <= x && 0 <= x - k
    ensures Dist(a, b, x, x - k + 1) >= d
  {
    if k == 0 - d {
      Parity(a, b, x, x - k + 1);
    } else {
      hide Dist;
      DiagonalMonotone(a, b, below + 1, below + 1 - (k - 1), x - below - 1);
    }
  }

  lemma NoShortcutRight<T>(a: seq<T>, b: seq<T>, d: nat, k: int, below: int, above: int, x: nat)
    requires Neighbours(a, b, d, k, below, above)
    requires Entry(d, k, below, above) <= x && 0 <= x - k
    ensures Dist(a, b, x + 1, x - k) >= d
  {
    if k == d {
      Parity(a, b, x + 1, x - k);
    } else {
      hide Dist;
      DiagonalMonotone(a, b, above + 1, above + 1 - (k + 1), x - above);
    }
  }

  // ----- greedy scripts -----

  /** Where `c` changes lead to (x, y), an insertion is due: a deletion from two diagonals below would
      not reach as far. */
  ghost predicate InsertDue<T>(a: seq<T>, b: seq<T>, c: int, x: nat, y: nat) {
    x - y == 0 - c || Dist(a, b, x, y + 2) > c
  }

  /** A deletion is due: an insertion from two diagonals above would not reach farther. */
  ghost predicate DeleteDue<T>(a: seq<T>, b: seq<T>, c: int, x: nat, y: nat) {
    x - y == c || (y > 0 && Dist(a, b, x + 1, y - 1) > c)
  }

  /** The edit made at (x, y) after `c` changes: if it is a change, it leaves from the furthest point
      of its diagonal, and it is the one that is due. */
  ghost predicate LeavesGreedily<T>(a: seq<T>, b: seq<T>, e: Edit<T>, x: nat, y: nat, c: int) {
    && (!e.Equal? ==> Furthest(a, b, c, x - y, x))
    && (e.Insert? ==> InsertDue(a, b, c, x, y))
    && (e.Delete? ==> DeleteDue(a, b, c, x, y))
  }

  /** Every edit of a script does, read from (x, y) on after `c` changes. */
  ghost predicate GreedyFrom<T>(a: seq<T>, b: seq<T>, s: seq<Edit<T>>, x: nat, y: nat, c: int)
    decreases |s|
  {
    s != [] ==>
      var e := s[0];
      && LeavesGreedily(a, b, e, x, y, c)
      && GreedyFrom(a, b, s[1..], if e.Insert? then x else x + 1, if e.Delete? then y else y + 1,
                    if e.Equal? then c else c + 1)
  }

  ghost predicate Greedy<T>(a: seq<T>, b: seq<T>, s: seq<Edit<T>>) {
    GreedyFrom(a, b, s, 0, 0, 0)
  }

  /** The better neighbour is the one from which the change is due. */
  lemma EntryDue<T>(a: seq<T>, b: seq<T>, d: nat, k: int, below: int, above: int)
    requires Neighbours(a, b, d, k, below, above)
    ensures EntryFromAbove(d, k, below, above) ==>
              0 <= above - k - 1 && 0 <= above && InsertDue(a, b, d - 1, above, above - k - 1)
    ensures !EntryFromAbove(d, k, below, above) ==>
              0 <= below - k + 1 && 0 <= below && DeleteDue(a, b, d - 1, below, below - k + 1)
  {
    hide Dist;
    if EntryFromAbove(d, k, below, above) {
      if k != 0 - d {
        DiagonalMonotone(a, b, below + 1, below + 1 - (k - 1), above - below - 1);
      }
    } else if k != d {
      DiagonalMonotone(a, b, above + 1, above + 1 - (k + 1), below - above);
    }
  }

  /** Greedy scripts delete first: after an insertion the point a deletion would lead to was already
      within reach before it. */
  lemma {:induction false} GreedyDeletesFirst<T>(a: seq<T>, b: seq<T>, s: seq<Edit<T>>, x: nat, y: nat, c: int)
    requires GreedyFrom(a, b, s, x, y, c)
    ensures DeletesFirst(s)
    decreases |s|
  {
    hide Dist;
    if |s| > 1 {
      var e := s[0];
      var x', y', c' := if e.Insert? then x else x + 1, if e.Delete? then y else y + 1, if e.Equal? then c else c + 1;
      GreedyDeletesFirst(a, b, s[1..], x', y', c');
      assert s[1] == s[1..][0];
      if e.Insert? {
        NoDeleteDue(a, b, x, y, c);
      }
      forall i | 0 <= i < |s| - 1
        ensures !(s[i].Insert? && s[i + 1].Delete?)
      {
        if i > 0 {
          assert s[i] == s[1..][i - 1] && s[i + 1] == s[1..][i];
        }
      }
    }
  }

  lemma NoDeleteDue<T>(a: seq<T>, b: seq<T>, x: nat, y: nat, c: int)
    requires Furthest(a, b, c, x - y, x)
    ensures !DeleteDue(a, b, c + 1, x, y + 1)
  {
    hide Dist;
    Steps(a, b, x, y);
    Parity(a, b, x, y);
  }

  // ----- the search -----

  /** Flat offset of depth `d` in the compact trace, which stores d + 1 diagonals per depth. */
  function Base(d: nat): nat {
    d * (d + 1) / 2
  }

  lemma BaseNext(d: nat)
    ensures Base(d + 1) == Base(d) + d + 1
  {
    assert (d + 1) * (d + 2) == d * (d + 1) + 2 * (d + 1);
  }

  lemma {:induction false} BaseMonotone(d: nat, e: nat)
    requires d <= e
    ensures Base(d) <= Base(e)
    decreases e
  {
    if d < e {
      BaseMonotone(d, e - 1);
      BaseNext(e - 1);
    }
  }

  /** Cell for the j-th diagonal of depth `d` in the frontier array. */
  ghost predicate FrontierAt<T>(a: seq<T>, b: seq<T>, v: seq<u32>, offset: int, d: int, j: int) {
    && 0 <= offset + 2 * j - d < |v|
    && Furthest(a, b, d, 2 * j - d, v[offset + 2 * j - d] as int)
  }

  /** The frontier holds every furthest point of depth `d`. */
  ghost predicate FrontierOk<T>(a: seq<T>, b: seq<T>, v: seq<u32>, offset: int, d: int) {
    forall j :: 0 <= j <= d ==> FrontierAt(a, b, v, offset, d, j)
  }

  /** Writing a diagonal of depth `d` leaves depth `d - 1` alone: they have opposite parity. */
  lemma FrontierKept<T>(a: seq<T>, b: seq<T>, v: seq<u32>, offset: int, d: int, e: int, j: int, x: u32)
    requires FrontierOk(a, b, v, offset, e) && e == d - 1
    requires 0 <= offset + 2 * j - d < |v|
    ensures FrontierOk(a, b, v[offset + 2 * j - d := x], offset, e)
  {
    var v' := v[offset + 2 * j - d := x];
    forall i | 0 <= i <= e
      ensures FrontierAt(a, b, v', offset, e, i)
    {
      assert FrontierAt(a, b, v, offset, e, i);
    }
  }

  ghost predicate TraceAt<T>(a: seq<T>, b: seq<T>, trace: seq<u32>, d: nat, j: int) {
    && 0 <= j <= d
    && Base(d) + j < |trace|
    && Furthest(a, b, d, 2 * j - d, trace[Base(d) + j] as int)
  }

  /** Depths below `depth` are stored completely. */
  ghost predicate TraceOk<T>(a: seq<T>, b: seq<T>, trace: seq<u32>, depth: nat) {
    forall d: nat, j :: d < depth && 0 <= j <= d ==> TraceAt(a, b, trace, d, j)
  }

  /** Follow matching lines down the diagonal. */
  method Snake<T(==)>(a: seq<T>, b: seq<T>, x0: nat, y0: nat) returns (x: nat, y: nat)
    ensures x0 <= x && x - y == x0 - y0 && x <= x0 + |a|
    ensures Dist(a, b, x, y) == Dist(a, b, x0, y0)
    ensures !Match(a, b, x, y)
  {
    x, y := x0, y0;
    while x < |a| && y < |b| && a[x] == b[y]
      invariant x0 <= x && x - y == x0 - y0 && (x0 <= |a| ==> x <= |a|) && (x0 > |a| ==> x == x0)
      invariant Dist(a, b, x, y) == Dist(a, b, x0, y0)
      decreases |a| - x
    {
      x, y := x + 1, y + 1;
    }
  }

  /** Append the diagonals of depth `d` to the trace. */
  method PushDepth(v: array<u32>, offset: nat, d: nat, trace0: seq<u32>) returns (trace: seq<u32>)
    requires d <= offset && v.Length == 2 * offset + 1
    ensures |trace| == |trace0| + d + 1 && trace0 <= trace
    ensures forall j :: 0 <= j <= d ==> trace[|trace0| + j] == v[offset + 2 * j - d]
  {
    trace := trace0;
    var k := 0 - d;
    ghost var j := 0;
    while k <= d
      invariant k == 2 * j - d && 0 <= j <= d + 1
      invariant |trace| == |trace0| + j && trace0 <= trace
      invariant forall i :: 0 <= i < j ==> trace[|trace0| + i] == v[offset + 2 * i - d]
    {
      trace := trace + [v[offset + k]];
      k, j := k + 2, j + 1;
    }
  }

  lemma TraceExtend<T>(a: seq<T>, b: seq<T>, trace: seq<u32>, trace': seq<u32>, v: seq<u32>, offset: nat, d: nat)
    requires TraceOk(a, b, trace, d) && |trace| == Base(d) && trace <= trace' && |trace'| == |trace| + d + 1
    requires FrontierOk(a, b, v, offset, d)
    requires forall j :: 0 <= j <= d ==> 0 <= offset + 2 * j - d < |v| && trace'[|trace| + j] == v[offset + 2 * j - d]
    ensures TraceOk(a, b, trace', d + 1) && |trace'| == Base(d + 1)
  {
    BaseNext(d);
    forall e: nat, j | e < d + 1 && 0 <= j <= e
      ensures TraceAt(a, b, trace', e, j)
    {
      if e == d {
        assert FrontierAt(a, b, v, offset, d, j);
      } else {
        assert TraceAt(a, b, trace, e, j);
      }
    }
  }

  /** The corner has not been found on any diagonal of depth `d` before the j-th. */
  ghost predicate CornerPassed<T>(a: seq<T>, b: seq<T>, d: nat, j: int) {
    (|a| - |b| + d) % 2 == 0 && 0 <= |a| - |b| + d < 2 * j ==> Dist(a, b, |a|, |b|) > d
  }

  /** One cell: a furthest-reaching point at or beyond the corner is the corner itself. */
  lemma CornerCheck<T>(a: seq<T>, b: seq<T>, d: nat, j: nat, x: nat)
    requires Furthest(a, b, d, 2 * j - d, x)
    requires Dist(a, b, |a|, |b|) >= d
    requires CornerPassed(a, b, d, j)
    ensures var y := x - (2 * j - d);
            if x >= |a| && y >= |b| then x == |a| && y == |b| && Dist(a, b, |a|, |b|) == d
            else CornerPassed(a, b, d, j + 1)
    ensures x <= |a| + |b|
  {
    hide Dist;
    var k := 2 * j - d;
    var y := x - k;
    FrontierBound(a, b, x, y);
    if x >= |a| && y >= |b| {
      CornerOvershoot(a, b, x, y);
    } else if |a| - |b| == k {
      DiagonalMonotone(a, b, x + 1, x + 1 - k, |a| - x - 1);
    }
  }

  lemma DepthDone<T>(a: seq<T>, b: seq<T>, d: nat)
    requires Dist(a, b, |a|, |b|) >= d
    requires CornerPassed(a, b, d, d + 1)
    ensures Dist(a, b, |a|, |b|) >= d + 1
  {
    hide Dist;
    Parity(a, b, |a|, |b|);
    if Dist(a, b, |a|, |b|) == d {
      SameParity(d, |a| - |b|);
    }
  }

  lemma SameParity(d: int, k: int)
    requires (d - k) % 2 == 0
    ensures (k + d) % 2 == 0
  {
    assert k + d == (d - k) + 2 * k;
  }

  lemma FrontierNeighbours<T>(a: seq<T>, b: seq<T>, v: seq<u32>, offset: nat, d: nat, e: nat, j: nat, below: int,
                              above: int)
    requires 1 <= d <= offset && |v| == 2 * offset + 1 && j <= d && e == d - 1
    requires FrontierOk(a, b, v, offset, e)
    requires j > 0 ==> below == v[offset + 2 * j - d - 1] as int
    requires j < d ==> above == v[offset + 2 * j - d + 1] as int
    ensures Neighbours(a, b, d, 2 * j - d, below, above)
  {
    if j > 0 {
      assert FrontierAt(a, b, v, offset, e, j - 1);
    }
    if j < d {
      assert FrontierAt(a, b, v, offset, e, j);
    }
  }

  /** One diagonal of depth `d`: enter it from the better neighbour and follow the matches. */
  method SearchDiagonal<T(==)>(a: seq<T>, b: seq<T>, v: array<u32>, offset: nat, d: nat, j: nat)
    returns (x: nat, y: nat)
    requires 1 <= d <= offset == |a| + |b| <= U32_MAX && v.Length == 2 * offset + 1 && j <= d
    requires Dist(a, b, |a|, |b|) >= d
    requires FrontierOk(a, b, v[..], offset, d - 1)
    ensures x - y == 2 * j - d && Furthest(a, b, d, 2 * j - d, x)
  {
    hide Dist;
    var k := 2 * j - d;
    ghost var below := if j > 0 then v[offset + k - 1] as int else 0;
    ghost var above := if j < d then v[offset + k + 1] as int else 0;
    FrontierNeighbours(a, b, v[..], offset, d, d - 1, j, below, above);
    EntryReachable(a, b, d, k, below, above);
    ghost var entry := Entry(d, k, below, above);
    FrontierBound(a, b, entry, entry - k);
    var x0: u32;
    if k == 0 - d || (k != d && v[offset + k - 1] < v[offset + k + 1]) {
      x0 := v[offset + k + 1];
    } else {
      x0 := v[offset + k - 1] + 1;
    }
    x, y := Snake(a, b, x0 as int, x0 as int - k);
    NoShortcut(a, b, d, k, below, above, x);
  }

  /** Depth `d` of the search, diagonal by diagonal, in place. */
  method SearchDepth<T(==)>(a: seq<T>, b: seq<T>, v: array<u32>, offset: nat, d: nat) returns (found: bool)
    requires 1 <= d <= offset == |a| + |b| <= U32_MAX && v.Length == 2 * offset + 1
    requires Dist(a, b, |a|, |b|) >= d
    requires FrontierOk(a, b, v[..], offset, d - 1)
    modifies v
    ensures found ==> Dist(a, b, |a|, |b|) == d
    ensures !found ==> Dist(a, b, |a|, |b|) > d
    ensures !found ==> FrontierOk(a, b, v[..], offset, d)
  {
    hide Dist, Furthest;
    var k := 0 - d;
    ghost var j := 0;
    while k <= d
      invariant k == 2 * j - d && 0 <= j <= d + 1
      invariant FrontierOk(a, b, v[..], offset, d - 1)
      invariant forall i :: 0 <= i < j ==> FrontierAt(a, b, v[..], offset, d, i)
      invariant CornerPassed(a, b, d, j)
    {
      var x, y := SearchDiagonal(a, b, v, offset, d, (k + d) / 2);
      CornerCheck(a, b, d, j, x);
      ghost var before := v[..];
      v[offset + k] := x as u32;
      if x >= |a| && y >= |b| {
        return true;
      }
      assert v[..] == before[offset + 2 * j - d := x as u32];
      FrontierKept(a, b, before, offset, d, d - 1, j, x as u32);
      forall i | 0 <= i < j + 1
        ensures FrontierAt(a, b, v[..], offset, d, i)
      {
        assert i < j ==> FrontierAt(a, b, before, offset, d, i);
      }
      k, j := k + 2, j + 1;
    }
    DepthDone(a, b, d);
    found := false;
  }

  /** The first snake is the furthest point of depth 0, and it decides whether anything differs. */
  lemma Origin<T>(a: seq<T>, b: seq<T>, x: nat)
    requires Dist(a, b, x, x) == Dist(a, b, 0, 0) && !Match(a, b, x, x)
    ensures Furthest(a, b, 0, 0, x) && x <= |a| + |b|
    ensures x >= |a| && x >= |b| <==> Dist(a, b, |a|, |b|) == 0
  {
    assert Dist(a, b, x + 1, x + 1) > 0;
    FrontierBound(a, b, x, x);
    if x >= |a| && x >= |b| {
      CornerOvershoot(a, b, x, x);
    } else if Dist(a, b, |a|, |b|) == 0 {
      Parity(a, b, |a|, |b|);
      FurthestBounds(a, b, 0, 0, x, |a|);
    }
  }

  lemma TraceStart<T>(a: seq<T>, b: seq<T>, v: seq<u32>, offset: nat, x: u32)
    requires offset < |v| && v[offset] == x && Furthest(a, b, 0, 0, x as int)
    ensures FrontierOk(a, b, v, offset, 0) && TraceOk(a, b, [x], 1) && Base(0) == 0 && Base(1) == 1
            && TraceOk(a, b, [x], 0)
  {
    hide Furthest;
    assert FrontierAt(a, b, v, offset, 0, 0);
    assert TraceAt(a, b, [x], 0, 0);
  }

  lemma TraceFirst<T>(a: seq<T>, b: seq<T>, trace: seq<u32>, depth: nat)
    requires TraceOk(a, b, trace, depth) && depth > 0
    ensures TraceAt(a, b, trace, 0, 0)
  {
    hide TraceAt;
  }

  lemma TraceLonger<T>(a: seq<T>, b: seq<T>, trace: seq<u32>, longer: seq<u32>, depth: nat)
    requires TraceOk(a, b, trace, depth) && trace <= longer
    ensures TraceOk(a, b, longer, depth)
  {
    hide Furthest, Base;
    forall e: nat, j | e < depth && 0 <= j <= e
      ensures TraceAt(a, b, longer, e, j)
    {
      assert TraceAt(a, b, trace, e, j);
    }
  }

  /** The whole search: `lastD` is the distance and the trace holds every smaller depth. */
  method Search<T(==)>(a: seq<T>, b: seq<T>) returns (trace: seq<u32>, lastD: nat)
    requires |a| + |b| <= U32_MAX
    ensures lastD == Dist(a, b, |a|, |b|)
    ensures TraceOk(a, b, trace, lastD) && |trace| >= 1 + Base(lastD)
    ensures TraceAt(a, b, trace, 0, 0)
  {
    hide Dist, Lcs, TraceOk, FrontierOk, FrontierAt, TraceAt, Furthest;
    var max := |a| + |b|;
    var offset := max;
    var v := new u32[2 * max + 1](_ => 0);
    var x, y := Snake(a, b, 0, 0);
    Origin(a, b, x);
    v[offset] := x as u32;
    trace := [v[offset]];
    lastD := 0;
    TraceStart(a, b, v[..], offset, x as u32);
    TraceFirst(a, b, trace, 1);
    if v[offset] as int >= |a| && v[offset] as int >= |b| {
      return;
    }
    var d := 1;
    while d <= max
      invariant 1 <= d <= max + 1
      invariant Dist(a, b, |a|, |b|) >= d
      invariant FrontierOk(a, b, v[..], offset, d - 1)
      invariant TraceOk(a, b, trace, d) && |trace| == Base(d)
    {
      var found := SearchDepth(a, b, v, offset, d);
      var longer := PushDepth(v, offset, d, trace);
      if found {
        TraceLonger(a, b, trace, longer, d);
        trace := longer;
        TraceFirst(a, b, trace, d);
        return trace, d;
      }
      TraceExtend(a, b, trace, longer, v[..], offset, d);
      trace := longer;
      d := d + 1;
    }
    Parity(a, b, |a|, |b|);
    assert false;
  }

  // ----- backtracking -----

  /** Diagonal `k` at `depth` in the compact trace. */
  method CompactTraceGet(trace: seq<u32>, depth: nat, k: int) returns (x: u32)
    requires 0 - depth <= k <= depth && (k + depth) % 2 == 0 && Base(depth + 1) <= |trace|
    ensures Base(depth) + (k + depth) / 2 < |trace| && x == trace[Base(depth) + (k + depth) / 2]
  {
    BaseNext(depth);
    var base := depth * (depth + 1) / 2;
    x := trace[base + (k + depth) / 2];
  }

  /** The script built so far, read forwards, covers everything after (x, y). */
  ghost predicate Tail<T>(rev: seq<Edit<T>>, a: seq<T>, b: seq<T>, x: int, y: int, cost: int) {
    && 0 <= x <= |a| && 0 <= y <= |b|
    && ValidScript(Reversed(rev), a[x..], b[y..])
    && Cost(Reversed(rev)) == cost
  }

  lemma TailPush<T>(rev: seq<Edit<T>>, a: seq<T>, b: seq<T>, x: int, y: int, cost: int, e: Edit<T>)
    requires Tail(rev, a, b, x, y, cost)
    requires !e.Insert? ==> x > 0 && e.oldLine == a[x - 1]
    requires !e.Delete? ==> y > 0 && e.newLine == b[y - 1]
    requires e.Equal? ==> e.oldLine == e.newLine
    ensures Tail(rev + [e], a, b, if e.Insert? then x else x - 1, if e.Delete? then y else y - 1,
                 if e.Equal? then cost else cost + 1)
  {
    hide ValidScript, Cost, Reversed;
    ReversedPush(rev, e);
    ScriptCons(e, Reversed(rev), a[x..], b[y..]);
    if !e.Insert? { OneMore(a, x); }
    if !e.Delete? { OneMore(b, y); }
    NothingBefore(a[x..]);
    NothingBefore(b[y..]);
  }

  /** The script built so far goes on greedily from (x, y), reached with `c` changes. */
  ghost predicate GreedyTail<T>(rev: seq<Edit<T>>, a: seq<T>, b: seq<T>, x: int, y: int, c: int) {
    0 <= x && 0 <= y && GreedyFrom(a, b, Reversed(rev), x, y, c)
  }

  lemma GreedyPush<T>(rev: seq<Edit<T>>, a: seq<T>, b: seq<T>, x: int, y: int, c: int, e: Edit<T>)
    requires !e.Insert? ==> x > 0
    requires !e.Delete? ==> y > 0
    requires GreedyTail(rev, a, b, x, y, c)
    requires LeavesGreedily(a, b, e, if e.Insert? then x else x - 1, if e.Delete? then y else y - 1,
                            if e.Equal? then c else c - 1)
    ensures GreedyTail(rev + [e], a, b, if e.Insert? then x else x - 1, if e.Delete? then y else y - 1,
                       if e.Equal? then c else c - 1)
  {
    hide LeavesGreedily, Reversed;
    ReversedPush(rev, e);
    assert ([e] + Reversed(rev))[1..] == Reversed(rev);
  }

  lemma KeptIsGreedy<T>(a: seq<T>, b: seq<T>, e: Edit<T>, x: nat, y: nat, c: int)
    requires e.Equal?
    ensures LeavesGreedily(a, b, e, x, y, c)
  {
  }

  lemma ChangeIsGreedy<T>(a: seq<T>, b: seq<T>, e: Edit<T>, x: nat, y: nat, c: int)
    requires Furthest(a, b, c, x - y, x)
    requires (e.Insert? && InsertDue(a, b, c, x, y)) || (e.Delete? && DeleteDue(a, b, c, x, y))
    ensures LeavesGreedily(a, b, e, x, y, c)
  {
  }

  lemma OneMore<T>(a: seq<T>, x: nat)
    requires 0 < x <= |a|
    ensures a[x - 1..] == [a[x - 1]] + a[x..]
  {
  }

  lemma NothingBefore<T>(s: seq<T>)
    ensures [] + s == s
  {
  }

  /** An edit in front of a script. */
  lemma ScriptCons<T>(e: Edit<T>, s: seq<Edit<T>>, a: seq<T>, b: seq<T>)
    requires ValidScript(s, a, b) && (e.Equal? ==> e.oldLine == e.newLine)
    ensures ValidScript([e] + s, OldPart(e) + a, NewPart(e) + b)
    ensures Cost([e] + s) == if e.Equal? then Cost(s) else Cost(s) + 1
  {
    assert ([e] + s)[1..] == s;
  }

  /** The trace's account of how depth `d` entered diagonal `k`. */
  method Predecessor<T>(a: seq<T>, b: seq<T>, trace: seq<u32>, d: nat, k: int)
    returns (prevX: nat, prevK: int, ghost below: int, ghost above: int)
    requires d > 0 && TraceOk(a, b, trace, d) && |trace| >= Base(d)
    requires 0 - d <= k <= d && (k + d) % 2 == 0
    ensures Neighbours(a, b, d, k, below, above)
    ensures prevK == if EntryFromAbove(d, k, below, above) then k + 1 else k - 1
    ensures Entry(d, k, below, above) == if prevK == k + 1 then prevX else prevX + 1
    ensures Furthest(a, b, d - 1, prevK, prevX) && 1 - d <= prevK <= d - 1
  {
    hide Dist, Base;
    var prevDepth := d - 1;
    var fromAbove := k == 0 - d;
    below, above := 0, 0;
    if k != 0 - d {
      assert TraceAt(a, b, trace, prevDepth, (k - 1 + prevDepth) / 2);
      below := trace[Base(prevDepth) + (k - 1 + prevDepth) / 2] as int;
    }
    if k != d {
      assert TraceAt(a, b, trace, prevDepth, (k + 1 + prevDepth) / 2);
      above := trace[Base(prevDepth) + (k + 1 + prevDepth) / 2] as int;
    }
    if k != 0 - d && k != d {
      var xb := CompactTraceGet(trace, prevDepth, k - 1);
      var xa := CompactTraceGet(trace, prevDepth, k + 1);
      fromAbove := xb < xa;
    }
    prevK := if fromAbove then k + 1 else k - 1;
    var px := CompactTraceGet(trace, prevDepth, prevK);
    prevX := px as int;
  }

  /** Between the entry point and the furthest point every step is a match. */
  lemma MatchBehind<T>(a: seq<T>, b: seq<T>, d: nat, k: int, below: int, above: int, x0: nat, x: nat)
    requires Neighbours(a, b, d, k, below, above) && Furthest(a, b, d, k, x0)
    requires Entry(d, k, below, above) <= x < x0 && k <= x
    ensures Match(a, b, x, x - k)
  {
    if !Match(a, b, x, x - k) {
      NoShortcut(a, b, d, k, below, above, x);
      DiagonalMonotone(a, b, x + 1, x + 1 - k, x0 - x - 1);
    }
  }

  lemma EntryBehind<T>(a: seq<T>, b: seq<T>, d: nat, k: int, below: int, above: int, x0: nat)
    requires Neighbours(a, b, d, k, below, above) && Furthest(a, b, d, k, x0)
    ensures var x := Entry(d, k, below, above); 0 <= x <= x0 && k <= x
  {
    EntryReachable(a, b, d, k, below, above);
    FurthestBounds(a, b, d, k, x0, Entry(d, k, below, above));
  }

  /** Walk back along the matches of diagonal `k` to the point where depth `d` entered it. */
  method WalkBack<T>(a: seq<T>, b: seq<T>, d: nat, x0: nat, y0: nat, prevX: nat, prevY: nat,
                     rev0: seq<Edit<T>>, ghost cost: nat, ghost below: int, ghost above: int)
    returns (x: nat, y: nat, rev: seq<Edit<T>>)
    requires Neighbours(a, b, d, x0 - y0, below, above)
    requires Furthest(a, b, d, x0 - y0, x0) && Tail(rev0, a, b, x0, y0, cost)
    requires var entry := Entry(d, x0 - y0, below, above);
             || (prevX == entry && prevY == entry - (x0 - y0) - 1)
             || (prevX == entry - 1 && prevY == entry - (x0 - y0))
    requires GreedyTail(rev0, a, b, x0, y0, d)
    ensures x == Entry(d, x0 - y0, below, above) && x - y == x0 - y0
    ensures Tail(rev, a, b, x, y, cost) && GreedyTail(rev, a, b, x, y, d)
  {
    ghost var k := x0 - y0;
    ghost var entry := Entry(d, k, below, above);
    hide *;
    EntryBehind(a, b, d, k, below, above, x0);
    x, y, rev := x0, y0, rev0;
    while x > prevX && y > prevY
      invariant entry <= x <= x0 && x - y == k
      invariant Tail(rev, a, b, x, y, cost) && GreedyTail(rev, a, b, x, y, d)
    {
      MatchBehind(a, b, d, k, below, above, x0, x - 1);
      KeptIsGreedy(a, b, Equal(a[x - 1], b[y - 1]), x - 1, y - 1, d);
      GreedyPush(rev, a, b, x, y, d, Equal(a[x - 1], b[y - 1]));
      TailPush(rev, a, b, x, y, cost, Equal(a[x - 1], b[y - 1]));
      rev := rev + [Equal(a[x - 1], b[y - 1])];
      x, y := x - 1, y - 1;
    }
  }

  lemma TailBounds<T>(rev: seq<Edit<T>>, a: seq<T>, b: seq<T>, x: int, y: int, cost: int)
    requires Tail(rev, a, b, x, y, cost)
    ensures 0 <= x <= |a| && 0 <= y <= |b|
  {
  }

  /** One depth of backtracking: from the furthest point of depth `d` on diagonal x - y back to
      the furthest point of depth `d - 1` it was entered from. */
  method BacktrackDepth<T>(a: seq<T>, b: seq<T>, trace: seq<u32>, d: nat, x0: nat, y0: nat, rev0: seq<Edit<T>>,
                           ghost cost: nat)
    returns (x: nat, y: nat, rev: seq<Edit<T>>)
    requires d > 0 && TraceOk(a, b, trace, d) && |trace| >= Base(d)
    requires 0 - d <= x0 - y0 <= d && (x0 - y0 + d) % 2 == 0
    requires Furthest(a, b, d, x0 - y0, x0)
    requires Tail(rev0, a, b, x0, y0, cost) && GreedyTail(rev0, a, b, x0, y0, d)
    ensures 1 - d <= x - y <= d - 1 && (x - y + (d - 1)) % 2 == 0
    ensures Furthest(a, b, d - 1, x - y, x)
    ensures Tail(rev, a, b, x, y, cost + 1) && GreedyTail(rev, a, b, x, y, d - 1)
  {
    var k := x0 - y0;
    hide Dist, Tail, Base, TraceOk, GreedyTail, LeavesGreedily, InsertDue, DeleteDue;
    var prevX, prevK;
    ghost var below, above;
    prevX, prevK, below, above := Predecessor(a, b, trace, d, k);
    var prevY := prevX - prevK;
    x, y, rev := WalkBack(a, b, d, x0, y0, prevX, prevY, rev0, cost, below, above);
    TailBounds(rev, a, b, x, y, cost);
    EntryDue(a, b, d, k, below, above);
    if x == prevX {
      ChangeIsGreedy(a, b, Insert(b[y - 1]), x, y - 1, d - 1);
      GreedyPush(rev, a, b, x, y, d, Insert(b[y - 1]));
      TailPush(rev, a, b, x, y, cost, Insert(b[y - 1]));
      rev := rev + [Insert(b[y - 1])];
      y := y - 1;
    } else {
      ChangeIsGreedy(a, b, Delete(a[x - 1]), x - 1, y, d - 1);
      GreedyPush(rev, a, b, x, y, d, Delete(a[x - 1]));
      TailPush(rev, a, b, x, y, cost, Delete(a[x - 1]));
      rev := rev + [Delete(a[x - 1])];
      x := x - 1;
    }
  }

  /** What is left at depth 0 is one run of matching lines. */
  lemma MatchAtZero<T>(a: seq<T>, b: seq<T>, x: nat)
    requires x > 0 && Dist(a, b, x, x) == 0
    ensures Match(a, b, x - 1, x - 1) && Dist(a, b, x - 1, x - 1) == 0
  {
  }

  /** Whatever remains of either side after the diagonals are used up. */
  method Drain<T>(a: seq<T>, b: seq<T>, x0: nat, y0: nat, rev0: seq<Edit<T>>, ghost cost: nat)
    returns (rev: seq<Edit<T>>)
    requires Tail(rev0, a, b, x0, y0, cost)
    ensures Tail(rev, a, b, 0, 0, cost + x0 + y0)
    ensures x0 == y0 == 0 ==> rev == rev0
  {
    hide *;
    var x, y := x0, y0;
    rev := rev0;
    while x > 0
      invariant 0 <= x <= x0 && Tail(rev, a, b, x, y, cost + (x0 - x)) && (x0 == 0 ==> rev == rev0)
    {
      TailBounds(rev, a, b, x, y, cost + (x0 - x));
      TailPush(rev, a, b, x, y, cost + (x0 - x), Delete(a[x - 1]));
      rev := rev + [Delete(a[x - 1])];
      x := x - 1;
    }
    while y > 0
      invariant 0 <= y <= y0 && Tail(rev, a, b, x, y, cost + x0 + (y0 - y)) && (x0 == y0 == 0 ==> rev == rev0)
    {
      TailBounds(rev, a, b, x, y, cost + x0 + (y0 - y));
      TailPush(rev, a, b, x, y, cost + x0 + (y0 - y), Insert(b[y - 1]));
      rev := rev + [Insert(b[y - 1])];
      y := y - 1;
    }
  }

  method Backtrack<T(==)>(a: seq<T>, b: seq<T>, trace: seq<u32>, lastD: nat) returns (edits: seq<Edit<T>>)
    requires lastD == Dist(a, b, |a|, |b|) && TraceOk(a, b, trace, lastD) && |trace| >= Base(lastD)
    ensures ValidScript(edits, a, b) && Cost(edits) == lastD && Greedy(a, b, edits)
  {
    hide Dist, Base, Furthest, GreedyFrom, GreedyTail, Tail, ValidScript, TraceAt;
    var x, y := |a|, |b|;
    var rev: seq<Edit<T>> := [];
    Parity(a, b, x, y);
    CornerIsFurthest(a, b);
    NothingYet(a, b, lastD);
    var d := lastD;
    while d >= 1
      invariant 0 <= d <= lastD
      invariant 0 - d <= x - y <= d && (x - y + d) % 2 == 0
      invariant Furthest(a, b, d, x - y, x)
      invariant Tail(rev, a, b, x, y, lastD - d) && GreedyTail(rev, a, b, x, y, d)
    {
      BaseMonotone(d, lastD);
      TailBounds(rev, a, b, x, y, lastD - d);
      x, y, rev := BacktrackDepth(a, b, trace, d, x, y, rev, lastD - d);
      d := d - 1;
    }
    TailBounds(rev, a, b, x, y, lastD);
    FurthestAtZero(a, b, x);
    while x > 0 && y > 0
      invariant 0 <= x == y <= |a| && y <= |b| && Dist(a, b, x, x) == 0
      invariant Tail(rev, a, b, x, y, lastD) && GreedyTail(rev, a, b, x, y, 0)
    {
      MatchAtZero(a, b, x);
      KeptIsGreedy(a, b, Equal(a[x - 1], b[y - 1]), x - 1, y - 1, 0);
      GreedyPush(rev, a, b, x, y, 0, Equal(a[x - 1], b[y - 1]));
      TailPush(rev, a, b, x, y, lastD, Equal(a[x - 1], b[y - 1]));
      rev := rev + [Equal(a[x - 1], b[y - 1])];
      x, y := x - 1, y - 1;
    }
    rev := Drain(a, b, x, y, rev, lastD);
    edits := Reversed(rev);
    WholeTail(rev, a, b, lastD);
  }

  lemma CornerIsFurthest<T>(a: seq<T>, b: seq<T>)
    ensures Furthest(a, b, Dist(a, b, |a|, |b|), |a| - |b|, |a|)
  {
    hide Dist;
    CornerOvershoot(a, b, |a| + 1, |b| + 1);
  }

  lemma NothingYet<T>(a: seq<T>, b: seq<T>, c: int)
    ensures Tail([], a, b, |a|, |b|, 0) && GreedyTail([], a, b, |a|, |b|, c)
  {
  }

  lemma FurthestAtZero<T>(a: seq<T>, b: seq<T>, x: int)
    requires Furthest(a, b, 0, 0, x)
    ensures 0 <= x && Dist(a, b, x, x) == 0
  {
    hide Dist;
  }

  lemma WholeTail<T>(rev: seq<Edit<T>>, a: seq<T>, b: seq<T>, cost: int)
    requires Tail(rev, a, b, 0, 0, cost) && GreedyTail(rev, a, b, 0, 0, 0)
    ensures ValidScript(Reversed(rev), a, b) && Cost(Reversed(rev)) == cost && Greedy(a, b, Reversed(rev))
  {
    assert a[0..] == a && b[0..] == b;
    hide GreedyFrom;
  }

  // ----- the whole diff -----

  /** What the search gives: deletions come first in every group of changes, and if it is made, that is
      unless the lines are too many, the script is a shortest one and greedy. */
  ghost predicate SearchedScript<T(!new)>(s: seq<Edit<T>>, a: seq<T>, b: seq<T>) {
    && ValidScript(s, a, b) && DeletesFirst(s)
    && (a == [] || b == [] || |a| + |b| <= 0xFFFF_FFFF ==> Minimal(s, a, b))
    && (a != [] && b != [] && |a| + |b| <= 0xFFFF_FFFF ==> Greedy(a, b, s))
  }

  /** A shortest edit script, counted in lines inserted and deleted. */
  method MyersEdits<T(==,!new)>(a: seq<T>, b: seq<T>) returns (edits: seq<Edit<T>>)
    ensures ValidScript(edits, a, b)
    ensures a == [] || b == [] || |a| + |b| <= U32_MAX ==>
              && Minimal(edits, a, b)
              && Cost(edits) == |a| + |b| - 2 * Lcs(a, b, |a|, |b|)
    ensures SearchedScript(edits, a, b)
  {
    hide Greedy, DeletesFirst, EndPairs, KeptPairs;
    DistIsLcs(a, b, |a|, |b|);
    if a == [] || b == [] {
      edits := MyersFallbackEdits(a, b);
      DistIsMinimal(edits, a, b);
      return;
    }
    if |a| + |b| > U32_MAX {
      edits := MyersFallbackEdits(a, b);
      return;
    }
    var trace, lastD := Search(a, b);
    if lastD == 0 && |a| == |b| && trace[0] as int == |a| {
      edits := seq(|a|, i requires 0 <= i < |a| => Equal(a[i], a[i]));
      IdenticalSides(a, b);
      KeepAll(a, edits);
      KeepingIsGreedy(a, b, edits, 0, 0, 0);
      GreedyFromStart(a, b, edits);
    } else {
      edits := Backtrack(a, b, trace, lastD);
    }
    DistIsMinimal(edits, a, b);
    GreedyInOrder(a, b, edits);
  }

  lemma GreedyInOrder<T>(a: seq<T>, b: seq<T>, edits: seq<Edit<T>>)
    requires Greedy(a, b, edits)
    ensures DeletesFirst(edits)
  {
    GreedyDeletesFirst(a, b, edits, 0, 0, 0);
  }

  lemma GreedyFromStart<T>(a: seq<T>, b: seq<T>, edits: seq<Edit<T>>)
    requires GreedyFrom(a, b, edits, 0, 0, 0)
    ensures Greedy(a, b, edits)
  {
  }

  lemma {:induction false} KeepingIsGreedy<T>(a: seq<T>, b: seq<T>, s: seq<Edit<T>>, x: nat, y: nat, c: int)
    requires forall i :: 0 <= i < |s| ==> s[i].Equal?
    ensures GreedyFrom(a, b, s, x, y, c)
    decreases |s|
  {
    if s != [] {
      KeepingIsGreedy(a, b, s[1..], x + 1, y + 1, c);
    }
  }

  /** Files at distance zero are the same file. */
  lemma {:induction false} IdenticalSides<T>(a: seq<T>, b: seq<T>)
    requires Dist(a, b, |a|, |b|) == 0
    ensures a == b
  {
    Parity(a, b, |a|, |b|);
    var x := |a|;
    while x > 0
      invariant 0 <= x <= |a| && Dist(a, b, x, x) == 0
      invariant a[x..] == b[x..]
    {
      MatchAtZero(a, b, x);
      assert a[x - 1..] == [a[x - 1]] + a[x..] && b[x - 1..] == [b[x - 1]] + b[x..];
      x := x - 1;
    }
  }

  lemma {:induction false} KeepAll<T>(a: seq<T>, edits: seq<Edit<T>>)
    requires |edits| == |a| && forall i :: 0 <= i < |a| ==> edits[i] == Equal(a[i], a[i])
    ensures ValidScript(edits, a, a) && Cost(edits) == 0
  {
    if a != [] {
      KeepAll(a[1..], edits[1..]);
    }
  }
}
