module HistoryProjections {
  // A sparse projection that hides a few rows of a history index, and the two maps between visible
  // indices and rows.

  import opened Machine
  import opened Wrappers
  import opened Sorting

  /** `len` rows, of which `hidden` are not shown. */
  datatype Projection = Projection(len: nat, hidden: seq<u32>)
  {
    ghost predicate Valid() {
      && len <= U32_MAX
      && (forall k :: 0 <= k < |hidden| ==> hidden[k] as int < len)
      && (forall k, l :: 0 <= k < l < |hidden| ==> hidden[k] < hidden[l])
    }
  }

  ghost predicate IsHidden(hidden: seq<u32>, row: nat) {
    exists k :: 0 <= k < |hidden| && hidden[k] as int == row
  }

  /** The shown rows among the first `n`, ascending: the projection written out. */
  ghost function Shown(hidden: seq<u32>, n: nat): seq<nat> {
    if n == 0 then [] else Shown(hidden, n - 1) + if IsHidden(hidden, n - 1) then [] else [n - 1]
  }

  // ----- building -----

  /** Any list of rows may be given: rows past the end are dropped, the rest sorted and deduplicated. */
  method NewProjection(len: nat, hidden0: seq<u32>) returns (p: Projection)
    requires len <= U32_MAX
    ensures p.Valid() && p.len == len
    ensures forall row: nat :: row < len ==> (IsHidden(p.hidden, row) <==> IsHidden(hidden0, row))
  {
    var kept: seq<u32> := [];
    for k := 0 to |hidden0|
      invariant forall i :: 0 <= i < |kept| ==> kept[i] as int < len && kept[i] in hidden0[..k]
      invariant forall i :: 0 <= i < k && hidden0[i] as int < len ==> hidden0[i] in kept
    {
      if hidden0[k] as int < len {
        kept := kept + [hidden0[k]];
      }
    }
    var sorted := Sort(kept, (a: u32, b: u32) => a <= b);
    forall x: u32
      ensures x in sorted <==> x in kept
    {
      assert x in multiset(sorted) <==> x in multiset(kept);
    }
    forall i, j | 0 <= i < j < |sorted|
      ensures sorted[i] <= sorted[j]
    {
    }
    var hidden := Dedup(sorted);
    forall k | 0 <= k < |hidden|
      ensures hidden[k] as int < len
    {
      assert hidden[k] in hidden;
      var i :| 0 <= i < |kept| && kept[i] == hidden[k];
    }
    p := Projection(len, hidden);
    assert hidden0[..|hidden0|] == hidden0;
    forall row: nat | row < len
      ensures IsHidden(hidden, row) <==> IsHidden(hidden0, row)
    {
      HiddenIsMember(hidden, row);
      HiddenIsMember(hidden0, row);
      hide IsHidden;
      if row as u32 in hidden {
        var i :| 0 <= i < |kept| && kept[i] == row as u32;
      }
      if row as u32 in hidden0 {
        var i :| 0 <= i < |hidden0| && hidden0[i] == row as u32;
        assert hidden0[i] in kept;
      }
    }
  }

  lemma HiddenIsMember(hidden: seq<u32>, row: nat)
    requires row <= U32_MAX
    ensures IsHidden(hidden, row) <==> row as u32 in hidden
  {
  }

  /** Drop consecutive repeats of an ordered list. */
  method Dedup(xs: seq<u32>) returns (r: seq<u32>)
    requires forall i, j :: 0 <= i < j < |xs| ==> xs[i] <= xs[j]
    ensures forall i, j :: 0 <= i < j < |r| ==> r[i] < r[j]
    ensures forall x :: x in r <==> x in xs
  {
    r := [];
    for k := 0 to |xs|
      invariant forall i, j :: 0 <= i < j < |r| ==> r[i] < r[j]
      invariant forall x :: x in r <==> x in xs[..k]
      invariant if k == 0 then r == [] else r != [] && r[|r| - 1] == xs[k - 1]
    {
      assert xs[..k + 1] == xs[..k] + [xs[k]];
      assert k > 0 ==> xs[k - 1] <= xs[k];
      if r == [] || r[|r| - 1] != xs[k] {
        r := r + [xs[k]];
      }
    }
    assert xs[..|xs|] == xs;
  }

  // ----- counting -----

  /** `before` hidden rows lie below `raw`. */
  ghost predicate Before(hidden: seq<u32>, raw: nat, before: nat) {
    && before <= |hidden|
    && (forall k :: 0 <= k < before ==> hidden[k] as int < raw)
    && (forall k :: before <= k < |hidden| ==> hidden[k] as int >= raw)
  }

  lemma HiddenAscend(p: Projection, k: nat, l: nat)
    requires p.Valid() && k < l < |p.hidden|
    ensures p.hidden[k] < p.hidden[l]
  {
  }

  /** One row further down there is one hidden row fewer before it, if that row is hidden. */
  lemma BeforeBelow(p: Projection, raw: nat, before: nat)
    requires p.Valid() && raw > 0 && Before(p.hidden, raw, before)
    ensures IsHidden(p.hidden, raw - 1) ==> before > 0 && Before(p.hidden, raw - 1, before - 1)
    ensures !IsHidden(p.hidden, raw - 1) ==> Before(p.hidden, raw - 1, before)
  {
    if IsHidden(p.hidden, raw - 1) {
      var k: nat :| k < |p.hidden| && p.hidden[k] as int == raw - 1;
      forall j | 0 <= j < |p.hidden|
        ensures j < k ==> (p.hidden[j] as int) < raw - 1
        ensures k < j ==> p.hidden[j] as int >= raw
      {
        if j < k {
          HiddenAscend(p, j, k);
        } else if k < j {
          HiddenAscend(p, k, j);
        }
      }
      assert k < before;
      assert k + 1 < |p.hidden| ==> p.hidden[k + 1] as int >= raw;
      assert before == k + 1;
    }
  }

  /** Subtracting the hidden rows below a row counts the shown rows below it. */
  lemma {:induction false} ShownCount(p: Projection, raw: nat, before: nat)
    requires p.Valid() && Before(p.hidden, raw, before)
    ensures |Shown(p.hidden, raw)| + before == raw
    decreases raw
  {
    if raw > 0 {
      BeforeBelow(p, raw, before);
      hide Before;
      if IsHidden(p.hidden, raw - 1) {
        ShownCount(p, raw - 1, before - 1);
      } else {
        ShownCount(p, raw - 1, before);
      }
    } else {
      assert |p.hidden| > 0 ==> p.hidden[0] as int >= 0;
    }
  }

  /** A shown row sits at the index that counts the shown rows below it. */
  lemma {:induction false} ShownAt(hidden: seq<u32>, n: nat, row: nat)
    requires row < n && !IsHidden(hidden, row)
    ensures |Shown(hidden, row)| < |Shown(hidden, n)| && Shown(hidden, n)[|Shown(hidden, row)|] == row
    decreases n
  {
    if row < n - 1 {
      ShownAt(hidden, n - 1, row);
    }
  }

  lemma {:induction false} ShownAscends(hidden: seq<u32>, n: nat)
    ensures forall v :: 0 <= v < |Shown(hidden, n)| ==>
              Shown(hidden, n)[v] < n && !IsHidden(hidden, Shown(hidden, n)[v])
    ensures forall v, w :: 0 <= v < w < |Shown(hidden, n)| ==> Shown(hidden, n)[v] < Shown(hidden, n)[w]
  {
    if n > 0 {
      ShownAscends(hidden, n - 1);
    }
  }

  lemma {:induction false} ShownPrefix(hidden: seq<u32>, raw: nat, n: nat)
    requires raw <= n
    ensures |Shown(hidden, raw)| <= |Shown(hidden, n)| && Shown(hidden, n)[..|Shown(hidden, raw)|] == Shown(hidden, raw)
    ensures forall v :: |Shown(hidden, raw)| <= v < |Shown(hidden, n)| ==> Shown(hidden, n)[v] >= raw
    decreases n
  {
    if raw < n {
      ShownPrefix(hidden, raw, n - 1);
    }
  }

  // ----- the maps -----

  method Len(p: Projection) returns (n: nat)
    requires p.Valid()
    ensures n == |Shown(p.hidden, p.len)|
  {
    ShownCount(p, p.len, |p.hidden|);
    n := p.len - |p.hidden|;
  }

  method HiddenBelow(p: Projection, raw: nat) returns (before: nat)
    requires p.Valid()
    ensures Before(p.hidden, raw, before)
  {
    var below := (k: nat) requires k < |p.hidden| => (p.hidden[k] as int) < raw;
    before := PartitionPoint(|p.hidden|, below);
    forall k | 0 <= k < before
      ensures p.hidden[k] as int < raw
    {
      assert below(k);
    }
    forall k | before <= k < |p.hidden|
      ensures p.hidden[k] as int >= raw
    {
      assert !below(k);
    }
  }

  /** A shown row's place in the written-out projection. */
  ghost function VisibleOf(p: Projection, raw: nat): Option<nat> {
    if raw < p.len && !IsHidden(p.hidden, raw) then Some(|Shown(p.hidden, raw)|) else None
  }

  /** The row written at a place. */
  ghost function RawOf(p: Projection, visible: nat): Option<nat> {
    if visible < |Shown(p.hidden, p.len)| then Some(Shown(p.hidden, p.len)[visible]) else None
  }

  /** The two maps undo each other, between visible indices and exactly the rows not hidden. */
  lemma MapsAreInverse(p: Projection, raw: nat, visible: nat)
    ensures RawOf(p, visible) == Some(raw) <==> VisibleOf(p, raw) == Some(visible)
    ensures VisibleOf(p, raw).Some? <==> raw < p.len && !IsHidden(p.hidden, raw)
  {
    ShownAscends(p.hidden, p.len);
    hide IsHidden;
    if VisibleOf(p, raw).Some? {
      ShownAt(p.hidden, p.len, raw);
    }
    if RawOf(p, visible).Some? {
      var row := Shown(p.hidden, p.len)[visible];
      ShownAt(p.hidden, p.len, row);
    }
  }

  /** Both maps keep the order. */
  lemma MapsKeepOrder(p: Projection, v: nat, w: nat)
    requires RawOf(p, v).Some? && RawOf(p, w).Some?
    ensures v < w <==> RawOf(p, v).value < RawOf(p, w).value
  {
    ShownAscends(p.hidden, p.len);
  }

  /** The visible index of a row, if it is shown. */
  method VisiblePosition(p: Projection, raw: nat) returns (r: Option<nat>)
    requires p.Valid()
    ensures r == VisibleOf(p, raw)
  {
    if raw >= p.len {
      return None;
    }
    var before := HiddenBelow(p, raw);
    if before < |p.hidden| && p.hidden[before] as int == raw {
      return None;
    }
    assert !IsHidden(p.hidden, raw);
    ShownCount(p, raw, before);
    r := Some(raw - before);
  }

  /** `hidden[k] - k` never decreases. */
  lemma {:induction false} DisplacementGrows(p: Projection, k: nat, l: nat)
    requires p.Valid() && k <= l < |p.hidden|
    ensures k <= p.hidden[k] as int && p.hidden[k] as int - k <= p.hidden[l] as int - l
    decreases l + k
  {
    if k < l {
      DisplacementGrows(p, k, l - 1);
    } else if k > 0 {
      DisplacementGrows(p, k - 1, k - 1);
    }
  }

  /** The row at a visible index, by one bisection over the rows each hidden row displaces. */
  method RawPosition(p: Projection, visible: nat) returns (r: Option<nat>)
    requires p.Valid()
    ensures r == RawOf(p, visible)
  {
    var n := Len(p);
    if visible >= n {
      return None;
    }
    ShownCount(p, p.len, |p.hidden|);
    var lo: nat, hi: nat := 0, |p.hidden|;
    while lo < hi
      invariant lo <= hi <= |p.hidden|
      invariant forall k :: 0 <= k < lo ==> p.hidden[k] as int - k <= visible
      invariant forall k :: hi <= k < |p.hidden| ==> p.hidden[k] as int - k > visible
    {
      var mid := lo + (hi - lo) / 2;
      DisplacementGrows(p, mid, mid);
      if p.hidden[mid] as int - mid <= visible {
        forall k | 0 <= k <= mid
          ensures p.hidden[k] as int - k <= visible
        {
          DisplacementGrows(p, k, mid);
        }
        lo := mid + 1;
      } else {
        forall k | mid <= k < |p.hidden|
          ensures p.hidden[k] as int - k > visible
        {
          DisplacementGrows(p, mid, k);
        }
        hi := mid;
      }
    }
    Landing(p, visible, lo);
    r := Some(visible + lo);
  }

  /** With `lo` hidden rows displacing it, visible index v is row v + lo. */
  lemma Landing(p: Projection, visible: nat, lo: nat)
    requires p.Valid() && lo <= |p.hidden| && visible + |p.hidden| < p.len
    requires forall k :: 0 <= k < lo ==> p.hidden[k] as int - k <= visible
    requires forall k :: lo <= k < |p.hidden| ==> p.hidden[k] as int - k > visible
    ensures visible < |Shown(p.hidden, p.len)| && Shown(p.hidden, p.len)[visible] == visible + lo
  {
    var raw := visible + lo;
    assert Before(p.hidden, raw, lo);
    assert !IsHidden(p.hidden, raw);
    ShownCount(p, raw, lo);
    ShownAt(p.hidden, p.len, raw);
  }

  /** The visible index of the first shown row at or after `raw`, or the visible length. */
  method VisiblePositionAtOrAfter(p: Projection, raw: nat) returns (v: nat)
    requires p.Valid()
    ensures v <= |Shown(p.hidden, p.len)|
    ensures forall w :: 0 <= w < v ==> Shown(p.hidden, p.len)[w] < raw
    ensures forall w :: v <= w < |Shown(p.hidden, p.len)| ==> Shown(p.hidden, p.len)[w] >= raw
  {
    if raw >= p.len {
      ShownAscends(p.hidden, p.len);
      v := Len(p);
      return;
    }
    var before := HiddenBelow(p, raw);
    ShownCount(p, raw, before);
    ShownPrefix(p.hidden, raw, p.len);
    ShownAscends(p.hidden, raw);
    v := raw - before;
    assert forall w :: 0 <= w < v ==> Shown(p.hidden, p.len)[w] == Shown(p.hidden, p.len)[..v][w];
  }
}
