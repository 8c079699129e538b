/** Where each old visible row should be anchored after a refresh: the nearest row that survived. */
module Survivors {
  import opened Machine
  import opened Wrappers
  import opened Sorting
  import opened ByteOrder
  import opened HistoryTables
  import opened HistoryLookup
  import opened HistoryProjections

  const MISSING: u32 := 0xFFFF_FFFF
  const CHECK_INTERVAL: nat := 1024

  function Gap(i: int, j: int): nat {
    if i <= j then j - i else i - j
  }

  /** `k` survives and no survivor is closer to `i`; of two equally close ones the later wins. */
  ghost predicate Closest(targets: seq<u32>, i: nat, k: nat) {
    && k < |targets| && targets[k] != MISSING
    && forall l :: 0 <= l < |targets| && targets[l] != MISSING ==>
         Gap(i, k) < Gap(i, l) || (Gap(i, k) == Gap(i, l) && l <= k)
  }

  ghost predicate NoneSurvive(targets: seq<u32>) {
    forall l :: 0 <= l < |targets| ==> targets[l] == MISSING
  }

  /** The answer for row `i`: its closest survivor's target, or nothing when nothing survived. */
  ghost predicate Anchored(targets: seq<u32>, i: nat, r: u32) {
    if NoneSurvive(targets) then r == MISSING else exists k: nat :: Closest(targets, i, k) && r == targets[k]
  }

  // ----- filling the gaps -----

  /** A survivor keeps its own target. */
  lemma AnchoredSelf(targets: seq<u32>, i: nat)
    requires i < |targets| && targets[i] != MISSING
    ensures Anchored(targets, i, targets[i])
  {
    assert Closest(targets, i, i);
  }

  /** A maximal run of rows that did not survive. */
  ghost predicate IsGap(targets: seq<u32>, start: nat, end: nat) {
    && start < end <= |targets|
    && (forall l :: start <= l < end ==> targets[l] == MISSING)
    && (start > 0 ==> targets[start - 1] != MISSING)
    && (end < |targets| ==> targets[end] != MISSING)
  }

  /** Inside a gap the closest survivor is one of the two rows around it. */
  lemma GapAnchor(targets: seq<u32>, start: nat, end: nat, i: nat, r: u32)
    requires IsGap(targets, start, end) && start <= i < end
    requires r == if start > 0 && end < |targets| && i - (start - 1) < end - i then targets[start - 1]
                  else if end < |targets| then targets[end]
                  else if start > 0 then targets[start - 1]
                  else MISSING
    ensures Anchored(targets, i, r)
  {
    if start > 0 && end < |targets| && i - (start - 1) < end - i {
      assert Closest(targets, i, start - 1);
    } else if end < |targets| {
      assert Closest(targets, i, end);
    } else if start > 0 {
      assert Closest(targets, i, start - 1);
    } else {
      assert NoneSurvive(targets);
    }
  }

  /** Fill one gap in place. */
  method FillGap(mapped: array<u32>, ghost targets: seq<u32>, start: nat, end: nat, cancelled: nat -> bool, check0: nat)
    returns (ok: bool, check: nat)
    requires mapped.Length == |targets| && IsGap(targets, start, end)
    requires forall l :: start <= l < mapped.Length ==> mapped[l] == targets[l]
    requires start > 0 ==> mapped[start - 1] == targets[start - 1]
    modifies mapped
    ensures (forall i :: !cancelled(i)) ==> ok
    ensures ok ==> forall l :: start <= l < end ==> Anchored(targets, l, mapped[l])
    ensures forall l :: 0 <= l < start || end <= l < mapped.Length ==> mapped[l] == old(mapped[l])
  {
    check := check0;
    var hasLeft, hasRight := start > 0, end < mapped.Length;
    var left := if hasLeft then mapped[start - 1] else MISSING;
    var right := if hasRight then mapped[end] else MISSING;
    for ix := start to end
      invariant forall l :: start <= l < ix ==> Anchored(targets, l, mapped[l])
      invariant forall l :: 0 <= l < start || ix <= l < mapped.Length ==> mapped[l] == old(mapped[l])
    {
      if ix % CHECK_INTERVAL == 0 {
        if cancelled(check) {
          return false, check;
        }
        check := check + 1;
      }
      var value :=
        if hasLeft && hasRight && ix - (start - 1) < end - ix then left
        else if hasRight then right
        else if hasLeft then left
        else MISSING;
      GapAnchor(targets, start, end, ix, value);
      mapped[ix] := value;
    }
    ok := true;
  }

  /** Fill every gap, left to right, in place. */
  method FillGaps(mapped: array<u32>, cancelled: nat -> bool, check0: nat) returns (ok: bool)
    modifies mapped
    ensures (forall i :: !cancelled(i)) ==> ok
    ensures ok ==> forall i :: 0 <= i < mapped.Length ==> Anchored(old(mapped[..]), i, mapped[i])
  {
    ghost var targets := mapped[..];
    var check := check0;
    var start := 0;
    while start < mapped.Length
      invariant start <= mapped.Length
      invariant forall l :: 0 <= l < start ==> Anchored(targets, l, mapped[l])
      invariant forall l :: start <= l < mapped.Length ==> mapped[l] == targets[l]
      invariant 0 < start < mapped.Length && targets[start] == MISSING ==> targets[start - 1] != MISSING
      invariant start > 0 && targets[start - 1] != MISSING ==> mapped[start - 1] == targets[start - 1]
    {
      if start % CHECK_INTERVAL == 0 {
        if cancelled(check) {
          return false;
        }
        check := check + 1;
      }
      if mapped[start] != MISSING {
        AnchoredSelf(targets, start);
        start := start + 1;
      } else {
        var end := start + 1;
        while end < mapped.Length && mapped[end] == MISSING
          invariant start < end <= mapped.Length
          invariant forall l :: start <= l < end ==> mapped[l] == MISSING
        {
          end := end + 1;
        }
        ok, check := FillGap(mapped, targets, start, end, cancelled, check);
        if !ok {
          return;
        }
        start := end;
      }
    }
    ok := !cancelled(check);
  }

  // ----- joining the two indexes -----

  /** Where the commit with an identifier is shown after the refresh. */
  ghost function TargetOf(next: seq<Commit>, q: Projection, id: Id): u32
    requires q.len <= U32_MAX
  {
    match LinearSearch(next, id)
    case None => MISSING
    case Some(row) => ShownTarget(q, row)
  }

  ghost function ShownTarget(q: Projection, row: nat): u32
    requires q.len <= U32_MAX
  {
    match VisibleOf(q, row)
    case None => MISSING
    case Some(v) =>
      VisibleFits(q, row);
      v as u32
  }

  lemma VisibleFits(q: Projection, row: nat)
    requires VisibleOf(q, row).Some? && q.len <= U32_MAX
    ensures VisibleOf(q, row).value < U32_MAX
  {
    AtMostRow(q.hidden, row);
  }

  lemma {:induction false} AtMostRow(hidden: seq<u32>, n: nat)
    ensures |Shown(hidden, n)| <= n
  {
    if n > 0 {
      AtMostRow(hidden, n - 1);
    }
  }

  /** Sorted entries are in lexicographic order. */
  lemma EntriesInOrder(ix: HistoryIndex, commits: seq<Commit>, i: nat, j: nat)
    requires Searchable(ix, commits) && i <= j < |ix.sortedRows|
    ensures ix.sortedRows[i] as int < |commits| && ix.sortedRows[j] as int < |commits|
    ensures AtMost(commits[ix.sortedRows[i] as int].id, commits[ix.sortedRows[j] as int].id)
  {
    assert i < j ==> RowValue(commits, ix.sortedRows, i) <= RowValue(commits, ix.sortedRows, j);
    LessIsValue(commits[ix.sortedRows[j] as int].id, commits[ix.sortedRows[i] as int].id);
    hide Less, Value;
  }

  /** The identifier of the i-th sorted entry. */
  function EntryId(ix: HistoryIndex, ghost commits: seq<Commit>, i: nat): (id: Id)
    requires Searchable(ix, commits) && i < |ix.sortedRows|
    ensures ix.sortedRows[i] as int < |commits| && id == commits[ix.sortedRows[i] as int].id
  {
    EntriesInOrder(ix, commits, i, i);
    RowId(ix, commits, ix.sortedRows[i])
  }

  /** Every entry before `right` of the new index is below the identifier. */
  ghost predicate AllBelow(ix: HistoryIndex, commits: seq<Commit>, right: nat, id: Id)
    requires Searchable(ix, commits)
  {
    right <= |ix.sortedRows| && forall k: nat :: k < right ==> Less(EntryId(ix, commits, k), id)
  }

  lemma BelowNext(ix: HistoryIndex, commits: seq<Commit>, right: nat, id: Id, id': Id)
    requires Searchable(ix, commits) && AllBelow(ix, commits, right, id) && AtMost(id, id')
    ensures AllBelow(ix, commits, right, id')
  {
    hide Searchable, EntryId;
    forall k: nat | k < right
      ensures Less(EntryId(ix, commits, k), id')
    {
      LessThenAtMost(EntryId(ix, commits, k), id, id');
    }
  }

  lemma LessThenAtMost(a: Id, b: Id, c: Id)
    requires Less(a, b) && AtMost(b, c)
    ensures Less(a, c)
  {
    LessTotal(b, c);
    if Less(b, c) {
      LessTransitive(a, b, c);
    }
    hide Less;
  }

  /** What the entry the merge stops at says about the identifier. */
  lemma MergeStop(ix: HistoryIndex, commits: seq<Commit>, q: Projection, right: nat, id: Id)
    requires Searchable(ix, commits) && Distinct(commits) && q.len <= U32_MAX
    requires AllBelow(ix, commits, right, id)
    requires right < |ix.sortedRows| ==> !Less(EntryId(ix, commits, right), id)
    ensures TargetOf(commits, q, id)
         == if right < |ix.sortedRows| && EntryId(ix, commits, right) == id
            then ShownTarget(q, ix.sortedRows[right] as int) else MISSING
  {
    if right < |ix.sortedRows| && EntryId(ix, commits, right) == id {
      LocatedIsLinearSearch(commits, id, Some(ix.sortedRows[right] as int));
    } else {
      forall row: nat | row < |commits|
        ensures commits[row].id != id
      {
        NotThisRow(ix, commits, right, id, row);
      }
      LocatedIsLinearSearch(commits, id, None);
    }
    hide Searchable, LinearSearch, ShownTarget, Less;
  }

  lemma NotThisRow(ix: HistoryIndex, commits: seq<Commit>, right: nat, id: Id, row: nat)
    requires Searchable(ix, commits) && AllBelow(ix, commits, right, id) && row < |commits|
    requires right < |ix.sortedRows| ==> !Less(EntryId(ix, commits, right), id) && EntryId(ix, commits, right) != id
    ensures commits[row].id != id
  {
    assert Listed(ix.sortedRows, row);
    var k: nat :| k < |ix.sortedRows| && ix.sortedRows[k] as int == row;
    LessTotal(EntryId(ix, commits, k), id);
    if right <= k {
      EntriesInOrder(ix, commits, right, k);
      LessTotal(EntryId(ix, commits, right), id);
      LessThenAtMost(id, EntryId(ix, commits, right), EntryId(ix, commits, k));
    } else {
      assert Less(EntryId(ix, commits, k), id);
    }
    hide Less, Searchable;
  }

  /** The first `i` sorted rows have their targets. */
  ghost predicate Joined(ix: HistoryIndex, commits: seq<Commit>, next: seq<Commit>, q: Projection, mapped: seq<u32>,
                         i: nat)
    requires q.len <= U32_MAX
  {
    && |mapped| == |commits| && RowsInRange(ix.sortedRows, commits) && i <= |ix.sortedRows|
    && forall k: nat :: k < i ==>
         mapped[ix.sortedRows[k] as int] == TargetOf(next, q, commits[ix.sortedRows[k] as int].id)
  }

  lemma JoinedStart(ix: HistoryIndex, commits: seq<Commit>, next: seq<Commit>, q: Projection, mapped: seq<u32>)
    requires Searchable(ix, commits) && |mapped| == |commits| && q.len <= U32_MAX
    ensures Joined(ix, commits, next, q, mapped, 0)
  {
  }

  lemma JoinedStep(ix: HistoryIndex, commits: seq<Commit>, next: seq<Commit>, q: Projection, mapped: seq<u32>, i: nat,
                   value: u32)
    requires Searchable(ix, commits) && q.len <= U32_MAX && Joined(ix, commits, next, q, mapped, i)
             && i < |ix.sortedRows|
    requires value == TargetOf(next, q, commits[ix.sortedRows[i] as int].id)
    ensures Joined(ix, commits, next, q, mapped[ix.sortedRows[i] as int := value], i + 1)
  {
    assert NoRepeats(ix.sortedRows);
    hide Searchable, TargetOf;
  }

  lemma JoinedEnd(ix: HistoryIndex, commits: seq<Commit>, next: seq<Commit>, q: Projection, mapped: seq<u32>)
    requires Searchable(ix, commits) && q.len <= U32_MAX && Joined(ix, commits, next, q, mapped, |ix.sortedRows|)
    ensures forall row: nat :: row < |commits| ==> mapped[row] == TargetOf(next, q, commits[row].id)
  {
    forall row: nat | row < |commits|
      ensures mapped[row] == TargetOf(next, q, commits[row].id)
    {
      assert Listed(ix.sortedRows, row);
      var k: nat :| k < |ix.sortedRows| && ix.sortedRows[k] as int == row;
    }
  }

  /** Advance to the first entry of the new index that is not below the identifier. */
  method Advance(next: HistoryIndex, ghost nextCommits: seq<Commit>, right0: nat, id: Id) returns (right: nat)
    requires Searchable(next, nextCommits) && AllBelow(next, nextCommits, right0, id)
    ensures AllBelow(next, nextCommits, right, id)
    ensures right < |next.sortedRows| ==> !Less(EntryId(next, nextCommits, right), id)
  {
    hide Searchable, EntryId, Less;
    right := right0;
    while right < |next.sortedRows| && Less(EntryId(next, nextCommits, right), id)
      invariant AllBelow(next, nextCommits, right, id)
    {
      right := right + 1;
    }
  }

  /** The target of one old row, given where the merge stopped. */
  method TargetHere(next: HistoryIndex, ghost nextCommits: seq<Commit>, q: Projection, right: nat, id: Id)
    returns (value: u32)
    requires Searchable(next, nextCommits) && Distinct(nextCommits) && q.Valid()
    requires AllBelow(next, nextCommits, right, id)
    requires right < |next.sortedRows| ==> !Less(EntryId(next, nextCommits, right), id)
    ensures value == TargetOf(nextCommits, q, id)
  {
    MergeStop(next, nextCommits, q, right, id);
    hide Searchable, TargetOf, Distinct, AllBelow, EntryId, Less;
    value := MISSING;
    if right < |next.sortedRows| && EntryId(next, nextCommits, right) == id {
      var v := VisiblePosition(q, next.sortedRows[right] as int);
      if v.Some? {
        VisibleFits(q, next.sortedRows[right] as int);
        value := v.value as u32;
      }
    }
  }

  /** Merge-join both indexes by identifier: every old row gets its target. */
  method JoinTargets(ix: HistoryIndex, ghost commits: seq<Commit>, next: HistoryIndex, ghost nextCommits: seq<Commit>,
                     q: Projection, n: nat, cancelled: nat -> bool) returns (ok: bool, check: nat, mapped: array<u32>)
    requires Searchable(ix, commits) && Searchable(next, nextCommits) && Distinct(nextCommits)
    requires q.Valid() && n == |commits|
    ensures fresh(mapped) && mapped.Length == n
    ensures (forall i :: !cancelled(i)) ==> ok
    ensures ok ==> forall row: nat :: row < n ==> mapped[row] == TargetOf(nextCommits, q, commits[row].id)
  {
    mapped := new u32[n](_ => MISSING);
    hide *;
    JoinSizes(q, |commits|);
    JoinedStart(ix, commits, nextCommits, q, mapped[..]);
    check := 0;
    var right: nat := 0;
    MergeStart(ix, commits, next, nextCommits);
    for i := 0 to |ix.sortedRows|
      invariant Behind(ix, commits, next, nextCommits, right, i)
      invariant Joined(ix, commits, nextCommits, q, mapped[..], i)
    {
      if i % CHECK_INTERVAL == 0 {
        if cancelled(check) {
          ok := false;
          return;
        }
        check := check + 1;
      }
      var id := EntryId(ix, commits, i);
      BehindNext(ix, commits, next, nextCommits, right, i);
      right := Advance(next, nextCommits, right, id);
      BehindHere(ix, commits, next, nextCommits, right, i);
      var value := TargetHere(next, nextCommits, q, right, id);
      ghost var before := mapped[..];
      JoinedStep(ix, commits, nextCommits, q, before, i, value);
      mapped[ix.sortedRows[i] as int] := value;
      assert mapped[..] == before[ix.sortedRows[i] as int := value];
    }
    JoinedEnd(ix, commits, nextCommits, q, mapped[..]);
    ok := true;
  }

  /** Where the merge stands before old entry `i`: it has passed only smaller identifiers. */
  ghost predicate Behind(ix: HistoryIndex, commits: seq<Commit>, next: HistoryIndex, nextCommits: seq<Commit>,
                         right: nat, i: nat)
    requires Searchable(ix, commits) && Searchable(next, nextCommits)
  {
    && i <= |ix.sortedRows|
    && if i == 0 then right == 0 else AllBelow(next, nextCommits, right, EntryId(ix, commits, i - 1))
  }

  lemma MergeStart(ix: HistoryIndex, commits: seq<Commit>, next: HistoryIndex, nextCommits: seq<Commit>)
    requires Searchable(ix, commits) && Searchable(next, nextCommits)
    ensures Behind(ix, commits, next, nextCommits, 0, 0)
  {
  }

  lemma BehindNext(ix: HistoryIndex, commits: seq<Commit>, next: HistoryIndex, nextCommits: seq<Commit>, right: nat,
                   i: nat)
    requires Searchable(ix, commits) && Searchable(next, nextCommits)
    requires i < |ix.sortedRows| && Behind(ix, commits, next, nextCommits, right, i)
    ensures AllBelow(next, nextCommits, right, EntryId(ix, commits, i))
  {
    hide Searchable, Less;
    if i > 0 {
      hide AllBelow;
      EntriesInOrder(ix, commits, i - 1, i);
      BelowNext(next, nextCommits, right, EntryId(ix, commits, i - 1), EntryId(ix, commits, i));
    }
  }

  lemma BehindHere(ix: HistoryIndex, commits: seq<Commit>, next: HistoryIndex, nextCommits: seq<Commit>, right: nat,
                   i: nat)
    requires Searchable(ix, commits) && Searchable(next, nextCommits) && i < |ix.sortedRows|
    requires AllBelow(next, nextCommits, right, EntryId(ix, commits, i))
    ensures Behind(ix, commits, next, nextCommits, right, i + 1)
  {
    hide Searchable, AllBelow;
  }

  lemma JoinSizes(q: Projection, n: nat)
    requires q.Valid()
    ensures q.len <= U32_MAX
  {
  }

  // ----- the whole map -----

  /** The targets of the old visible rows, in order. */
  ghost function VisibleTargets(commits: seq<Commit>, p: Projection, next: seq<Commit>, q: Projection): seq<u32>
    requires p.Valid() && p.len == |commits| && q.len <= U32_MAX
  {
    ShownAscends(p.hidden, p.len);
    seq(|Shown(p.hidden, p.len)|,
        v requires 0 <= v < |Shown(p.hidden, p.len)| && Shown(p.hidden, p.len)[v] < |commits| =>
      TargetOf(next, q, commits[Shown(p.hidden, p.len)[v]].id))
  }

  /** Keep the entries of shown rows only. */
  method RetainVisible(p: Projection, mapped: array<u32>) returns (kept: seq<u32>)
    requires p.Valid() && mapped.Length == p.len
    ensures |kept| == |Shown(p.hidden, p.len)|
    ensures forall v :: 0 <= v < |kept| ==>
              Shown(p.hidden, p.len)[v] < mapped.Length && kept[v] == mapped[Shown(p.hidden, p.len)[v]]
  {
    kept := [];
    for raw := 0 to mapped.Length
      invariant |kept| == |Shown(p.hidden, raw)|
      invariant forall v :: 0 <= v < |kept| ==>
                  Shown(p.hidden, raw)[v] < raw && kept[v] == mapped[Shown(p.hidden, raw)[v]]
    {
      var visible := VisiblePosition(p, raw);
      if visible.Some? {
        kept := kept + [mapped[raw]];
      }
    }
  }

  /** For every old visible row, where the view should be anchored after the refresh. */
  method NearestSurvivors(ix: HistoryIndex, ghost commits: seq<Commit>, p: Projection,
                          next: HistoryIndex, ghost nextCommits: seq<Commit>, q: Projection, cancelled: nat -> bool)
    returns (r: Option<seq<u32>>)
    requires Searchable(ix, commits) && Searchable(next, nextCommits) && Distinct(nextCommits)
    requires p.Valid() && p.len == |commits| && q.Valid()
    ensures (forall i :: !cancelled(i)) ==> r.Some?
    ensures r.Some? ==>
              var targets := VisibleTargets(commits, p, nextCommits, q);
              |r.value| == |targets| && forall v: nat :: v < |targets| ==> Anchored(targets, v, r.value[v])
  {
    var ok, check, raw := JoinTargets(ix, commits, next, nextCommits, q, p.len, cancelled);
    if !ok {
      return None;
    }
    var kept := RetainVisible(p, raw);
    ghost var targets := VisibleTargets(commits, p, nextCommits, q);
    hide Searchable, TargetOf, Shown, Anchored;
    var mapped := new u32[|kept|](v requires 0 <= v < |kept| => kept[v]);
    assert mapped[..] == kept;
    assert kept == targets;
    ok := FillGaps(mapped, cancelled, check);
    if !ok {
      return None;
    }
    r := Some(mapped[..]);
  }
}
