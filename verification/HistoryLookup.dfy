module HistoryLookup {
  // Queries over a finished commit-history index.

  import opened Machine
  import opened Wrappers
  import opened Sorting
  import opened ByteOrder
  import opened HistoryTables

  function Compare(a: Id, b: Id): Ordering {
    if Less(a, b) then Lesser else if Less(b, a) then Greater else Same
  }

  lemma CompareIsValue(a: Id, b: Id)
    requires |a| == |b|
    ensures Compare(a, b).Lesser? <==> Value(a) < Value(b)
    ensures Compare(a, b).Greater? <==> Value(a) > Value(b)
    ensures Compare(a, b).Same? <==> a == b
  {
    LessIsValue(a, b);
    LessIsValue(b, a);
    hide Less, Value;
  }

  /** What a position lookup must answer. */
  ghost predicate Located(commits: seq<Commit>, id: Id, r: Option<nat>) {
    match r
    case Some(row) => row < |commits| && commits[row].id == id
    case None => forall row: nat :: row < |commits| ==> commits[row].id != id
  }

  ghost predicate Distinct(commits: seq<Commit>) {
    forall r, s :: 0 <= r < s < |commits| ==> commits[r].id != commits[s].id
  }

  /** The first row with an identifier, by walking the pushed list. */
  function LinearSearch(commits: seq<Commit>, id: Id): Option<nat> {
    if commits == [] then None
    else
      var front := commits[..|commits| - 1];
      var found := LinearSearch(front, id);
      if found.Some? then found else if commits[|front|].id == id then Some(|front|) else None
  }

  lemma {:induction false} LinearSearchLocates(commits: seq<Commit>, id: Id)
    ensures Located(commits, id, LinearSearch(commits, id))
  {
    if commits != [] {
      LinearSearchLocates(commits[..|commits| - 1], id);
    }
  }

  /** With distinct identifiers there is one right answer, and the linear search gives it. */
  lemma LocatedIsLinearSearch(commits: seq<Commit>, id: Id, r: Option<nat>)
    requires Distinct(commits) && Located(commits, id, r)
    ensures r == LinearSearch(commits, id)
  {
    LinearSearchLocates(commits, id);
    hide LinearSearch;
  }

  // ----- reading identifiers -----

  /** The identifier of a row, or nothing past the last one. */
  method IdBytes(ix: HistoryIndex, ghost commits: seq<Commit>, row: nat) returns (r: Option<Id>)
    requires Searchable(ix, commits)
    ensures r == if row < |commits| then Some(commits[row].id) else None
  {
    RowSpan(row, ix.hashLen);
    ghost var ids := Ids(commits);
    if row < |ids| {
      assert HoldsAt(ix.ids, ix.hashLen, row, ids[row]);
    } else {
      RowsFit(|ids|, row + 1, ix.hashLen);
    }
    if (row + 1) * ix.hashLen <= |ix.ids| {
      r := Some(ix.ids[row * ix.hashLen..(row + 1) * ix.hashLen]);
    } else {
      r := None;
    }
  }

  lemma RowSpan(row: nat, h: nat)
    ensures row * h + h == (row + 1) * h
  {
  }

  /** Identifier of an indexed row. */
  function RowId(ix: HistoryIndex, ghost commits: seq<Commit>, row: u32): (id: Id)
    requires Searchable(ix, commits) && row as int < |commits|
    ensures id == commits[row as int].id && |id| == ix.hashLen
  {
    assert HoldsAt(ix.ids, ix.hashLen, row as int, Ids(commits)[row as int]);
    Chunk(ix.ids, ix.hashLen, row as int)
  }

  // ----- positions -----

  /** Search rows that are in identifier order. */
  method SearchRows(ix: HistoryIndex, ghost commits: seq<Commit>, rows: seq<u32>, id: Id) returns (r: Option<nat>)
    requires Searchable(ix, commits) && |id| == ix.hashLen && RowsInRange(rows, commits)
    requires forall i: nat, j: nat :: i < j < |rows| ==> RowValue(commits, rows, i) <= RowValue(commits, rows, j)
    ensures r.Some? ==> r.value < |commits| && commits[r.value].id == id
    ensures r.None? ==> forall i :: 0 <= i < |rows| ==> commits[rows[i] as int].id != id
  {
    hide Searchable, Compare;
    var cmp := (i: nat) requires i < |rows| && Searchable(ix, commits) && rows[i] as int < |commits| =>
        Compare(RowId(ix, commits, rows[i]), id);
    forall i: nat | i < |rows|
      ensures cmp(i).Lesser? <==> RowValue(commits, rows, i) < Value(id)
      ensures cmp(i).Greater? <==> RowValue(commits, rows, i) > Value(id)
      ensures cmp(i).Same? <==> commits[rows[i] as int].id == id
    {
      CompareIsValue(RowId(ix, commits, rows[i]), id);
    }
    var at := BinarySearchBy(|rows|, cmp);
    if at.Some? {
      r := Some(rows[at.value] as int);
    } else {
      r := None;
    }
  }

  /** The slice of the sorted rows that can hold an identifier. */
  ghost predicate BucketSlice(ix: HistoryIndex, commits: seq<Commit>, id: Id, lo: nat, hi: nat) {
    && lo <= hi <= |ix.sortedRows| && RowsInRange(ix.sortedRows, commits)
    && forall i: nat :: i < |ix.sortedRows| && commits[ix.sortedRows[i] as int].id == id ==> lo <= i < hi
  }

  lemma FanoutSlices(ix: HistoryIndex, commits: seq<Commit>, id: Id)
    requires Searchable(ix, commits) && |id| == ix.hashLen && ix.fanout != []
    ensures var k := Bucket(id);
            && k + 1 < |ix.fanout|
            && BucketSlice(ix, commits, id, ix.fanout[k] as int, ix.fanout[k + 1] as int)
  {
    var buckets := Buckets(ix.sortedRows, commits);
    BucketsAscend(ix.sortedRows, commits, ix.hashLen);
    BucketFits(id);
    var k := Bucket(id);
    CountAtMost(buckets, k + 1);
    CountMonotone(buckets, k);
    forall i: nat | i < |ix.sortedRows| && commits[ix.sortedRows[i] as int].id == id
      ensures ix.fanout[k] as int <= i < ix.fanout[k + 1] as int
    {
      BelowComeFirst(buckets, k, i);
      BelowComeFirst(buckets, k + 1, i);
    }
    hide CountBelow, Bucket, Value;
  }

  lemma {:induction false} CountMonotone(buckets: seq<nat>, k: nat)
    ensures CountBelow(buckets, k) <= CountBelow(buckets, k + 1)
  {
    if buckets != [] {
      CountMonotone(buckets[..|buckets| - 1], k);
    }
  }

  /** Where an identifier is, with or without the fanout table. */
  method PositionBytes(ix: HistoryIndex, ghost commits: seq<Commit>, id: Id) returns (r: Option<nat>)
    requires Searchable(ix, commits)
    ensures Located(commits, id, r)
  {
    if |id| != ix.hashLen {
      WrongLength(ix, commits, id);
      return None;
    }
    var lo, hi := 0, |ix.sortedRows|;
    AllRows(ix, commits, id);
    if ix.fanout != [] {
      var prefix := Bucket(id);
      FanoutSlices(ix, commits, id);
      lo, hi := ix.fanout[prefix] as int, ix.fanout[prefix + 1] as int;
    }
    r := SearchSlice(ix, commits, id, lo, hi);
  }

  lemma WrongLength(ix: HistoryIndex, commits: seq<Commit>, id: Id)
    requires Searchable(ix, commits) && |id| != ix.hashLen
    ensures Located(commits, id, None)
  {
  }

  lemma AllRows(ix: HistoryIndex, commits: seq<Commit>, id: Id)
    requires Searchable(ix, commits)
    ensures BucketSlice(ix, commits, id, 0, |ix.sortedRows|)
  {
  }

  method SearchSlice(ix: HistoryIndex, ghost commits: seq<Commit>, id: Id, lo: nat, hi: nat) returns (r: Option<nat>)
    requires Searchable(ix, commits) && |id| == ix.hashLen && BucketSlice(ix, commits, id, lo, hi)
    ensures Located(commits, id, r)
  {
    var rows := ix.sortedRows[lo..hi];
    SliceOrdered(ix, commits, lo, hi);
    r := SearchRows(ix, commits, rows, id);
    if r.None? {
      NotInSlice(ix, commits, id, lo, hi);
    }
  }

  lemma SliceOrdered(ix: HistoryIndex, commits: seq<Commit>, lo: nat, hi: nat)
    requires Searchable(ix, commits) && lo <= hi <= |ix.sortedRows|
    ensures var rows := ix.sortedRows[lo..hi];
            && RowsInRange(rows, commits)
            && forall i: nat, j: nat :: i < j < |rows| ==> RowValue(commits, rows, i) <= RowValue(commits, rows, j)
  {
    var rows := ix.sortedRows[lo..hi];
    forall i: nat, j: nat | i < j < |rows|
      ensures RowValue(commits, rows, i) <= RowValue(commits, rows, j)
    {
      assert RowValue(commits, ix.sortedRows, lo + i) <= RowValue(commits, ix.sortedRows, lo + j);
    }
  }

  lemma SliceEntry(ix: HistoryIndex, lo: nat, hi: nat, i: nat)
    requires lo <= i < hi <= |ix.sortedRows|
    ensures ix.sortedRows[lo..hi][i - lo] == ix.sortedRows[i]
  {
  }

  lemma NotInSlice(ix: HistoryIndex, commits: seq<Commit>, id: Id, lo: nat, hi: nat)
    requires Searchable(ix, commits) && BucketSlice(ix, commits, id, lo, hi)
    requires forall i :: 0 <= i < hi - lo ==> commits[ix.sortedRows[lo..hi][i] as int].id != id
    ensures Located(commits, id, None)
  {
    forall row: nat | row < |commits|
      ensures commits[row].id != id
    {
      assert Listed(ix.sortedRows, row);
      var i: nat :| i < |ix.sortedRows| && ix.sortedRows[i] as int == row;
      if commits[row].id == id {
        SliceEntry(ix, lo, hi, i);
      }
    }
  }

  // ----- parents -----

  /** The parent ranks of a row, or nothing past the last row. */
  function Parents(ix: HistoryIndex, ghost commits: seq<Commit>, row: nat): (ranks: seq<u32>)
    requires Represents(ix, commits)
    ensures |ranks| == if row < |commits| then |commits[row].parents| else 0
    ensures forall p: nat :: p < |ranks| ==> ParentOk(commits, commits[row].parents[p], ranks[p])
  {
    if row + 1 < |ix.parentOffsets| then
      OffsetsFit(ix, commits, row);
      RanksResolve(ix, commits, row);
      ix.parents[ix.parentOffsets[row] as int..ix.parentOffsets[row + 1] as int]
    else []
  }

  /** The ranks between a row's offsets stand for the parents pushed with it. */
  lemma RanksResolve(ix: HistoryIndex, commits: seq<Commit>, row: nat)
    requires Represents(ix, commits) && row < |commits|
    ensures row + 1 < |ix.parentOffsets|
    ensures var from, to := ix.parentOffsets[row] as int, ix.parentOffsets[row + 1] as int;
            && from <= to <= |ix.parents| && to - from == |commits[row].parents|
            && var ranks := ix.parents[from..to];
            forall p: nat :: p < |ranks| ==> ParentOk(commits, commits[row].parents[p], ranks[p])
  {
    hide ParentOk, Searchable, ExternalOk, Holds, EdgeIds;
    OffsetsFit(ix, commits, row);
    var from, to := ix.parentOffsets[row] as int, ix.parentOffsets[row + 1] as int;
    forall p: nat | p < to - from
      ensures ParentOk(commits, commits[row].parents[p], ix.parents[from..to][p])
    {
      EdgeAt(commits, row, p);
      RankOk(ix, commits, from + p);
    }
  }

  lemma OffsetsFit(ix: HistoryIndex, commits: seq<Commit>, row: nat)
    requires Represents(ix, commits) && row < |commits|
    ensures ix.parentOffsets[row + 1] as int == ix.parentOffsets[row] as int + |commits[row].parents| <= |ix.parents|
  {
    EdgeAt(commits, row, 0);
    hide EdgeIds, Searchable, ExternalOk, Holds;
  }

  /** A row's ranks are the resolved edges of that row. */
  lemma ParentIs(ix: HistoryIndex, commits: seq<Commit>, row: nat, p: nat)
    requires Represents(ix, commits) && row < |commits| && p < |commits[row].parents|
    ensures var e := ix.parentOffsets[row] as int + p;
            && e < |ix.parents| && Parents(ix, commits, row)[p] == ix.parents[e]
            && e < |EdgeIds(commits)| && EdgeIds(commits)[e] == commits[row].parents[p]
            && ParentOk(commits, EdgeIds(commits)[e], ix.parents[e])
  {
    hide *;
    RanksAre(ix, commits, row);
    EdgeAt(commits, row, p);
    RankOk(ix, commits, ix.parentOffsets[row] as int + p);
  }

  lemma RanksAre(ix: HistoryIndex, commits: seq<Commit>, row: nat)
    requires Represents(ix, commits) && row < |commits|
    ensures row + 1 < |ix.parentOffsets| && ix.parentOffsets[row] as int == EdgesBefore(commits, row)
    ensures var from := ix.parentOffsets[row] as int;
            && from + |commits[row].parents| <= |ix.parents| == |EdgeIds(commits)|
            && Parents(ix, commits, row) == ix.parents[from..from + |commits[row].parents|]
  {
    OffsetsFit(ix, commits, row);
    hide EdgeIds, EdgesBefore, Searchable, ExternalOk, Holds, ParentOk;
  }

  lemma RankOk(ix: HistoryIndex, commits: seq<Commit>, e: nat)
    requires Represents(ix, commits) && e < |EdgeIds(commits)|
    ensures e < |ix.parents| && ParentOk(commits, EdgeIds(commits)[e], ix.parents[e])
  {
    hide EdgeIds, Searchable, ExternalOk, Holds, ParentOk, OffsetsOk;
  }

  /** The parent of a row exactly as it was pushed, whether or not it is an indexed commit. */
  method ParentIdBytes(ix: HistoryIndex, ghost commits: seq<Commit>, row: nat, parent: nat) returns (r: Option<Id>)
    requires Represents(ix, commits)
    ensures r == if row < |commits| && parent < |commits[row].parents| then Some(commits[row].parents[parent]) else None
  {
    hide Represents;
    Searching(ix, commits);
    var ranks := Parents(ix, commits, row);
    if parent >= |ranks| {
      return None;
    }
    var rank := ranks[parent];
    OffsetKnown(ix, commits);
    var edge := ix.parentOffsets[row] as int + parent;
    ParentIs(ix, commits, row, parent);
    if rank != MISSING_PARENT {
      return Some(RowId(ix, commits, rank));
    }
    r := ExternalId(ix, commits, edge);
  }

  lemma Searching(ix: HistoryIndex, commits: seq<Commit>)
    requires Represents(ix, commits)
    ensures Searchable(ix, commits)
  {
  }

  lemma OffsetKnown(ix: HistoryIndex, commits: seq<Commit>)
    requires Represents(ix, commits)
    ensures |ix.parentOffsets| == |commits| + 1
  {
  }

  /** The identifier of an edge that leaves the index. */
  method ExternalId(ix: HistoryIndex, ghost commits: seq<Commit>, edge: nat) returns (r: Option<Id>)
    requires Represents(ix, commits) && edge < |ix.parents| && ix.parents[edge] == MISSING_PARENT
    ensures r == Some(EdgeIds(commits)[edge])
  {
    hide OffsetsOk, ParentsOk, EdgeIds, SortedRows, FanoutOk;
    var edges := ix.externalEdges;
    assert ix.parents[edge] == MISSING_PARENT && |ix.parents| == |EdgeIds(commits)| by { RankPerEdge(ix, commits); }
    var cmp := (i: nat) requires i < |edges| =>
        if edges[i] as int < edge then Lesser else if edges[i] as int > edge then Greater else Same;
    var at := BinarySearchBy(|edges|, cmp);
    ghost var x :| 0 <= x < |edges| && edges[x] as int == edge;
    assert cmp(x).Same?;
    ghost var list := ExternalIds(ix.externalEdges, EdgeIds(commits));
    assert HoldsAt(ix.externalIds, ix.hashLen, at.value, list[at.value]);
    r := Some(Chunk(ix.externalIds, ix.hashLen, at.value));
  }

  lemma RankPerEdge(ix: HistoryIndex, commits: seq<Commit>)
    requires Represents(ix, commits)
    ensures |ix.parents| == |EdgeIds(commits)|
  {
  }
}
