/** The tables of a commit-history index, and what it means for them to represent a list of commits. */
module HistoryTables {
  import opened Machine
  import opened Sorting
  import opened ByteOrder

  type Id = seq<byte>

  const MISSING_PARENT: u32 := 0xFFFF_FFFF
  const FANOUT_THRESHOLD: nat := 65_536
  const BUCKETS: nat := 65_536

  /** A commit as it was pushed. */
  datatype Commit = Commit(id: Id, parents: seq<Id>, probableStash: bool)

  // ----- flat tables of fixed-length identifiers -----

  /** The `r`-th identifier of a flat table. */
  function Chunk(bytes: seq<byte>, h: nat, r: nat): Id
    requires (r + 1) * h <= |bytes|
  {
    bytes[r * h..(r + 1) * h]
  }

  /** `bytes` holds exactly these identifiers, one after the other. */
  ghost predicate Holds(bytes: seq<byte>, h: nat, list: seq<Id>) {
    && |bytes| == |list| * h
    && forall r: nat :: r < |list| ==> HoldsAt(bytes, h, r, list[r])
  }

  ghost predicate HoldsAt(bytes: seq<byte>, h: nat, r: nat, id: Id) {
    (r + 1) * h <= |bytes| && Chunk(bytes, h, r) == id && |id| == h
  }

  lemma RowsFit(r: nat, n: nat, h: nat)
    requires r < n
    ensures (r + 1) * h <= n * h && r * h + h == (r + 1) * h
  {
    TimesAtMost(r + 1, n, h);
  }

  lemma HoldsPush(bytes: seq<byte>, h: nat, list: seq<Id>, id: Id)
    requires Holds(bytes, h, list) && |id| == h
    ensures Holds(bytes + id, h, list + [id])
  {
    var bytes', list' := bytes + id, list + [id];
    RowsFit(|list|, |list| + 1, h);
    forall r: nat | r < |list'|
      ensures HoldsAt(bytes', h, r, list'[r])
    {
      RowsFit(r, |list'|, h);
      if r < |list| {
        assert HoldsAt(bytes, h, r, list[r]);
        RowsFit(r, |list|, h);
        assert bytes'[r * h..(r + 1) * h] == bytes[r * h..(r + 1) * h];
      } else {
        assert bytes'[|bytes|..|bytes| + h] == id;
      }
    }
  }

  // ----- edges -----

  /** All parent identifiers, commit by commit. */
  ghost function EdgeIds(commits: seq<Commit>): seq<Id> {
    if commits == [] then [] else EdgeIds(commits[..|commits| - 1]) + commits[|commits| - 1].parents
  }

  ghost function EdgesBefore(commits: seq<Commit>, r: nat): nat
    requires r <= |commits|
  {
    |EdgeIds(commits[..r])|
  }

  lemma EdgesPush(commits: seq<Commit>, c: Commit)
    ensures EdgeIds(commits + [c]) == EdgeIds(commits) + c.parents
    ensures forall r: nat :: r <= |commits| ==> EdgesBefore(commits + [c], r) == EdgesBefore(commits, r)
    ensures EdgesBefore(commits + [c], |commits| + 1) == EdgesBefore(commits, |commits|) + |c.parents|
  {
    assert (commits + [c])[..|commits|] == commits;
    assert (commits + [c])[..|commits| + 1] == commits + [c];
    assert commits[..|commits|] == commits;
    forall r: nat | r <= |commits|
      ensures (commits + [c])[..r] == commits[..r]
    {
    }
  }

  /** Where the edges of row `r` lie among all edges. */
  lemma {:induction false} EdgeAt(commits: seq<Commit>, r: nat, p: nat)
    requires r < |commits|
    ensures EdgesBefore(commits, r + 1) == EdgesBefore(commits, r) + |commits[r].parents| <= |EdgeIds(commits)|
    ensures p < |commits[r].parents| ==>
              var e := EdgesBefore(commits, r) + p;
              e < |EdgeIds(commits)| && EdgeIds(commits)[e] == commits[r].parents[p]
    decreases |commits|
  {
    var front, last := commits[..|commits| - 1], commits[|commits| - 1];
    assert commits == front + [last];
    EdgesPush(front, last);
    if r < |front| {
      EdgeAt(front, r, p);
      hide EdgeIds;
      assert commits[..r] == front[..r] && commits[..r + 1] == front[..r + 1];
    }
  }

  // ----- the index -----

  datatype HistoryIndex = HistoryIndex(
    hashLen: nat, ids: seq<byte>, sortedRows: seq<u32>, parentOffsets: seq<u32>, parents: seq<u32>,
    externalEdges: seq<u32>, externalIds: seq<byte>, fanout: seq<u32>, probableStashes: seq<u32>)

  ghost function Ids(commits: seq<Commit>): seq<Id> {
    seq(|commits|, r requires 0 <= r < |commits| => commits[r].id)
  }

  /** The parent-offset table: row r's edges start at offset r. */
  ghost predicate OffsetsOk(offsets: seq<u32>, commits: seq<Commit>) {
    && |offsets| == |commits| + 1
    && forall r: nat :: r <= |commits| ==> offsets[r] as int == EdgesBefore(commits, r)
  }

  ghost predicate Lengths(h: nat, commits: seq<Commit>) {
    forall r :: 0 <= r < |commits| ==> |commits[r].id| == h
  }

  /** The value of the identifier a sorted entry refers to. */
  ghost function RowValue(commits: seq<Commit>, rows: seq<u32>, i: nat): nat
    requires i < |rows| && rows[i] as int < |commits|
  {
    Value(commits[rows[i] as int].id)
  }

  ghost predicate RowsInRange(rows: seq<u32>, commits: seq<Commit>) {
    forall i: nat :: i < |rows| ==> rows[i] as int < |commits|
  }

  ghost predicate Listed(rows: seq<u32>, r: nat) {
    exists i: nat :: i < |rows| && rows[i] as int == r
  }

  /** Every row once, in order of identifier. */
  ghost predicate SortedRows(rows: seq<u32>, commits: seq<Commit>) {
    && |rows| == |commits| && RowsInRange(rows, commits)
    && NoRepeats(rows)
    && (forall r: nat :: r < |commits| ==> Listed(rows, r))
    && (forall i: nat, j: nat :: i < j < |rows| ==> RowValue(commits, rows, i) <= RowValue(commits, rows, j))
  }

  // ----- the fanout table -----

  /** The two-byte leading value of each sorted entry. */
  ghost function Buckets(rows: seq<u32>, commits: seq<Commit>): seq<nat>
    requires RowsInRange(rows, commits)
  {
    seq(|rows|, i requires 0 <= i < |rows| => Bucket(commits[rows[i] as int].id))
  }

  /** `u16::from_be_bytes([id[0], id[1]])`. */
  function Bucket(id: Id): nat {
    if |id| < 2 then 0 else Value(id[..2])
  }

  /** How many entries lie in a bucket below `k`. */
  ghost function CountBelow(buckets: seq<nat>, k: nat): nat {
    if buckets == [] then 0
    else CountBelow(buckets[..|buckets| - 1], k) + if buckets[|buckets| - 1] < k then 1 else 0
  }

  lemma {:induction false} CountAtMost(buckets: seq<nat>, k: nat)
    ensures CountBelow(buckets, k) <= |buckets|
  {
    if buckets != [] {
      CountAtMost(buckets[..|buckets| - 1], k);
    }
  }

  ghost predicate Ascending(buckets: seq<nat>) {
    forall i, j :: 0 <= i < j < |buckets| ==> buckets[i] <= buckets[j]
  }

  /** In an ascending list the entries below `k` are exactly the first ones. */
  lemma {:induction false} BelowComeFirst(buckets: seq<nat>, k: nat, i: nat)
    requires Ascending(buckets) && i < |buckets|
    ensures buckets[i] < k <==> i < CountBelow(buckets, k)
  {
    var front := buckets[..|buckets| - 1];
    CountAtMost(front, k);
    if i < |front| {
      BelowComeFirst(front, k, i);
      if buckets[|front|] < k {
        AllBelow(buckets, k);
      }
    } else if buckets[i] < k {
      AllBelow(buckets, k);
    }
  }

  lemma {:induction false} AllBelow(buckets: seq<nat>, k: nat)
    requires Ascending(buckets) && buckets != [] && buckets[|buckets| - 1] < k
    ensures CountBelow(buckets, k) == |buckets|
  {
    var front := buckets[..|buckets| - 1];
    if front != [] {
      assert front[|front| - 1] <= buckets[|buckets| - 1];
      AllBelow(front, k);
    }
  }

  lemma BucketsAscend(rows: seq<u32>, commits: seq<Commit>, h: nat)
    requires SortedRows(rows, commits) && Lengths(h, commits) && h >= 2
    ensures Ascending(Buckets(rows, commits))
    ensures forall i :: 0 <= i < |rows| ==> Buckets(rows, commits)[i] < BUCKETS
  {
    hide Value;
    var buckets := Buckets(rows, commits);
    forall i, j | 0 <= i < j < |buckets|
      ensures buckets[i] <= buckets[j]
    {
      assert RowValue(commits, rows, i) <= RowValue(commits, rows, j);
      LeadingOrder(commits[rows[i] as int].id, commits[rows[j] as int].id, 2);
    }
    forall i | 0 <= i < |rows|
      ensures buckets[i] < BUCKETS
    {
      BucketFits(commits[rows[i] as int].id);
    }
  }

  lemma BucketFits(id: Id)
    ensures Bucket(id) < BUCKETS
  {
    assert Pow256(2) == 65_536 by {
      assert Pow256(0) == 1;
      assert Pow256(1) == 256;
    }
  }

  /** Empty for small histories, else 65,537 prefix sums over the buckets. */
  ghost predicate FanoutOk(fanout: seq<u32>, rows: seq<u32>, commits: seq<Commit>)
    requires RowsInRange(rows, commits)
  {
    if |commits| < FANOUT_THRESHOLD then fanout == []
    else
      && |fanout| == BUCKETS + 1
      && forall k: nat :: k <= BUCKETS ==> fanout[k] as int == CountBelow(Buckets(rows, commits), k)
  }

  // ----- resolved parents -----

  /** A row number for an indexed parent, the missing mark for an external one. */
  ghost predicate ParentOk(commits: seq<Commit>, id: Id, rank: u32) {
    if rank == MISSING_PARENT then forall r: nat :: r < |commits| ==> commits[r].id != id
    else rank as int < |commits| && commits[rank as int].id == id
  }

  ghost predicate ParentsOk(parents: seq<u32>, edges: seq<Id>, commits: seq<Commit>) {
    |parents| == |edges| && forall e: nat :: e < |edges| ==> ParentOk(commits, edges[e], parents[e])
  }

  ghost function ExternalIds(external: seq<u32>, edges: seq<Id>): seq<Id>
    requires forall x :: 0 <= x < |external| ==> external[x] as int < |edges|
  {
    seq(|external|, x requires 0 <= x < |external| => edges[external[x] as int])
  }

  /** The external edges, ascending, and their identifiers in the same order. */
  ghost predicate ExternalOk(external: seq<u32>, bytes: seq<byte>, h: nat, parents: seq<u32>, edges: seq<Id>) {
    && (forall x :: 0 <= x < |external| ==> external[x] as int < |edges|)
    && (forall x, y :: 0 <= x < y < |external| ==> external[x] < external[y])
    && |parents| <= |edges|
    && (forall e: nat :: e < |parents| && parents[e] == MISSING_PARENT ==>
          exists x :: 0 <= x < |external| && external[x] as int == e)
    && Holds(bytes, h, ExternalIds(external, edges))
  }

  /** Identifiers, sorted rows and fanout table say what was pushed: enough to look commits up. */
  ghost predicate Searchable(ix: HistoryIndex, commits: seq<Commit>) {
    && (ix.hashLen == 20 || ix.hashLen == 32)
    && |commits| <= U32_MAX
    && Lengths(ix.hashLen, commits)
    && Holds(ix.ids, ix.hashLen, Ids(commits))
    && SortedRows(ix.sortedRows, commits)
    && FanoutOk(ix.fanout, ix.sortedRows, commits)
  }

  /** All tables say exactly what was pushed. */
  ghost predicate Represents(ix: HistoryIndex, commits: seq<Commit>) {
    && Searchable(ix, commits)
    && |EdgeIds(commits)| <= U32_MAX
    && OffsetsOk(ix.parentOffsets, commits)
    && ParentsOk(ix.parents, EdgeIds(commits), commits)
    && ExternalOk(ix.externalEdges, ix.externalIds, ix.hashLen, ix.parents, EdgeIds(commits))
  }
}
