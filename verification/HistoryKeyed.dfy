/** Position lookup through the builder's sorted (prefix, row) cache. */
module HistoryKeyed {
  import opened Wrappers
  import opened Sorting
  import opened ByteOrder
  import opened HistoryTables
  import opened HistorySort
  import opened HistoryLookup

  /** Prefixes ascend along the cache. */
  lemma KeysAscend(ix: HistoryIndex, commits: seq<Commit>, keyed: seq<Keyed>, i: nat, j: nat)
    requires Searchable(ix, commits) && KeyedOk(keyed, ix.sortedRows, commits) && i <= j < |keyed|
    ensures keyed[i].0 <= keyed[j].0
  {
    if i < j {
      assert RowValue(commits, ix.sortedRows, i) <= RowValue(commits, ix.sortedRows, j);
      LeadingOrder(commits[ix.sortedRows[i] as int].id, commits[ix.sortedRows[j] as int].id, 8);
    }
  }

  /** The first entry of a slice whose prefix is not below `prefix`. */
  method FirstNotBelow(ix: HistoryIndex, ghost commits: seq<Commit>, keyed: seq<Keyed>, lo: nat, hi: nat, prefix: nat)
    returns (at: nat)
    requires Searchable(ix, commits) && KeyedOk(keyed, ix.sortedRows, commits) && lo <= hi <= |keyed|
    ensures lo <= at <= hi
    ensures forall i :: lo <= i < at ==> keyed[i].0 < prefix
    ensures forall i :: at <= i < hi ==> keyed[i].0 >= prefix
  {
    forall i: nat, j: nat | i <= j < |keyed|
      ensures keyed[i].0 <= keyed[j].0
    {
      KeysAscend(ix, commits, keyed, i, j);
    }
    hide *;
    var below := (i: nat) requires lo + i < |keyed| => keyed[lo + i].0 < prefix;
    var first := PartitionPoint(hi - lo, below);
    at := lo + first;
    forall i | lo <= i < at
      ensures keyed[i].0 < prefix
    {
      assert below(i - lo);
    }
    forall i | at <= i < hi
      ensures keyed[i].0 >= prefix
    {
      assert !below(i - lo);
    }
  }

  /** The first entry of a slice of prefixes at least `prefix` that is not equal to it. */
  method FirstNotEqual(ix: HistoryIndex, ghost commits: seq<Commit>, keyed: seq<Keyed>, lo: nat, hi: nat, prefix: nat)
    returns (at: nat)
    requires Searchable(ix, commits) && KeyedOk(keyed, ix.sortedRows, commits) && lo <= hi <= |keyed|
    requires forall i :: lo <= i < hi ==> keyed[i].0 >= prefix
    ensures lo <= at <= hi
    ensures forall i :: at <= i < hi ==> keyed[i].0 != prefix
  {
    forall i: nat, j: nat | i <= j < |keyed|
      ensures keyed[i].0 <= keyed[j].0
    {
      KeysAscend(ix, commits, keyed, i, j);
    }
    hide *;
    var same := (i: nat) requires lo + i < |keyed| => keyed[lo + i].0 == prefix;
    var len := PartitionPoint(hi - lo, same);
    at := lo + len;
    forall i | at <= i < hi
      ensures keyed[i].0 != prefix
    {
      assert !same(i - lo);
    }
  }

  /** Narrow to the bucket, then to the run of equal prefixes, then search whole identifiers. */
  method PositionInKeyed(ix: HistoryIndex, ghost commits: seq<Commit>, keyed: seq<Keyed>, id: Id)
    returns (r: Option<nat>)
    requires Searchable(ix, commits) && KeyedOk(keyed, ix.sortedRows, commits)
    requires ix.fanout != [] && |id| == ix.hashLen
    ensures Located(commits, id, r)
  {
    var prefix := KeyOf(id);
    LongEnough(ix, commits);
    BucketOfKey(id);
    var bucket := prefix / 0x1_0000_0000_0000;
    FanoutSlices(ix, commits, id);
    var lo, hi := ix.fanout[bucket] as int, ix.fanout[bucket + 1] as int;
    RunBounds(ix, commits, keyed, id, lo, hi);
    hide Searchable, KeyedOk, BucketSlice;
    var first := FirstNotBelow(ix, commits, keyed, lo, hi, prefix);
    var end := FirstNotEqual(ix, commits, keyed, first, hi, prefix);
    RunSlice(ix, commits, keyed, id, lo, hi, first, end);
    r := SearchSlice(ix, commits, id, first, end);
  }

  lemma LongEnough(ix: HistoryIndex, commits: seq<Commit>)
    requires Searchable(ix, commits)
    ensures ix.hashLen >= 8
  {
  }

  lemma RunBounds(ix: HistoryIndex, commits: seq<Commit>, keyed: seq<Keyed>, id: Id, lo: nat, hi: nat)
    requires BucketSlice(ix, commits, id, lo, hi) && KeyedOk(keyed, ix.sortedRows, commits)
    ensures lo <= hi <= |keyed|
  {
  }

  /** Only the run of equal prefixes can hold the identifier. */
  lemma RunSlice(ix: HistoryIndex, commits: seq<Commit>, keyed: seq<Keyed>, id: Id, lo: nat, hi: nat, first: nat,
                 end: nat)
    requires BucketSlice(ix, commits, id, lo, hi) && KeyedOk(keyed, ix.sortedRows, commits)
    requires lo <= first <= end <= hi <= |keyed|
    requires forall i :: lo <= i < first ==> keyed[i].0 < KeyOf(id)
    requires forall i :: end <= i < hi ==> keyed[i].0 != KeyOf(id)
    ensures BucketSlice(ix, commits, id, first, end)
  {
    hide KeyOf;
    forall i: nat | i < |ix.sortedRows| && commits[ix.sortedRows[i] as int].id == id
      ensures first <= i < end
    {
      assert keyed[i].0 == KeyOf(id);
    }
  }
}
