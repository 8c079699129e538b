/** Sorting the rows of a history index, and its fanout table. */
module HistorySort {
  import opened Machine
  import opened Sorting
  import opened ByteOrder
  import opened HistoryTables

  /** `&ids[row * hash_len..(row + 1) * hash_len]`. */
  function IdAt(ids: seq<byte>, h: nat, row: u32): Id {
    if (row as int + 1) * h <= |ids| then Chunk(ids, h, row as int) else []
  }

  lemma IdAtIs(ids: seq<byte>, h: nat, commits: seq<Commit>, row: u32)
    requires Holds(ids, h, Ids(commits)) && row as int < |commits|
    ensures IdAt(ids, h, row) == commits[row as int].id && |commits[row as int].id| == h
  {
    assert HoldsAt(ids, h, row as int, Ids(commits)[row as int]);
  }

  function RowRange(n: nat): (rows: seq<u32>)
    requires n <= U32_MAX
    ensures |rows| == n && forall i :: 0 <= i < n ==> rows[i] as int == i
  {
    seq(n, i requires 0 <= i < n => i as u32)
  }

  predicate RowsInOrder(ids: seq<byte>, h: nat, a: u32, b: u32) {
    AtMost(IdAt(ids, h, a), IdAt(ids, h, b))
  }

  lemma RowOrderTotal(ids: seq<byte>, h: nat)
    ensures TotalPreorder((a: u32, b: u32) => RowsInOrder(ids, h, a, b))
  {
    hide IdAt;
    var leq := (a: u32, b: u32) => RowsInOrder(ids, h, a, b);
    forall a: u32, b: u32
      ensures leq(a, b) || leq(b, a)
    {
      LessTotal(IdAt(ids, h, a), IdAt(ids, h, b));
    }
    forall a: u32, b: u32, c: u32 | leq(a, b) && leq(b, c)
      ensures leq(a, c)
    {
      AtMostTransitive(IdAt(ids, h, a), IdAt(ids, h, b), IdAt(ids, h, c));
    }
  }

  /** Rows in identifier order are in value order. */
  lemma OrderIsValue(ids: seq<byte>, h: nat, commits: seq<Commit>, a: u32, b: u32)
    requires Holds(ids, h, Ids(commits)) && a as int < |commits| && b as int < |commits|
    ensures RowsInOrder(ids, h, a, b) <==> Value(commits[a as int].id) <= Value(commits[b as int].id)
  {
    IdAtIs(ids, h, commits, a);
    IdAtIs(ids, h, commits, b);
    hide IdAt, Less, Value, Holds;
    LessIsValue(commits[b as int].id, commits[a as int].id);
  }

  lemma RowsPermuted(rows: seq<u32>, n: nat)
    requires n <= U32_MAX && multiset(rows) == multiset(RowRange(n))
    ensures |rows| == n && (forall i :: 0 <= i < n ==> rows[i] as int < n) && NoRepeats(rows)
    ensures forall r: nat :: r < n ==> Listed(rows, r)
  {
    SameLength(rows, RowRange(n));
    PermutedNoRepeats(rows, RowRange(n));
    forall i | 0 <= i < n
      ensures rows[i] as int < n
    {
      assert rows[i] in multiset(rows);
      assert rows[i] in RowRange(n);
    }
    forall r: nat | r < n
      ensures Listed(rows, r)
    {
      assert RowRange(n)[r] in multiset(RowRange(n));
      assert r as u32 in rows;
    }
  }

  /** Small histories: sort the rows by comparing whole identifiers. */
  method SortPlain(ids: seq<byte>, h: nat, n: nat, ghost commits: seq<Commit>) returns (rows: seq<u32>)
    requires Holds(ids, h, Ids(commits)) && n == |commits| <= U32_MAX
    ensures SortedRows(rows, commits)
  {
    RowOrderTotal(ids, h);
    hide Holds, RowsInOrder;
    var leq := (a: u32, b: u32) => RowsInOrder(ids, h, a, b);
    rows := Sort(RowRange(n), leq);
    RowsPermuted(rows, n);
    forall i: nat, j: nat | i < j < |rows|
      ensures RowValue(commits, rows, i) <= RowValue(commits, rows, j)
    {
      assert leq(rows[i], rows[j]);
      OrderIsValue(ids, h, commits, rows[i], rows[j]);
    }
  }

  // ----- keyed sorting -----

  /** An eight-byte big-endian prefix and the row it belongs to. */
  type Keyed = (nat, u32)

  function KeyOf(id: Id): nat {
    if |id| < 8 then 0 else Value(id[..8])
  }

  predicate KeyedInOrder(ids: seq<byte>, h: nat, a: Keyed, b: Keyed) {
    a.0 < b.0 || (a.0 == b.0 && RowsInOrder(ids, h, a.1, b.1))
  }

  lemma KeyedOrderTotal(ids: seq<byte>, h: nat)
    ensures TotalPreorder((a: Keyed, b: Keyed) => KeyedInOrder(ids, h, a, b))
  {
    hide RowsInOrder;
    RowOrderTotal(ids, h);
    var rowLeq := (a: u32, b: u32) => RowsInOrder(ids, h, a, b);
    var leq := (a: Keyed, b: Keyed) => KeyedInOrder(ids, h, a, b);
    forall a: Keyed, b: Keyed
      ensures leq(a, b) || leq(b, a)
    {
      assert rowLeq(a.1, b.1) || rowLeq(b.1, a.1);
    }
    forall a: Keyed, b: Keyed, c: Keyed | leq(a, b) && leq(b, c)
      ensures leq(a, c)
    {
      assert rowLeq(a.1, b.1) && rowLeq(b.1, c.1) ==> rowLeq(a.1, c.1);
    }
  }

  /** The cache entries run parallel to the sorted rows. */
  ghost predicate KeyedOk(keyed: seq<Keyed>, rows: seq<u32>, commits: seq<Commit>) {
    && |keyed| == |rows| && RowsInRange(rows, commits)
    && forall i: nat :: i < |keyed| ==> keyed[i].1 == rows[i] && keyed[i].0 == KeyOf(commits[rows[i] as int].id)
  }

  function RowsOf(keyed: seq<Keyed>): seq<u32> {
    seq(|keyed|, i requires 0 <= i < |keyed| => keyed[i].1)
  }

  lemma KeyedEntry(ids: seq<byte>, h: nat, commits: seq<Commit>, entries: seq<Keyed>, sorted: seq<Keyed>, i: nat)
    requires |entries| == |commits| && multiset(sorted) == multiset(entries) && i < |sorted|
    requires forall k: nat :: k < |entries| ==> entries[k].1 as int == k && entries[k].0 == KeyOf(commits[k].id)
    ensures sorted[i].1 as int < |commits| && sorted[i].0 == KeyOf(commits[sorted[i].1 as int].id)
  {
    assert sorted[i] in multiset(sorted);
    assert sorted[i] in entries;
  }

  lemma KeyedPermuted(commits: seq<Commit>, entries: seq<Keyed>, sorted: seq<Keyed>)
    requires |entries| == |commits| && multiset(sorted) == multiset(entries)
    requires forall k: nat :: k < |entries| ==> entries[k].1 as int == k
    ensures |sorted| == |commits| && NoRepeats(sorted)
    ensures forall r: nat :: r < |commits| ==> Listed(RowsOf(sorted), r)
  {
    SameLength(sorted, entries);
    PermutedNoRepeats(sorted, entries);
    var rows := RowsOf(sorted);
    forall r: nat | r < |commits|
      ensures Listed(rows, r)
    {
      assert entries[r] in multiset(entries);
      var i :| 0 <= i < |sorted| && sorted[i] == entries[r];
      assert rows[i] as int == r;
    }
  }

  /** Sorting by prefix first and whole identifier second is sorting by identifier. */
  lemma KeyedIsValue(ids: seq<byte>, h: nat, commits: seq<Commit>, a: Keyed, b: Keyed)
    requires Holds(ids, h, Ids(commits)) && h >= 8 && Lengths(h, commits)
    requires a.1 as int < |commits| && b.1 as int < |commits|
    requires a.0 == KeyOf(commits[a.1 as int].id) && b.0 == KeyOf(commits[b.1 as int].id)
    requires KeyedInOrder(ids, h, a, b)
    ensures Value(commits[a.1 as int].id) <= Value(commits[b.1 as int].id)
  {
    OrderIsValue(ids, h, commits, a.1, b.1);
    LeadingOrder(commits[a.1 as int].id, commits[b.1 as int].id, 8);
    hide Value, RowsInOrder, Holds;
  }

  /** Large histories: sort (prefix, row) pairs, then copy the rows out. */
  method SortKeyed(ids: seq<byte>, h: nat, n: nat, ghost commits: seq<Commit>)
    returns (keyed: seq<Keyed>, rows: seq<u32>)
    requires Holds(ids, h, Ids(commits)) && n == |commits| <= U32_MAX && h >= 8 && Lengths(h, commits)
    ensures SortedRows(rows, commits) && KeyedOk(keyed, rows, commits)
  {
    var entries := seq(n, i requires 0 <= i < n <= U32_MAX => (KeyOf(IdAt(ids, h, i as u32)), i as u32));
    forall k: nat | k < n
      ensures entries[k].1 as int == k && entries[k].0 == KeyOf(commits[k].id)
    {
      IdAtIs(ids, h, commits, k as u32);
    }
    KeyedOrderTotal(ids, h);
    hide Holds, KeyedInOrder, KeyOf, IdAt;
    var leq := (a: Keyed, b: Keyed) => KeyedInOrder(ids, h, a, b);
    keyed := Sort(entries, leq);
    KeyedPermuted(commits, entries, keyed);
    rows := RowsOf(keyed);
    forall i: nat | i < |keyed|
      ensures keyed[i].1 as int < |commits| && keyed[i].0 == KeyOf(commits[keyed[i].1 as int].id)
    {
      KeyedEntry(ids, h, commits, entries, keyed, i);
    }
    forall i, j | 0 <= i < j < |rows|
      ensures rows[i] != rows[j]
    {
      assert keyed[i] != keyed[j];
    }
    forall i: nat, j: nat | i < j < |rows|
      ensures RowValue(commits, rows, i) <= RowValue(commits, rows, j)
    {
      assert leq(keyed[i], keyed[j]);
      KeyedIsValue(ids, h, commits, keyed[i], keyed[j]);
    }
  }

  // ----- the fanout table -----

  ghost function CountEqual(buckets: seq<nat>, k: nat): nat {
    if buckets == [] then 0
    else CountEqual(buckets[..|buckets| - 1], k) + if buckets[|buckets| - 1] == k then 1 else 0
  }

  lemma {:induction false} CountStep(buckets: seq<nat>, k: nat)
    ensures CountBelow(buckets, k + 1) == CountBelow(buckets, k) + CountEqual(buckets, k)
    ensures CountBelow(buckets, 0) == 0
  {
    if buckets != [] {
      CountStep(buckets[..|buckets| - 1], k);
    }
  }

  lemma {:induction false} CountEqualAtMost(buckets: seq<nat>, k: nat)
    ensures CountEqual(buckets, k) <= |buckets|
  {
    if buckets != [] {
      CountEqualAtMost(buckets[..|buckets| - 1], k);
    }
  }

  lemma CountEqualPush(buckets: seq<nat>, i: nat)
    requires i < |buckets|
    ensures forall k: nat ::
              CountEqual(buckets[..i + 1], k) == CountEqual(buckets[..i], k) + if buckets[i] == k then 1 else 0
  {
    assert buckets[..i + 1][..i] == buckets[..i];
  }

  /** Shifting a prefix right by 48 bits leaves its first two bytes. */
  lemma BucketOfKey(id: Id)
    requires |id| >= 8
    ensures KeyOf(id) / 0x1_0000_0000_0000 == Bucket(id)
  {
    LeadingDigits(id[..8], 2);
    assert id[..8][..2] == id[..2];
    hide Value;
    assert Pow256(6) == 0x1_0000_0000_0000 by {
      SixBytes();
    }
  }

  lemma SixBytes()
    ensures Pow256(6) == 0x1_0000_0000_0000
  {
    assert Pow256(0) == 1;
    assert Pow256(1) == 0x100;
    assert Pow256(2) == 0x1_0000;
    assert Pow256(3) == 0x100_0000;
    assert Pow256(4) == 0x1_0000_0000;
    assert Pow256(5) == 0x100_0000_0000;
  }

  /** Count the entries of each bucket one place up, then add the counts along. */
  method FanoutTable(keyed: seq<Keyed>, ghost rows: seq<u32>, ghost commits: seq<Commit>, ghost h: nat)
    returns (fanout: seq<u32>)
    requires KeyedOk(keyed, rows, commits) && SortedRows(rows, commits) && Lengths(h, commits) && h >= 8
    requires |commits| <= U32_MAX
    ensures |fanout| == BUCKETS + 1
    ensures forall k: nat :: k <= BUCKETS ==> fanout[k] as int == CountBelow(Buckets(rows, commits), k)
  {
    ghost var buckets := Buckets(rows, commits);
    var table := new u32[BUCKETS + 1](_ => 0);
    CountBuckets(table, keyed, rows, commits, h);
    BucketCount(rows, commits);
    hide *;
    AddAlong(table, buckets);
    fanout := table[..];
  }

  /** Running sums, in place. */
  method AddAlong(table: array<u32>, ghost buckets: seq<nat>)
    requires table.Length == BUCKETS + 1 && table[0] == 0 && |buckets| <= U32_MAX
    requires forall k: nat :: 1 <= k <= BUCKETS ==> table[k] as int == CountEqual(buckets, k - 1)
    modifies table
    ensures forall k: nat :: k <= BUCKETS ==> table[k] as int == CountBelow(buckets, k)
  {
    CountStep(buckets, 0);
    hide *;
    for prefix := 1 to BUCKETS + 1
      invariant forall k: nat :: k < prefix ==> table[k] as int == CountBelow(buckets, k)
      invariant forall k: nat :: prefix <= k <= BUCKETS ==> table[k] as int == CountEqual(buckets, k - 1)
    {
      CountStep(buckets, prefix - 1);
      CountAtMost(buckets, prefix);
      table[prefix] := table[prefix] + table[prefix - 1];
    }
  }

  lemma BucketCount(rows: seq<u32>, commits: seq<Commit>)
    requires RowsInRange(rows, commits)
    ensures |Buckets(rows, commits)| == |rows|
  {
  }

  method CountBuckets(table: array<u32>, keyed: seq<Keyed>, ghost rows: seq<u32>, ghost commits: seq<Commit>,
                      ghost h: nat)
    requires table.Length == BUCKETS + 1 && forall k :: 0 <= k <= BUCKETS ==> table[k] == 0
    requires KeyedOk(keyed, rows, commits) && SortedRows(rows, commits) && Lengths(h, commits) && h >= 8
    requires |commits| <= U32_MAX
    modifies table
    ensures table[0] == 0
    ensures forall k: nat :: 1 <= k <= BUCKETS ==> table[k] as int == CountEqual(Buckets(rows, commits), k - 1)
  {
    ghost var buckets := Buckets(rows, commits);
    BucketsAscend(rows, commits, h);
    hide CountEqual, Value, KeyOf, Bucket, SortedRows;
    forall k: nat
      ensures CountEqual(buckets[..0], k) == 0
    {
      NothingCounted(k);
      assert buckets[..0] == [];
    }
    BucketCount(rows, commits);
    for i := 0 to |keyed|
      invariant table[0] == 0
      invariant forall k: nat :: 1 <= k <= BUCKETS ==> table[k] as int == CountEqual(buckets[..i], k - 1)
    {
      var prefix := keyed[i].0;
      BucketOfKey(commits[rows[i] as int].id);
      CountEqualPush(buckets, i);
      CountEqualAtMost(buckets[..i], buckets[i]);
      table[prefix / 0x1_0000_0000_0000 + 1] := table[prefix / 0x1_0000_0000_0000 + 1] + 1;
    }
    assert buckets[..|keyed|] == buckets;
  }

  lemma NothingCounted(k: nat)
    ensures CountEqual([], k) == 0
  {
  }
}
