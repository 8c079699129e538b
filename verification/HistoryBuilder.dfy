/** Building a commit-history index: commits are pushed one by one, then the tables are finished. */
module HistoryBuilder {
  import opened Machine
  import opened Wrappers
  import opened ByteOrder
  import opened HistoryTables
  import opened HistorySort
  import opened HistoryLookup
  import opened HistoryKeyed

  datatype PushResult = Pushed | InvalidHistory | InconsistentParent | TooManyEdges

  const CHECK_INTERVAL: nat := 1024

  /** The tables of a builder that has accepted `commits`.  A push that fails for having too many
      edges leaves its parents behind in the edge table; from then on there are too many for good. */
  ghost predicate Building(h: nat, ids: seq<byte>, offsets: seq<u32>, parentIds: seq<byte>, stashes: seq<u32>,
                           commits: seq<Commit>, leftover: seq<Id>) {
    && (h == 20 || h == 32)
    && |commits| <= U32_MAX && Lengths(h, commits) && Holds(ids, h, Ids(commits))
    && |EdgeIds(commits)| <= U32_MAX && OffsetsOk(offsets, commits)
    && Holds(parentIds, h, EdgeIds(commits) + leftover)
    && (leftover != [] ==> |EdgeIds(commits)| + |leftover| > U32_MAX)
    && StashRows(stashes, commits)
  }

  /** The rows marked as probable stashes, ascending. */
  ghost predicate StashRows(stashes: seq<u32>, commits: seq<Commit>) {
    && (forall i, j :: 0 <= i < j < |stashes| ==> stashes[i] < stashes[j])
    && (forall i :: 0 <= i < |stashes| ==> stashes[i] as int < |commits| && commits[stashes[i] as int].probableStash)
    && (forall r: nat :: r < |commits| && commits[r].probableStash ==> Listed(stashes, r))
  }

  ghost predicate AllLengths(h: nat, ids: seq<Id>) {
    forall k :: 0 <= k < |ids| ==> |ids[k]| == h
  }

  lemma IdsPush(commits: seq<Commit>, c: Commit)
    ensures Ids(commits + [c]) == Ids(commits) + [c.id]
  {
  }

  lemma WholeChunks(n: nat, h: nat)
    requires h > 0
    ensures (n * h) / h == n
  {
    Quotient(n * h, h, n, 0);
  }

  lemma BuildingPush(h: nat, ids: seq<byte>, offsets: seq<u32>, parentIds: seq<byte>, parentIds': seq<byte>,
                     stashes: seq<u32>, commits: seq<Commit>, c: Commit, end: u32)
    requires Building(h, ids, offsets, parentIds, stashes, commits, [])
    requires |c.id| == h && |commits| < U32_MAX
    requires Holds(parentIds', h, EdgeIds(commits) + c.parents) && end as int == |EdgeIds(commits)| + |c.parents|
    ensures Building(h, ids + c.id, offsets + [end], parentIds',
                     if c.probableStash then stashes + [|commits| as u32] else stashes, commits + [c], [])
  {
    hide Holds, EdgeIds, OffsetsOk, StashRows, Ids, EdgesBefore, Lengths;
    assert EdgeIds(commits) + [] == EdgeIds(commits);
    IdsPush(commits, c);
    HoldsPush(ids, h, Ids(commits), c.id);
    EdgesPush(commits, c);
    assert EdgeIds(commits + [c]) + [] == EdgeIds(commits + [c]);
    OffsetsPush(offsets, commits, c, end);
    StashPush(stashes, commits, c);
    LengthsPush(h, commits, c);
  }

  lemma LengthsPush(h: nat, commits: seq<Commit>, c: Commit)
    requires Lengths(h, commits) && |c.id| == h
    ensures Lengths(h, commits + [c])
  {
  }

  lemma OffsetsPush(offsets: seq<u32>, commits: seq<Commit>, c: Commit, end: u32)
    requires OffsetsOk(offsets, commits) && end as int == |EdgeIds(commits)| + |c.parents|
    ensures OffsetsOk(offsets + [end], commits + [c])
  {
    EdgesPush(commits, c);
    assert commits[..|commits|] == commits;
    hide EdgeIds;
  }

  lemma StashPush(stashes: seq<u32>, commits: seq<Commit>, c: Commit)
    requires StashRows(stashes, commits) && |commits| < U32_MAX
    ensures StashRows(if c.probableStash then stashes + [|commits| as u32] else stashes, commits + [c])
  {
    var commits' := commits + [c];
    var stashes' := if c.probableStash then stashes + [|commits| as u32] else stashes;
    forall r: nat | r < |commits'| && commits'[r].probableStash
      ensures Listed(stashes', r)
    {
      if r < |commits| {
        assert commits[r].probableStash;
        var i: nat :| i < |stashes| && stashes[i] as int == r;
        assert stashes'[i] as int == r;
      } else {
        assert stashes'[|stashes|] as int == r;
      }
    }
  }

  class HistoryIndexBuilder {
    var hashLen: nat
    var ids: seq<byte>
    var parentOffsets: seq<u32>
    var probableStashes: seq<u32>
    var parentIds: seq<byte>
    ghost var commits: seq<Commit>
    ghost var leftover: seq<Id>

    ghost predicate Valid()
      reads this
    {
      Building(hashLen, ids, parentOffsets, parentIds, probableStashes, commits, leftover)
    }

    constructor (h: nat)
      requires h == 20 || h == 32
      ensures Valid() && commits == [] && leftover == [] && hashLen == h
    {
      hashLen := h;
      ids, parentOffsets, probableStashes, parentIds := [], [0], [], [];
      commits, leftover := [], [];
    }

    /** Append the parents' identifiers, all or none of them. */
    method AppendParents(parents: seq<Id>, ghost edges: seq<Id>) returns (ok: bool)
      requires hashLen > 0 && Holds(parentIds, hashLen, edges)
      modifies this`parentIds
      ensures ok <==> AllLengths(hashLen, parents)
      ensures if ok then Holds(parentIds, hashLen, edges + parents) && old(parentIds) <= parentIds
              else parentIds == old(parentIds)
    {
      hide Holds;
      var originalParents := |parentIds|;
      assert edges + parents[..0] == edges;
      for k := 0 to |parents|
        invariant Holds(parentIds, hashLen, edges + parents[..k]) && AllLengths(hashLen, parents[..k])
        invariant old(parentIds) <= parentIds
      {
        if |parents[k]| != hashLen {
          parentIds := parentIds[..originalParents];
          return false;
        }
        HoldsPush(parentIds, hashLen, edges + parents[..k], parents[k]);
        assert edges + parents[..k] + [parents[k]] == edges + parents[..k + 1];
        parentIds := parentIds + parents[k];
      }
      assert parents[..|parents|] == parents;
      return true;
    }

    /** Accept a commit, or reject it: bad identifier or full history, bad parent identifier, or
        more edges than 32 bits can number. */
    method Push(id: Id, parents: seq<Id>, probableStash: bool) returns (r: PushResult)
      requires Valid()
      modifies this
      ensures Valid() && hashLen == old(hashLen)
      ensures r == if |id| != hashLen || |old(commits)| >= U32_MAX then InvalidHistory
                   else if !AllLengths(hashLen, parents) then InconsistentParent
                   else if |EdgeIds(old(commits))| + |old(leftover)| + |parents| > U32_MAX then TooManyEdges
                   else Pushed
      ensures commits == if r.Pushed? then old(commits) + [Commit(id, parents, probableStash)] else old(commits)
      ensures r.Pushed? ==> old(leftover) == []
      ensures leftover == if r.TooManyEdges? then old(leftover) + parents else old(leftover)
    {
      hide Building;
      LengthKnown(this);
      if |id| != hashLen || |parentOffsets| - 1 >= 0xFFFF_FFFF {
        return InvalidHistory;
      }
      ghost var edges := EdgeIds(commits) + leftover;
      var ok := AppendParents(parents, edges);
      if !ok {
        return InconsistentParent;
      }
      WholeChunks(|edges| + |parents|, hashLen);
      if |parentIds| / hashLen > U32_MAX {
        assert edges + parents == EdgeIds(commits) + (leftover + parents);
        leftover := leftover + parents;
        StillTooMany(this, old(parentIds), old(leftover));
        return TooManyEdges;
      }
      var end := (|parentIds| / hashLen) as u32;
      NoLeftover(hashLen, ids, parentOffsets, old(parentIds), probableStashes, commits, leftover);
      assert edges + parents == EdgeIds(commits) + parents;
      BuildingPush(hashLen, ids, parentOffsets, old(parentIds), parentIds, probableStashes, commits,
                   Commit(id, parents, probableStash), end);
      ids := ids + id;
      parentOffsets := parentOffsets + [end];
      if probableStash {
        probableStashes := probableStashes + [(|parentOffsets| - 2) as u32];
      }
      commits := commits + [Commit(id, parents, probableStash)];
      return Pushed;
    }

    /** Sort, index and resolve.  `cancelled(i)` is what the token's i-th check reports. */
    method Finish(cancelled: nat -> bool) returns (r: Option<HistoryIndex>)
      requires Valid() && leftover == []
      ensures r.Some? ==> Represents(r.value, commits) && StashRows(r.value.probableStashes, commits)
      ensures (forall i :: !cancelled(i)) ==> r.Some?
    {
      if cancelled(0) {
        return None;
      }
      hide SortedRows, FanoutOk, KeyedOk, Holds, EdgeIds, OffsetsOk, Lengths, StashRows, Ids, ParentOk;
      var keyed: seq<Keyed> := [];
      var ix := HistoryIndex(hashLen, ids, [], parentOffsets, [], [], [], [], probableStashes);
      var rows, fanout;
      if |parentOffsets| - 1 >= FANOUT_THRESHOLD {
        keyed, rows := SortKeyed(ids, hashLen, |parentOffsets| - 1, commits);
        fanout := FanoutTable(keyed, rows, commits, hashLen);
      } else {
        rows := SortPlain(ids, hashLen, |parentOffsets| - 1, commits);
        fanout := [];
      }
      ix := ix.(sortedRows := rows, fanout := fanout);
      if cancelled(1) {
        return None;
      }
      assert EdgeIds(commits) + leftover == EdgeIds(commits);
      r := ResolveParents(ix, commits, keyed, parentIds, cancelled, 2);
    }
  }

  /** Only the two hash lengths git has are accepted. */
  method NewHistoryIndexBuilder(h: nat) returns (b: Option<HistoryIndexBuilder>)
    ensures b.Some? <==> h == 20 || h == 32
    ensures b.Some? ==>
              && fresh(b.value) && b.value.Valid() && b.value.hashLen == h
              && b.value.commits == [] && b.value.leftover == []
  {
    if h == 20 || h == 32 {
      var builder := new HistoryIndexBuilder(h);
      b := Some(builder);
    } else {
      b := None;
    }
  }

  // ----- resolving parents -----

  /** The first `e` edges are resolved. */
  ghost predicate Resolved(parents: seq<u32>, external: seq<u32>, bytes: seq<byte>, h: nat, edges: seq<Id>,
                           commits: seq<Commit>, e: nat) {
    && e <= |edges| && |parents| == e
    && (forall k: nat :: k < e ==> ParentOk(commits, edges[k], parents[k]))
    && (forall x :: 0 <= x < |external| ==> external[x] as int < e)
    && ExternalOk(external, bytes, h, parents, edges)
  }

  lemma ResolvedStart(h: nat, edges: seq<Id>, commits: seq<Commit>)
    ensures Resolved([], [], [], h, edges, commits, 0)
  {
  }

  /** A parent that is an indexed commit. */
  lemma ResolvedInside(parents: seq<u32>, external: seq<u32>, bytes: seq<byte>, h: nat, edges: seq<Id>,
                       commits: seq<Commit>, e: nat, rank: u32)
    requires Resolved(parents, external, bytes, h, edges, commits, e) && e < |edges|
    requires rank != MISSING_PARENT && ParentOk(commits, edges[e], rank)
    ensures Resolved(parents + [rank], external, bytes, h, edges, commits, e + 1)
  {
    hide Holds, ParentOk;
  }

  /** A parent outside the index is remembered by edge number. */
  lemma ResolvedOutside(parents: seq<u32>, external: seq<u32>, bytes: seq<byte>, h: nat, edges: seq<Id>,
                        commits: seq<Commit>, e: nat)
    requires Resolved(parents, external, bytes, h, edges, commits, e) && e < |edges| <= U32_MAX
    requires |edges[e]| == h && ParentOk(commits, edges[e], MISSING_PARENT)
    ensures Resolved(parents + [MISSING_PARENT], external + [e as u32], bytes + edges[e], h, edges, commits, e + 1)
  {
    HoldsPush(bytes, h, ExternalIds(external, edges), edges[e]);
    var external' := external + [e as u32];
    assert ExternalIds(external', edges) == ExternalIds(external, edges) + [edges[e]];
    hide Holds, ParentOk;
    var parents' := parents + [MISSING_PARENT];
    forall k: nat | k < |parents'| && parents'[k] == MISSING_PARENT
      ensures exists x :: 0 <= x < |external'| && external'[x] as int == k
    {
      if k == e {
        assert external'[|external|] as int == e;
      } else {
        var x :| 0 <= x < |external| && external[x] as int == k;
        assert external'[x] as int == k;
      }
    }
  }

  /** What a located parent is stored as. */
  lemma RankOk(commits: seq<Commit>, id: Id, at: Option<nat>)
    requires Located(commits, id, at) && |commits| <= U32_MAX
    ensures at.Some? ==>
              at.value < U32_MAX && at.value as u32 != MISSING_PARENT && ParentOk(commits, id, at.value as u32)
    ensures at.None? ==> ParentOk(commits, id, MISSING_PARENT)
  {
  }

  lemma ResolvedEnd(ix: HistoryIndex, commits: seq<Commit>, parents: seq<u32>, external: seq<u32>, bytes: seq<byte>)
    requires Searchable(ix, commits) && OffsetsOk(ix.parentOffsets, commits) && |EdgeIds(commits)| <= U32_MAX
    requires Resolved(parents, external, bytes, ix.hashLen, EdgeIds(commits), commits, |EdgeIds(commits)|)
    ensures Represents(ix.(parents := parents, externalEdges := external, externalIds := bytes), commits)
  {
    hide EdgeIds, OffsetsOk, ExternalOk, SortedRows, FanoutOk, Holds, Lengths, ParentOk;
  }

  /** Look every parent up, by whichever search the history is large enough for. */
  method ResolveParents(ix: HistoryIndex, ghost commits: seq<Commit>, keyed: seq<Keyed>, parentIds: seq<byte>,
                        cancelled: nat -> bool, check0: nat) returns (r: Option<HistoryIndex>)
    requires Searchable(ix, commits) && OffsetsOk(ix.parentOffsets, commits) && |EdgeIds(commits)| <= U32_MAX
    requires Holds(parentIds, ix.hashLen, EdgeIds(commits))
    requires ix.fanout != [] ==> KeyedOk(keyed, ix.sortedRows, commits)
    ensures r.Some? ==> Represents(r.value, commits) && r.value.probableStashes == ix.probableStashes
    ensures (forall i :: !cancelled(i)) ==> r.Some?
  {
    ghost var edges := EdgeIds(commits);
    var parents: seq<u32>, external: seq<u32>, bytes: seq<byte> := [], [], [];
    ResolvedStart(ix.hashLen, edges, commits);
    HashLenKnown(ix, commits);
    WholeChunks(|edges|, ix.hashLen);
    var count := |parentIds| / ix.hashLen;
    var check := check0;
    hide *;
    for e := 0 to count
      invariant Resolved(parents, external, bytes, ix.hashLen, edges, commits, e)
    {
      if e % CHECK_INTERVAL == 0 {
        if cancelled(check) {
          return None;
        }
        check := check + 1;
      }
      ParentChunk(parentIds, ix.hashLen, edges, e);
      var parent := Chunk(parentIds, ix.hashLen, e);
      var at;
      if ix.fanout != [] {
        at := PositionInKeyed(ix, commits, keyed, parent);
      } else {
        at := PositionBytes(ix, commits, parent);
      }
      RankOk(commits, parent, at);
      if at.Some? {
        ResolvedInside(parents, external, bytes, ix.hashLen, edges, commits, e, at.value as u32);
        parents := parents + [at.value as u32];
      } else {
        ResolvedOutside(parents, external, bytes, ix.hashLen, edges, commits, e);
        external := external + [e as u32];
        bytes := bytes + parent;
        parents := parents + [MISSING_PARENT];
      }
    }
    if cancelled(check) {
      return None;
    }
    ResolvedEnd(ix, commits, parents, external, bytes);
    r := Some(ix.(parents := parents, externalEdges := external, externalIds := bytes));
  }

  lemma HashLenKnown(ix: HistoryIndex, commits: seq<Commit>)
    requires Searchable(ix, commits)
    ensures ix.hashLen > 0 && |commits| <= U32_MAX
  {
  }

  lemma ParentChunk(parentIds: seq<byte>, h: nat, edges: seq<Id>, e: nat)
    requires Holds(parentIds, h, edges) && e < |edges|
    ensures (e + 1) * h <= |parentIds| && Chunk(parentIds, h, e) == edges[e] && |edges[e]| == h
  {
    assert HoldsAt(parentIds, h, e, edges[e]);
  }

  lemma LengthKnown(b: HistoryIndexBuilder)
    requires b.Valid()
    ensures b.hashLen > 0 && |b.parentOffsets| == |b.commits| + 1
    ensures Holds(b.parentIds, b.hashLen, EdgeIds(b.commits) + b.leftover)
    ensures |b.parentIds| == (|EdgeIds(b.commits)| + |b.leftover|) * b.hashLen
  {
  }

  lemma NoLeftover(h: nat, ids: seq<byte>, offsets: seq<u32>, parentIds: seq<byte>, stashes: seq<u32>,
                   commits: seq<Commit>, leftover: seq<Id>)
    requires Building(h, ids, offsets, parentIds, stashes, commits, leftover)
    requires |EdgeIds(commits)| + |leftover| <= U32_MAX
    ensures leftover == []
  {
  }

  lemma StillTooMany(b: HistoryIndexBuilder, parentIds: seq<byte>, leftover: seq<Id>)
    requires Building(b.hashLen, b.ids, b.parentOffsets, parentIds, b.probableStashes, b.commits, leftover)
    requires Holds(b.parentIds, b.hashLen, EdgeIds(b.commits) + b.leftover)
    requires |EdgeIds(b.commits)| + |b.leftover| > U32_MAX
    ensures b.Valid()
  {
    hide Holds, EdgeIds;
  }
}
