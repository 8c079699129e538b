module IncreasingSubsequence {
  // Longest increasing subsequence by patience sorting: every pair goes on the leftmost pile whose
  // top is not smaller, and remembers the top of the pile before.

  import opened Wrappers
  import opened Sequences
  import opened Sorting

  type Pair = (nat, nat)

  /** Positions of an increasing subsequence by second component. */
  ghost predicate Increasing(pairs: seq<Pair>, at: seq<nat>) {
    && (forall k :: 0 <= k < |at| ==> at[k] < |pairs|)
    && forall k, l :: 0 <= k < l < |at| ==> at[k] < at[l] && pairs[at[k]].1 < pairs[at[l]].1
  }

  ghost function Select(pairs: seq<Pair>, at: seq<nat>): seq<Pair>
    requires InRange(pairs, at)
  {
    seq(|at|, k requires 0 <= k < |at| => pairs[at[k]])
  }

  // ----- dealing -----

  /** The pile tops and, per dealt pair, the top it was put behind. */
  datatype Table = Table(tails: seq<nat>, prev: seq<Option<nat>>)

  ghost predicate InRange(pairs: seq<Pair>, tails: seq<nat>) {
    forall k :: 0 <= k < |tails| ==> tails[k] < |pairs|
  }

  /** The leftmost pile whose top is not below `x`. */
  ghost function PileFor(pairs: seq<Pair>, tails: seq<nat>, x: nat): (pos: nat)
    requires InRange(pairs, tails)
    ensures pos <= |tails|
    ensures forall k :: 0 <= k < pos ==> pairs[tails[k]].1 < x
    ensures pos < |tails| ==> pairs[tails[pos]].1 >= x
  {
    if tails == [] || pairs[tails[0]].1 >= x then 0 else 1 + PileFor(pairs, tails[1..], x)
  }

  ghost function Deal(pairs: seq<Pair>, i: nat): (t: Table)
    requires i <= |pairs|
    ensures |t.prev| == i && |t.tails| <= i && (i > 0 ==> |t.tails| > 0)
    ensures forall k :: 0 <= k < |t.tails| ==> t.tails[k] < i
  {
    if i == 0 then Table([], [])
    else
      var t := Deal(pairs, i - 1);
      Next(t, PileFor(pairs, t.tails, pairs[i - 1].1), i - 1)
  }

  function Next(t: Table, pos: nat, i: nat): Table
    requires pos <= |t.tails|
  {
    Table(if pos == |t.tails| then t.tails + [i] else t.tails[pos := i],
          t.prev + [if pos > 0 then Some(t.tails[pos - 1]) else None])
  }

  ghost function Pile(pairs: seq<Pair>, i: nat): nat
    requires i < |pairs|
  {
    PileFor(pairs, Deal(pairs, i).tails, pairs[i].1)
  }

  /** Pile tops increase from left to right, each lies on the pile it tops, and a pile's top is
      never above a pair dealt on it earlier. */
  ghost predicate TopsOk(pairs: seq<Pair>, i: nat, tails: seq<nat>)
    requires i <= |pairs|
  {
    && (forall k :: 0 <= k < |tails| ==> tails[k] < i && Pile(pairs, tails[k]) == k)
    && (forall k, l :: 0 <= k < l < |tails| ==> pairs[tails[k]].1 < pairs[tails[l]].1)
    && forall j: nat :: j < i ==> Pile(pairs, j) < |tails| && pairs[tails[Pile(pairs, j)]].1 <= pairs[j].1
  }

  /** Every pair is linked to a smaller one on the pile just before its own. */
  ghost predicate LinkOk(pairs: seq<Pair>, j: nat, link: Option<nat>)
    requires j < |pairs|
  {
    match link
    case None => Pile(pairs, j) == 0
    case Some(p) => p < j && pairs[p].1 < pairs[j].1 && Pile(pairs, j) == Pile(pairs, p) + 1
  }

  /** Where the next pair goes relative to the pile tops. */
  ghost predicate Fits(pairs: seq<Pair>, tails: seq<nat>, x: nat, pos: nat) {
    && InRange(pairs, tails) && pos <= |tails|
    && (forall k :: 0 <= k < pos ==> pairs[tails[k]].1 < x)
    && (forall k :: pos <= k < |tails| ==> pairs[tails[k]].1 >= x)
  }

  lemma PileFits(pairs: seq<Pair>, i: nat)
    requires i < |pairs| && TopsOk(pairs, i, Deal(pairs, i).tails)
    ensures Fits(pairs, Deal(pairs, i).tails, pairs[i].1, Pile(pairs, i))
    ensures Deal(pairs, i + 1) == Next(Deal(pairs, i), Pile(pairs, i), i)
  {
    DealUnfolds(pairs, i + 1);
    PileIs(pairs, i);
    hide *;
    FitsAt(pairs, i, Deal(pairs, i).tails, Pile(pairs, i));
  }

  lemma PileIs(pairs: seq<Pair>, i: nat)
    requires i < |pairs|
    ensures var tails := Deal(pairs, i).tails;
            && InRange(pairs, tails) && Pile(pairs, i) == PileFor(pairs, tails, pairs[i].1) <= |tails|
            && (forall k :: 0 <= k < Pile(pairs, i) ==> pairs[tails[k]].1 < pairs[i].1)
            && (Pile(pairs, i) < |tails| ==> pairs[tails[Pile(pairs, i)]].1 >= pairs[i].1)
  {
  }

  /** If the first pile from `pos` on takes the pair, so do all after it. */
  lemma FitsAt(pairs: seq<Pair>, i: nat, tails: seq<nat>, pos: nat)
    requires i < |pairs| && TopsOk(pairs, i, tails) && InRange(pairs, tails) && pos <= |tails|
    requires forall k :: 0 <= k < pos ==> pairs[tails[k]].1 < pairs[i].1
    requires pos < |tails| ==> pairs[tails[pos]].1 >= pairs[i].1
    ensures Fits(pairs, tails, pairs[i].1, pos)
  {
    hide TopsOk;
    forall k | pos <= k < |tails|
      ensures pairs[tails[k]].1 >= pairs[i].1
    {
      TopsIncrease(pairs, i, tails, pos, k);
    }
  }

  lemma TopsIncrease(pairs: seq<Pair>, i: nat, tails: seq<nat>, k: nat, l: nat)
    requires i <= |pairs| && TopsOk(pairs, i, tails) && k <= l < |tails| && InRange(pairs, tails)
    ensures pairs[tails[k]].1 <= pairs[tails[l]].1
  {
    hide Pile;
  }

  lemma DealUnfolds(pairs: seq<Pair>, i: nat)
    requires 0 < i <= |pairs|
    ensures var t := Deal(pairs, i - 1);
            Deal(pairs, i) == Next(t, PileFor(pairs, t.tails, pairs[i - 1].1), i - 1)
  {
    hide PileFor, Next;
  }

  lemma TopsNext(pairs: seq<Pair>, i: nat, t: Table, pos: nat)
    requires i < |pairs| && TopsOk(pairs, i, t.tails) && pos == Pile(pairs, i)
    requires Fits(pairs, t.tails, pairs[i].1, pos)
    ensures TopsOk(pairs, i + 1, Next(t, pos, i).tails)
  {
    hide Pile, TopsOk, Next;
    TopsOnPiles(pairs, i, t, pos);
    TopsAscend(pairs, i, t, pos);
    TopsCover(pairs, i, t, pos);
    TopsAre(pairs, i + 1, Next(t, pos, i).tails);
  }

  lemma TopsAre(pairs: seq<Pair>, i: nat, tails: seq<nat>)
    requires i <= |pairs|
    requires forall k :: 0 <= k < |tails| ==> tails[k] < i && Pile(pairs, tails[k]) == k
    requires forall k, l :: 0 <= k < l < |tails| ==> pairs[tails[k]].1 < pairs[tails[l]].1
    requires forall j: nat :: j < i ==> Pile(pairs, j) < |tails| && pairs[tails[Pile(pairs, j)]].1 <= pairs[j].1
    ensures TopsOk(pairs, i, tails)
  {
    hide Pile;
  }

  lemma TopsOnPiles(pairs: seq<Pair>, i: nat, t: Table, pos: nat)
    requires i < |pairs| && TopsOk(pairs, i, t.tails) && pos == Pile(pairs, i)
    requires Fits(pairs, t.tails, pairs[i].1, pos)
    ensures var tails := Next(t, pos, i).tails;
            forall k :: 0 <= k < |tails| ==> tails[k] < i + 1 && Pile(pairs, tails[k]) == k
  {
    hide Pile;
  }

  lemma TopsAscend(pairs: seq<Pair>, i: nat, t: Table, pos: nat)
    requires i < |pairs| && TopsOk(pairs, i, t.tails) && Fits(pairs, t.tails, pairs[i].1, pos)
    requires forall k :: 0 <= k < |Next(t, pos, i).tails| ==> Next(t, pos, i).tails[k] < i + 1
    ensures var tails := Next(t, pos, i).tails;
            forall k, l :: 0 <= k < l < |tails| ==> pairs[tails[k]].1 < pairs[tails[l]].1
  {
    hide Pile;
    var tails := Next(t, pos, i).tails;
    forall k, l | 0 <= k < l < |tails|
      ensures pairs[tails[k]].1 < pairs[tails[l]].1
    {
      if l < |t.tails| {
        assert pairs[t.tails[k]].1 < pairs[t.tails[l]].1;
      }
    }
  }

  lemma TopsCover(pairs: seq<Pair>, i: nat, t: Table, pos: nat)
    requires i < |pairs| && TopsOk(pairs, i, t.tails) && pos == Pile(pairs, i)
    requires Fits(pairs, t.tails, pairs[i].1, pos)
    ensures var tails := Next(t, pos, i).tails;
            forall j: nat :: j < i + 1 ==> Pile(pairs, j) < |tails| && tails[Pile(pairs, j)] <= i
                                           && pairs[tails[Pile(pairs, j)]].1 <= pairs[j].1
  {
    hide Pile;
  }

  lemma LinkNext(pairs: seq<Pair>, i: nat, t: Table, pos: nat)
    requires i < |pairs| && TopsOk(pairs, i, t.tails) && pos == Pile(pairs, i)
    requires Fits(pairs, t.tails, pairs[i].1, pos)
    ensures LinkOk(pairs, i, if pos > 0 then Some(t.tails[pos - 1]) else None)
  {
    hide Pile;
  }

  lemma {:induction false} DealOk(pairs: seq<Pair>, i: nat)
    requires i <= |pairs|
    ensures TopsOk(pairs, i, Deal(pairs, i).tails)
    ensures Linked(pairs, Deal(pairs, i).prev)
  {
    hide *;
    if i == 0 {
      NothingDealt(pairs);
    } else {
      DealOk(pairs, i - 1);
      DealShape(pairs, i - 1);
      PileFits(pairs, i - 1);
      var t, pos := Deal(pairs, i - 1), Pile(pairs, i - 1);
      PosInRange(pairs, t.tails, pairs[i - 1].1, pos);
      TopsNext(pairs, i - 1, t, pos);
      LinkNext(pairs, i - 1, t, pos);
      LinkedPush(pairs, t.prev, if pos > 0 then Some(t.tails[pos - 1]) else None);
      var t' := NextIs(t, pos, i - 1);
    }
  }

  lemma DealShape(pairs: seq<Pair>, i: nat)
    requires i <= |pairs|
    ensures |Deal(pairs, i).prev| == i && |Deal(pairs, i).tails| <= i && (i > 0 ==> |Deal(pairs, i).tails| > 0)
    ensures forall k :: 0 <= k < |Deal(pairs, i).tails| ==> Deal(pairs, i).tails[k] < i
  {
    hide Deal;
    var t := Deal(pairs, i);
  }

  lemma NothingDealt(pairs: seq<Pair>)
    ensures Deal(pairs, 0) == Table([], []) && TopsOk(pairs, 0, []) && Linked(pairs, [])
  {
  }

  lemma PosInRange(pairs: seq<Pair>, tails: seq<nat>, x: nat, pos: nat)
    requires Fits(pairs, tails, x, pos)
    ensures pos <= |tails|
  {
  }

  lemma NextIs(t: Table, pos: nat, i: nat) returns (t': Table)
    requires pos <= |t.tails|
    ensures t' == Next(t, pos, i)
    ensures t'.tails == if pos == |t.tails| then t.tails + [i] else t.tails[pos := i]
    ensures t'.prev == t.prev + [if pos > 0 then Some(t.tails[pos - 1]) else None]
  {
    t' := Next(t, pos, i);
  }

  lemma LinkedPush(pairs: seq<Pair>, prev: seq<Option<nat>>, link: Option<nat>)
    requires Linked(pairs, prev) && |prev| < |pairs| && LinkOk(pairs, |prev|, link)
    ensures Linked(pairs, prev + [link])
  {
    hide LinkOk;
    var prev' := prev + [link];
    forall j: nat | j < |prev'|
      ensures LinkOk(pairs, j, prev'[j])
    {
      assert j < |prev| ==> LinkOk(pairs, j, prev[j]);
    }
  }

  ghost predicate Linked(pairs: seq<Pair>, prev: seq<Option<nat>>) {
    |prev| <= |pairs| && forall j: nat :: j < |prev| ==> LinkOk(pairs, j, prev[j])
  }

  /** A later, larger pair lies on a later pile. */
  lemma PilesSeparate(pairs: seq<Pair>, j: nat, i: nat)
    requires j < i < |pairs| && pairs[j].1 < pairs[i].1
    ensures Pile(pairs, j) < Pile(pairs, i)
  {
    DealOk(pairs, i);
    var tails := Deal(pairs, i).tails;
    PileFits(pairs, i);
    hide Deal, PileFor, Pile;
    assert Pile(pairs, j) < |tails| && pairs[tails[Pile(pairs, j)]].1 <= pairs[j].1;
  }

  /** So pile numbers bound the length of every increasing subsequence. */
  lemma {:induction false} PileBounds(pairs: seq<Pair>, at: seq<nat>)
    requires Increasing(pairs, at) && at != []
    ensures |at| <= Pile(pairs, at[|at| - 1]) + 1
    decreases |at|
  {
    if |at| > 1 {
      PileBounds(pairs, at[..|at| - 1]);
      PilesSeparate(pairs, at[|at| - 2], at[|at| - 1]);
    }
  }

  // ----- following the links -----

  /** The chain of links that ends at `i`, front to back. */
  ghost function Chain(pairs: seq<Pair>, prev: seq<Option<nat>>, i: nat): seq<nat>
    requires Linked(pairs, prev)
    requires i < |prev|
  {
    match prev[i]
    case None => [i]
    case Some(p) => Chain(pairs, prev, p) + [i]
  }

  lemma {:induction false} ChainOk(pairs: seq<Pair>, prev: seq<Option<nat>>, i: nat)
    requires Linked(pairs, prev) && i < |prev|
    ensures var at := Chain(pairs, prev, i);
            |at| == Pile(pairs, i) + 1 && at[|at| - 1] == i && Increasing(pairs, at)
    decreases i
  {
    hide Pile, Increasing;
    assert LinkOk(pairs, i, prev[i]);
    if prev[i].Some? {
      var p := prev[i].value;
      ChainOk(pairs, prev, p);
      IncreasingPush(pairs, Chain(pairs, prev, p), i);
    } else {
      IncreasingPush(pairs, [], i);
      assert [] + [i] == [i];
    }
  }

  lemma IncreasingPush(pairs: seq<Pair>, at: seq<nat>, i: nat)
    requires i < |pairs|
    requires at == [] || (Increasing(pairs, at) && at[|at| - 1] < i && pairs[at[|at| - 1]].1 < pairs[i].1)
    ensures Increasing(pairs, at + [i])
  {
  }

  /** The subsequence the pass returns, as a function of the pairs alone. */
  ghost function Lis(pairs: seq<Pair>): seq<Pair> {
    if pairs == [] then []
    else
      var t := Deal(pairs, |pairs|);
      DealOk(pairs, |pairs|);
      ChainOk(pairs, t.prev, t.tails[|t.tails| - 1]);
      Select(pairs, Chain(pairs, t.prev, t.tails[|t.tails| - 1]))
  }

  /** It is an increasing subsequence of the pairs, and no other one is longer. */
  lemma LisIsLongest(pairs: seq<Pair>)
    ensures exists at :: Increasing(pairs, at) && InRange(pairs, at) && Lis(pairs) == Select(pairs, at)
    ensures forall at :: Increasing(pairs, at) ==> |at| <= |Lis(pairs)|
  {
    hide *;
    if pairs == [] {
      NoPairs(pairs);
    } else {
      var best := LisAt(pairs);
      SelectLength(pairs, best);
      forall at | Increasing(pairs, at)
        ensures |at| <= |best|
      {
        AtMostPiles(pairs, at);
      }
    }
  }

  lemma PositionValid(pairs: seq<Pair>, at: seq<nat>, k: nat)
    requires Increasing(pairs, at) && k < |at|
    ensures at[k] < |pairs|
  {
  }

  lemma NoPairs(pairs: seq<Pair>)
    requires pairs == []
    ensures Increasing(pairs, []) && InRange(pairs, []) && Lis(pairs) == [] == Select(pairs, [])
    ensures forall at :: Increasing(pairs, at) ==> |at| == 0
  {
    forall at | Increasing(pairs, at)
      ensures |at| == 0
    {
      if at != [] {
        PositionValid(pairs, at, 0);
      }
    }
  }

  lemma SelectLength(pairs: seq<Pair>, at: seq<nat>)
    requires Increasing(pairs, at)
    ensures InRange(pairs, at) && |Select(pairs, at)| == |at|
  {
  }

  /** The positions of the returned subsequence: as many as there are piles. */
  lemma LisAt(pairs: seq<Pair>) returns (best: seq<nat>)
    requires pairs != []
    ensures Increasing(pairs, best) && InRange(pairs, best) && Lis(pairs) == Select(pairs, best)
    ensures |best| == |Deal(pairs, |pairs|).tails|
  {
    hide Deal, Pile, Select, Chain, LinkOk, Linked;
    var t := Deal(pairs, |pairs|);
    DealOk(pairs, |pairs|);
    DealShape(pairs, |pairs|);
    var last := t.tails[|t.tails| - 1];
    ChainOk(pairs, t.prev, last);
    best := Chain(pairs, t.prev, last);
  }

  lemma AtMostPiles(pairs: seq<Pair>, at: seq<nat>)
    requires pairs != [] && Increasing(pairs, at)
    ensures |at| <= |Deal(pairs, |pairs|).tails|
  {
    if at != [] {
      hide Pile, Deal;
      PileBounds(pairs, at);
      DealOk(pairs, |pairs|);
    }
  }

  lemma PileUnique(pairs: seq<Pair>, tails: seq<nat>, x: nat, pos: nat, pos': nat)
    requires Fits(pairs, tails, x, pos) && Fits(pairs, tails, x, pos')
    ensures pos == pos'
  {
    if pos < pos' {
      TopClash(pairs, tails, x, pos, pos');
    } else if pos' < pos {
      TopClash(pairs, tails, x, pos', pos);
    }
  }

  lemma TopClash(pairs: seq<Pair>, tails: seq<nat>, x: nat, pos: nat, pos': nat)
    requires Fits(pairs, tails, x, pos) && Fits(pairs, tails, x, pos')
    ensures pos >= pos'
  {
    hide InRange;
    if pos < pos' {
      TopBelow(pairs, tails, x, pos, pos');
    }
  }

  lemma TopBelow(pairs: seq<Pair>, tails: seq<nat>, x: nat, k: nat, pos: nat)
    requires Fits(pairs, tails, x, pos) && k < pos
    ensures k < |tails| && tails[k] < |pairs| && pairs[tails[k]].1 < x
  {
  }

  /** The pile for the next pair, by bisection over the pile tops. */
  method ChoosePile(pairs: seq<Pair>, tails: seq<nat>, i: nat) returns (pos: nat)
    requires i < |pairs| && TopsOk(pairs, i, tails)
    ensures Fits(pairs, tails, pairs[i].1, pos)
  {
    hide Pile;
    assert InRange(pairs, tails);
    var x := pairs[i].1;
    var below := (k: nat) requires k < |tails| && tails[k] < |pairs| => pairs[tails[k]].1 < x;
    pos := PartitionPoint(|tails|, below);
    forall k | 0 <= k < pos
      ensures pairs[tails[k]].1 < x
    {
      assert below(k);
    }
    forall k | pos <= k < |tails|
      ensures pairs[tails[k]].1 >= x
    {
      assert !below(k);
    }
  }

  /** The pairs on the chain that ends at `i`. */
  ghost predicate Spells(pairs: seq<Pair>, links: seq<Option<nat>>, i: nat, spelled: seq<Pair>) {
    && |links| == |pairs| && i < |pairs| && Linked(pairs, links)
    && InRange(pairs, Chain(pairs, links, i)) && Select(pairs, Chain(pairs, links, i)) == spelled
  }

  lemma SpellsOne(pairs: seq<Pair>, links: seq<Option<nat>>, i: nat)
    requires |links| == |pairs| && i < |pairs| && Linked(pairs, links)
    ensures links[i].None? ==> Spells(pairs, links, i, [pairs[i]])
    ensures links[i].Some? ==>
              var p := links[i].value;
              p < i && forall front :: Spells(pairs, links, p, front) ==> Spells(pairs, links, i, front + [pairs[i]])
  {
    hide Pile;
    assert LinkOk(pairs, i, links[i]);
    ChainOk(pairs, links, i);
    if links[i].None? {
      SelectPush(pairs, [], i);
      assert [] + [i] == [i] && Select(pairs, []) == [];
    } else {
      ChainOk(pairs, links, links[i].value);
      SelectPush(pairs, Chain(pairs, links, links[i].value), i);
    }
  }

  lemma SpellsSome(pairs: seq<Pair>, links: seq<Option<nat>>, i: nat) returns (spelled: seq<Pair>)
    requires |links| == |pairs| && i < |pairs| && Linked(pairs, links)
    ensures Spells(pairs, links, i, spelled)
  {
    ChainOk(pairs, links, i);
    hide Pile;
    spelled := Select(pairs, Chain(pairs, links, i));
  }

  /** Follow the links back from the last pile. */
  method Reconstruct(pairs: seq<Pair>, prev: array<Option<nat>>, start: nat) returns (result: seq<Pair>)
    requires start < |pairs| && Linked(pairs, prev[..]) && prev.Length == |pairs|
    ensures Spells(pairs, prev[..], start, result)
  {
    hide *;
    ghost var links := prev[..];
    var idx: nat := start;
    var rev: seq<Pair> := [];
    ghost var front := SpellsSome(pairs, links, start);
    ghost var all := front;
    NothingReversed<Pair>();
    while prev[idx].Some?
      invariant idx < |pairs| && Spells(pairs, links, idx, front)
      invariant all == front + Reversed(rev)
      decreases idx
    {
      SpellsOne(pairs, links, idx);
      front := SpellsSome(pairs, links, links[idx].value);
      SpellsUnique(pairs, links, idx, front + [pairs[idx]]);
      ReversedPush(rev, pairs[idx]);
      rev := rev + [pairs[idx]];
      idx := prev[idx].value;
    }
    SpellsOne(pairs, links, idx);
    SpellsUnique(pairs, links, idx, [pairs[idx]]);
    ReversedPush(rev, pairs[idx]);
    rev := rev + [pairs[idx]];
    result := Reversed(rev);
  }

  lemma SpellsUnique(pairs: seq<Pair>, links: seq<Option<nat>>, i: nat, spelled: seq<Pair>)
    requires Spells(pairs, links, i, spelled)
    ensures forall s :: Spells(pairs, links, i, s) ==> s == spelled
  {
  }

  lemma SelectPush(pairs: seq<Pair>, at: seq<nat>, i: nat)
    requires InRange(pairs, at) && i < |pairs|
    ensures Select(pairs, at + [i]) == Select(pairs, at) + [pairs[i]]
  {
  }

  lemma LisIs(pairs: seq<Pair>, tails: seq<nat>, links: seq<Option<nat>>, spelled: seq<Pair>)
    requires pairs != [] && Deal(pairs, |pairs|) == Table(tails, links)
    requires tails != [] && Spells(pairs, links, tails[|tails| - 1], spelled)
    ensures spelled == Lis(pairs)
  {
    hide Deal, Pile, Select, Chain, LinkOk, Linked;
  }

  /** Deal pair `i`. */
  method DealOne(pairs: seq<Pair>, tails0: seq<nat>, prev: array<Option<nat>>, i: nat) returns (tails: seq<nat>)
    requires i < |pairs| == prev.Length && Table(tails0, prev[..i]) == Deal(pairs, i)
    requires forall k :: i <= k < prev.Length ==> prev[k] == None
    modifies prev
    ensures Table(tails, prev[..i + 1]) == Deal(pairs, i + 1)
    ensures forall k :: i < k < prev.Length ==> prev[k] == None
  {
    hide *;
    DealOk(pairs, i);
    PileFits(pairs, i);
    var pos := ChoosePile(pairs, tails0, i);
    PileUnique(pairs, tails0, pairs[i].1, pos, Pile(pairs, i));
    PosInRange(pairs, tails0, pairs[i].1, pos);
    ghost var before := prev[..i];
    ghost var next := NextIs(Table(tails0, before), pos, i);
    tails := tails0;
    if pos == |tails| {
      tails := tails + [i];
    } else {
      tails := tails[pos := i];
    }
    if pos > 0 {
      prev[i] := Some(tails[pos - 1]);
    }
    assert prev[..i] == before;
    assert prev[..i + 1] == before + [prev[i]];
  }

  /** The pass itself. */
  method PatienceLis(pairs: seq<Pair>) returns (result: seq<Pair>)
    ensures result == Lis(pairs)
  {
    hide *;
    if pairs == [] {
      NoPairs(pairs);
      return [];
    }
    NothingDealt(pairs);
    var n := |pairs|;
    var tails: seq<nat> := [];
    var prev := new Option<nat>[n](_ => None);
    for i := 0 to n
      invariant Table(tails, prev[..i]) == Deal(pairs, i)
      invariant forall k :: i <= k < n ==> prev[k] == None
    {
      tails := DealOne(pairs, tails, prev, i);
    }
    DealOk(pairs, n);
    DealShape(pairs, n);
    assert prev[..] == prev[..n];
    result := Reconstruct(pairs, prev, tails[|tails| - 1]);
    LisIs(pairs, tails, prev[..], result);
  }
}
