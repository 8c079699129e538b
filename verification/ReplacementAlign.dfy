module ReplacementAlign {
  // Which deleted line to show beside which inserted line: a cheapest-alignment dynamic program
  // with two rolling cost rows, a flat step table, and a memo table keyed by line text.

  import opened Machine
  import opened Sequences
  import opened Alignment

  const GAP_COST: u32 := 100

  datatype Step = NoStep | Take(op: Op)

  function SaturatingAdd(a: u32, b: u32): u32 {
    if a as int + b as int <= U32_MAX then a + b else 0xFFFF_FFFF
  }

  /** The alignment costs of two blocks under a price for each pair of lines. */
  ghost function BlockCosts<T>(deletes: seq<T>, inserts: seq<T>, pairCost: (T, T) -> u32): Costs {
    Costs((i: nat, j: nat) => if i < |deletes| && j < |inserts| then pairCost(deletes[i], inserts[j]) as int else 0,
          GAP_COST as int)
  }

  // ----- numbering the distinct texts -----

  /** Lines with the same number have the same text, and numbers are below `unique`. */
  ghost predicate Numbering<T>(lines: seq<T>, ids: seq<nat>, unique: nat) {
    && |ids| == |lines|
    && (forall i :: 0 <= i < |ids| ==> ids[i] < unique)
    && (forall i, j :: 0 <= i < |ids| && 0 <= j < |ids| ==> (ids[i] == ids[j] <==> lines[i] == lines[j]))
  }

  method TextIds<T(==)>(lines: seq<T>) returns (ids: seq<nat>, unique: nat, hasDuplicates: bool)
    ensures Numbering(lines, ids, unique)
    ensures unique <= |lines| && (hasDuplicates <==> unique < |lines|)
  {
    var textIds: map<T, nat> := map[];
    ids := [];
    for i := 0 to |lines|
      invariant |ids| == i && |textIds| <= i
      invariant forall t :: t in textIds ==> textIds[t] < |textIds|
      invariant forall t, u :: t in textIds && u in textIds && textIds[t] == textIds[u] ==> t == u
      invariant forall k :: 0 <= k < i ==> lines[k] in textIds && ids[k] == textIds[lines[k]]
    {
      var line := lines[i];
      if line !in textIds {
        textIds := textIds[line := |textIds|];
      }
      ids := ids + [textIds[line]];
    }
    unique := |textIds|;
    hasDuplicates := unique < |lines|;
  }

  // ----- flat tables -----

  /** Flat index of cell (i, j) in a table of rows of length `width`. */
  function Idx(i: nat, j: nat, width: nat): nat {
    i * width + j
  }

  lemma {:induction false} RowsApart(i: nat, i': nat, width: nat)
    requires i < i'
    ensures (i + 1) * width <= i' * width
    decreases i'
  {
    if i + 1 < i' {
      RowsApart(i, i' - 1, width);
    }
  }

  lemma IdxBound(i: nat, j: nat, width: nat, rows: nat)
    requires i < rows && j < width
    ensures Idx(i, j, width) < rows * width
  {
    RowsApart(i, rows, width);
  }

  lemma IdxInjective(i: nat, j: nat, i': nat, j': nat, width: nat)
    requires j < width && j' < width && Idx(i, j, width) == Idx(i', j', width)
    ensures i == i' && j == j'
  {
    if i < i' {
      RowsApart(i, i', width);
    } else if i' < i {
      RowsApart(i', i, width);
    }
  }

  // ----- the memo table -----

  /** Every memo entry is unset or holds the price of every pair of lines it is shared by. */
  ghost predicate MemoOk<T>(deletes: seq<T>, inserts: seq<T>, pairCost: (T, T) -> u32,
                            ids: seq<nat>, ids': seq<nat>, unique': nat, memo: seq<u32>) {
    |ids| == |deletes| && |ids'| == |inserts| &&
    forall i, j :: 0 <= i < |deletes| && 0 <= j < |inserts| ==>
      MemoEntry(pairCost(deletes[i], inserts[j]), memo, Idx(ids[i], ids'[j], unique'))
  }

  ghost predicate MemoEntry(price: u32, memo: seq<u32>, at: nat) {
    at < |memo| && (memo[at] == 0xFFFF_FFFF || memo[at] == price)
  }

  lemma MemoFill<T>(deletes: seq<T>, inserts: seq<T>, pairCost: (T, T) -> u32,
                    ids: seq<nat>, unique: nat, ids': seq<nat>, unique': nat, memo: seq<u32>, i: nat, j: nat)
    requires i < |deletes| && j < |inserts|
    requires Numbering(deletes, ids, unique) && Numbering(inserts, ids', unique')
    requires MemoOk(deletes, inserts, pairCost, ids, ids', unique', memo)
    ensures var at := Idx(ids[i], ids'[j], unique');
            at < |memo| && MemoOk(deletes, inserts, pairCost, ids, ids', unique',
                                  memo[at := pairCost(deletes[i], inserts[j])])
  {
    hide Idx;
    var at := Idx(ids[i], ids'[j], unique');
    assert MemoEntry(pairCost(deletes[i], inserts[j]), memo, at);
    var memo' := memo[at := pairCost(deletes[i], inserts[j])];
    forall k, l | 0 <= k < |deletes| && 0 <= l < |inserts|
      ensures MemoEntry(pairCost(deletes[k], inserts[l]), memo', Idx(ids[k], ids'[l], unique'))
    {
      assert MemoEntry(pairCost(deletes[k], inserts[l]), memo, Idx(ids[k], ids'[l], unique'));
      if Idx(ids[k], ids'[l], unique') == at {
        IdxInjective(ids[i], ids'[j], ids[k], ids'[l], unique');
      }
    }
  }

  /** The memo table is right, if one is used. */
  ghost predicate Memoised<T>(deletes: seq<T>, inserts: seq<T>, pairCost: (T, T) -> u32,
                              ids: seq<nat>, ids': seq<nat>, unique': nat, useMemo: bool, memo: seq<u32>) {
    useMemo ==> MemoOk(deletes, inserts, pairCost, ids, ids', unique', memo)
  }

  /** The price of one pair, from the memo when there is one. */
  method PairPrice<T>(deletes: seq<T>, inserts: seq<T>, pairCost: (T, T) -> u32,
                      ids: seq<nat>, ghost unique: nat, ids': seq<nat>, unique': nat,
                      useMemo: bool, memo: array<u32>, i: nat, j: nat)
    returns (price: u32)
    requires i < |deletes| && j < |inserts|
    requires Numbering(deletes, ids, unique) && Numbering(inserts, ids', unique')
    requires Memoised(deletes, inserts, pairCost, ids, ids', unique', useMemo, memo[..])
    modifies memo
    ensures price == pairCost(deletes[i], inserts[j])
    ensures Memoised(deletes, inserts, pairCost, ids, ids', unique', useMemo, memo[..])
  {
    if !useMemo {
      return pairCost(deletes[i], inserts[j]);
    }
    var at := Idx(ids[i], ids'[j], unique');
    MemoFill(deletes, inserts, pairCost, ids, unique, ids', unique', memo[..], i, j);
    assert MemoEntry(pairCost(deletes[i], inserts[j]), memo[..], at);
    if memo[at] == 0xFFFF_FFFF {
      price := pairCost(deletes[i], inserts[j]);
      ghost var before := memo[..];
      memo[at] := price;
      assert memo[..] == before[at := price];
    } else {
      price := memo[at];
    }
  }

  // ----- filling the table -----

  /** A recorded step leads to a cell from which (i, j) is reached at least cost. */
  ghost predicate StepOk(c: Costs, i: nat, j: nat, step: Step) {
    match step
    case NoStep => i == 0 && j == 0
    case Take(op) => Due(c, i, j, op)
  }

  ghost predicate CellDone(c: Costs, steps: seq<Step>, width: nat, i: nat, j: nat) {
    Idx(i, j, width) < |steps| && StepOk(c, i, j, steps[Idx(i, j, width)])
  }

  /** All rows before `i`, and row `i` up to column `j`, are recorded. */
  ghost predicate Recorded(c: Costs, steps: seq<Step>, width: nat, i: nat, j: nat) {
    forall k: nat, l: nat :: l < width && (k < i || (k == i && l < j)) ==> CellDone(c, steps, width, k, l)
  }

  lemma Record(c: Costs, steps: seq<Step>, width: nat, i: nat, j: nat, step: Step)
    requires Recorded(c, steps, width, i, j) && j < width && Idx(i, j, width) < |steps| && StepOk(c, i, j, step)
    ensures Recorded(c, steps[Idx(i, j, width) := step], width, i, j + 1)
  {
    hide Idx, StepOk;
    var steps' := steps[Idx(i, j, width) := step];
    forall k: nat, l: nat | l < width && (k < i || (k == i && l < j + 1))
      ensures CellDone(c, steps', width, k, l)
    {
      if k == i && l == j {
      } else {
        assert CellDone(c, steps, width, k, l);
        if Idx(k, l, width) == Idx(i, j, width) {
          IdxInjective(k, l, i, j, width);
        }
      }
    }
  }

  /** A cost row: the least costs of row `i`, up to column `upto`. */
  ghost predicate Row(c: Costs, costs: seq<u32>, i: nat, upto: nat) {
    upto <= |costs| && forall l: nat :: l < upto ==> costs[l] as int == Opt(c, i, l)
  }

  lemma RowAt(c: Costs, costs: seq<u32>, i: nat, upto: nat, l: nat)
    requires Row(c, costs, i, upto) && l < upto
    ensures l < |costs| && costs[l] as int == Opt(c, i, l)
  {
  }

  lemma RowPush(c: Costs, costs: seq<u32>, i: nat, j: nat, best: u32)
    requires (j > 0 ==> Row(c, costs, i, j)) && j < |costs| && best as int == Opt(c, i, j)
    ensures Row(c, costs[j := best], i, j + 1)
  {
    hide Opt;
  }

  /** The choice made in one cell, on saturating 32-bit costs, is the true least cost. */
  method BestStep(ghost c: Costs, ghost i: nat, ghost j: nat, diagonal: u32, left: u32, above: u32, price: u32)
    returns (best: u32, step: Step)
    requires i > 0 && j > 0 && c.gap == GAP_COST as int && (i + j) * c.gap < U32_MAX
    requires diagonal as int == Opt(c, i - 1, j - 1) && left as int == Opt(c, i, j - 1)
             && above as int == Opt(c, i - 1, j)
    requires price as int == c.pair(i - 1, j - 1)
    ensures best as int == Opt(c, i, j) && StepOk(c, i, j, step)
  {
    OptCell(c, i, j);
    OptBound(c, i, j - 1);
    OptBound(c, i - 1, j);
    hide Opt;
    var pair := SaturatingAdd(diagonal, price);
    var insert := SaturatingAdd(left, GAP_COST);
    var delete := SaturatingAdd(above, GAP_COST);
    best, step := pair, Take(Pair);
    if insert < best {
      best, step := insert, Take(Insert);
    }
    if delete < best {
      best, step := delete, Take(Delete);
    }
  }

  /** Store the least cost of a cell in the current row. */
  method StoreCost(ghost c: Costs, curr: array<u32>, ghost i: nat, j: nat, best: u32)
    requires (j > 0 ==> Row(c, curr[..], i, j)) && j < curr.Length && best as int == Opt(c, i, j)
    modifies curr
    ensures Row(c, curr[..], i, j + 1)
  {
    hide Row, Opt;
    ghost var row := curr[..];
    RowPush(c, row, i, j, best);
    curr[j] := best;
    assert curr[..] == row[j := best];
  }

  /** Record the step into a cell in the flat table. */
  method StoreStep(ghost c: Costs, steps: array<Step>, width: nat, i: nat, j: nat, step: Step)
    requires Recorded(c, steps[..], width, i, j) && j < width && Idx(i, j, width) < steps.Length
             && StepOk(c, i, j, step)
    modifies steps
    ensures Recorded(c, steps[..], width, i, j + 1)
  {
    hide Recorded, StepOk, Idx;
    ghost var before := steps[..];
    Record(c, before, width, i, j, step);
    steps[Idx(i, j, width)] := step;
    assert steps[..] == before[Idx(i, j, width) := step];
  }

  /** One array entry for every cell of the table. */
  ghost predicate Sized(length: nat, n: nat, m: nat) {
    length == (n + 1) * (m + 1)
  }

  lemma CellFits(length: nat, n: nat, m: nat, i: nat, j: nat)
    requires Sized(length, n, m) && i <= n && j <= m
    ensures Idx(i, j, m + 1) < length
  {
    IdxBound(i, j, m + 1, n + 1);
  }

  /** Cell (i, j) of the table, from its three neighbours and the price of its pair. */
  method FillCell(ghost c: Costs, prev: array<u32>, curr: array<u32>, steps: array<Step>, ghost n: nat, m: nat,
                  i: nat, j: nat, price: u32)
    requires 0 < i <= n && 0 < j <= m && (n + m) * 100 < U32_MAX && c.gap == 100
    requires prev != curr && prev.Length == curr.Length == m + 1 && Sized(steps.Length, n, m)
    requires Row(c, prev[..], i - 1, m + 1) && Row(c, curr[..], i, j) && Recorded(c, steps[..], m + 1, i, j)
    requires price as int == c.pair(i - 1, j - 1)
    modifies curr, steps
    ensures Row(c, curr[..], i, j + 1) && Recorded(c, steps[..], m + 1, i, j + 1)
  {
    hide Opt, Numbering, MemoOk, Memoised, Recorded, Idx, StepOk, Row, Sized;
    CostRange(i, j, n, m);
    RowAt(c, prev[..], i - 1, m + 1, j - 1);
    RowAt(c, prev[..], i - 1, m + 1, j);
    RowAt(c, curr[..], i, j, j - 1);
    var best, step := BestStep(c, i, j, prev[j - 1], curr[j - 1], prev[j], price);
    StoreCost(c, curr, i, j, best);
    CellFits(steps.Length, n, m, i, j);
    StoreStep(c, steps, m + 1, i, j, step);
  }

  /** Fill row `i` of the table from row `i - 1`. */
  method FillRow<T>(deletes: seq<T>, inserts: seq<T>, pairCost: (T, T) -> u32,
                    ids: seq<nat>, ghost unique: nat, ids': seq<nat>, unique': nat, useMemo: bool, memo: array<u32>,
                    prev: array<u32>, curr: array<u32>, steps: array<Step>, i: nat)
    requires 0 < i <= |deletes| && (|deletes| + |inserts|) * 100 < U32_MAX
    requires Numbering(deletes, ids, unique) && Numbering(inserts, ids', unique')
    requires Memoised(deletes, inserts, pairCost, ids, ids', unique', useMemo, memo[..])
    requires memo != prev && memo != curr && prev != curr
    requires prev.Length == curr.Length == |inserts| + 1 && Sized(steps.Length, |deletes|, |inserts|)
    requires var c := BlockCosts(deletes, inserts, pairCost);
             Row(c, prev[..], i - 1, |inserts| + 1) && Recorded(c, steps[..], |inserts| + 1, i, 0)
    modifies memo, curr, steps
    ensures Memoised(deletes, inserts, pairCost, ids, ids', unique', useMemo, memo[..])
    ensures var c := BlockCosts(deletes, inserts, pairCost);
            Row(c, curr[..], i, |inserts| + 1) && Recorded(c, steps[..], |inserts| + 1, i + 1, 0)
  {
    hide Opt, Numbering, MemoOk, Memoised, Recorded, Idx, StepOk, Row, Sized, BlockCosts;
    ghost var c := BlockCosts(deletes, inserts, pairCost);
    var m := |inserts|;
    BlockGap(deletes, inserts, pairCost);
    RowStart(c, i, |deletes|, m);
    CellFits(steps.Length, |deletes|, m, i, 0);
    StoreCost(c, curr, i, 0, i as u32 * GAP_COST);
    StoreStep(c, steps, m + 1, i, 0, Take(Delete));
    for j := 1 to m + 1
      invariant Recorded(c, steps[..], m + 1, i, j)
      invariant Row(c, curr[..], i, j) && Row(c, prev[..], i - 1, m + 1)
      invariant Memoised(deletes, inserts, pairCost, ids, ids', unique', useMemo, memo[..])
    {
      var price := PairPrice(deletes, inserts, pairCost, ids, unique, ids', unique', useMemo, memo, i - 1, j - 1);
      BlockPair(deletes, inserts, pairCost, i - 1, j - 1);
      FillCell(c, prev, curr, steps, |deletes|, m, i, j, price);
    }
    NextRow(c, steps[..], m + 1, i);
  }

  lemma BlockGap<T>(deletes: seq<T>, inserts: seq<T>, pairCost: (T, T) -> u32)
    ensures BlockCosts(deletes, inserts, pairCost).gap == 100 && GAP_COST as int == 100
  {
  }

  lemma BlockPair<T>(deletes: seq<T>, inserts: seq<T>, pairCost: (T, T) -> u32, i: nat, j: nat)
    requires i < |deletes| && j < |inserts|
    ensures BlockCosts(deletes, inserts, pairCost).pair(i, j) == pairCost(deletes[i], inserts[j]) as int
  {
  }

  lemma NextRow(c: Costs, steps: seq<Step>, width: nat, i: nat)
    requires Recorded(c, steps, width, i, width)
    ensures Recorded(c, steps, width, i + 1, 0)
  {
    hide CellDone;
  }

  lemma CostRange(i: nat, j: nat, n: nat, m: nat)
    requires i <= n && j <= m && (n + m) * 100 < U32_MAX
    ensures (i + j) * 100 < U32_MAX && i * 100 < U32_MAX
  {
  }

  lemma RowStart(c: Costs, i: nat, n: nat, m: nat)
    requires 0 < i <= n && (n + m) * 100 < U32_MAX && c.gap == 100
    ensures i * 100 < U32_MAX && Opt(c, i, 0) == i * 100 && StepOk(c, i, 0, Take(Delete))
  {
    OptEdges(c, i);
    OptEdges(c, i - 1);
  }

  lemma FirstRow(c: Costs, j: nat)
    requires 0 < j && c.gap == 100
    ensures Opt(c, 0, j) == j * 100 && StepOk(c, 0, j, Take(Insert))
  {
    OptEdges(c, j);
    OptEdges(c, j - 1);
  }

  // ----- reading the alignment back -----

  /** Operations pushed so far, read forwards, align everything from (i, j) on. */
  ghost predicate Tail(c: Costs, rev: seq<Op>, i: int, j: int, n: nat, m: nat) {
    && 0 <= i <= n && 0 <= j <= m
    && Consumes(Reversed(rev), n - i, m - j)
    && Opt(c, i, j) + CostFrom(c, Reversed(rev), i, j) == Opt(c, n, m)
    && DueFrom(c, Reversed(rev), i, j)
  }

  lemma TailPush(c: Costs, rev: seq<Op>, i: nat, j: nat, n: nat, m: nat, op: Op)
    requires Tail(c, rev, i, j, n, m) && StepOk(c, i, j, Take(op))
    ensures Tail(c, rev + [op], if op.Insert? then i else i - 1, if op.Delete? then j else j - 1, n, m)
  {
    hide Opt;
    ReversedPush(rev, op);
    assert ([op] + Reversed(rev))[1..] == Reversed(rev);
  }

  lemma TailStart(c: Costs, n: nat, m: nat)
    ensures Tail(c, [], n, m, n, m)
  {
    hide Opt;
  }

  lemma TailEnd(c: Costs, rev: seq<Op>, n: nat, m: nat)
    requires Tail(c, rev, 0, 0, n, m)
    ensures Consumes(Reversed(rev), n, m) && CostFrom(c, Reversed(rev), 0, 0) == Opt(c, n, m)
    ensures DueFrom(c, Reversed(rev), 0, 0)
  {
    OptEdges(c, 0);
    hide Opt, CostFrom, Consumes;
  }

  lemma StepRecorded(c: Costs, steps: seq<Step>, n: nat, m: nat, i: nat, j: nat)
    requires Recorded(c, steps, m + 1, n + 1, 0) && i <= n && j <= m
    ensures Idx(i, j, m + 1) < |steps| && StepOk(c, i, j, steps[Idx(i, j, m + 1)])
  {
    hide StepOk, Idx;
    assert CellDone(c, steps, m + 1, i, j);
  }

  /** The operation walked back, with what stands in where none was recorded. */
  function Taken(step: Step, i: int, j: int): Op {
    if step == Take(Pair) && i > 0 && j > 0 then Pair
    else if step == Take(Insert) && j > 0 then Insert
    else if step == Take(Delete) && i > 0 then Delete
    else if j > 0 then Insert else Delete
  }

  lemma StepTaken(c: Costs, i: nat, j: nat, step: Step)
    requires StepOk(c, i, j, step) && (i > 0 || j > 0)
    ensures StepOk(c, i, j, Take(Taken(step, i, j)))
  {
    hide Opt;
  }

  /** Walk the step table back from the far corner. */
  method ReadBack(ghost c: Costs, steps: array<Step>, n: nat, m: nat) returns (ops: seq<Op>)
    requires Sized(steps.Length, n, m) && Recorded(c, steps[..], m + 1, n + 1, 0)
    ensures Consumes(ops, n, m) && CostFrom(c, ops, 0, 0) == Opt(c, n, m) && DueFrom(c, ops, 0, 0)
  {
    hide DueFrom, Tail, Recorded, CellDone, StepOk, Idx, Opt, Consumes, CostFrom, Sized, Reversed;
    var width := m + 1;
    var i: int, j: int := n, m;
    var rev: seq<Op> := [];
    TailStart(c, n, m);
    while i > 0 || j > 0
      invariant 0 <= i <= n && 0 <= j <= m && Tail(c, rev, i, j, n, m)
      decreases i + j
    {
      StepRecorded(c, steps[..], n, m, i, j);
      var step := steps[Idx(i, j, width)];
      StepTaken(c, i, j, step);
      TailPush(c, rev, i, j, n, m, Taken(step, i, j));
      if step == Take(Pair) && i > 0 && j > 0 {
        rev := rev + [Pair];
        i, j := i - 1, j - 1;
      } else if step == Take(Insert) && j > 0 {
        rev := rev + [Insert];
        j := j - 1;
      } else if step == Take(Delete) && i > 0 {
        rev := rev + [Delete];
        i := i - 1;
      } else if j > 0 {
        rev := rev + [Insert];
        j := j - 1;
      } else {
        rev := rev + [Delete];
        i := i - 1;
      }
    }
    TailEnd(c, rev, n, m);
    ops := Reversed(rev);
  }

  /** Row 0: everything inserted. */
  method FillFirstRow(ghost c: Costs, prev: array<u32>, steps: array<Step>, n: nat, m: nat)
    requires (n + m) * 100 < U32_MAX && c.gap == 100
    requires prev.Length == m + 1 && prev[0] == 0
    requires Sized(steps.Length, n, m) && steps.Length > 0 && steps[0] == NoStep
    modifies prev, steps
    ensures Row(c, prev[..], 0, m + 1) && Recorded(c, steps[..], m + 1, 1, 0)
  {
    var width := m + 1;
    FirstCell(c, steps[..], width);
    hide Opt, Recorded, Idx, StepOk;
    for j := 1 to m + 1
      invariant Row(c, prev[..], 0, j) && Recorded(c, steps[..], width, 0, j)
    {
      CostRange(0, j, n, m);
      FirstRow(c, j);
      prev[j] := j as u32 * GAP_COST;
      ghost var before := steps[..];
      IdxBound(0, j, width, n + 1);
      FlatFirstRow(j, width);
      steps[j] := Take(Insert);
      Record(c, before, width, 0, j, Take(Insert));
      assert steps[..] == before[Idx(0, j, width) := Take(Insert)];
    }
    NextRow(c, steps[..], width, 0);
  }

  /** The memo table is only allocated when some text repeats. */
  method NewMemo<T>(deletes: seq<T>, inserts: seq<T>, pairCost: (T, T) -> u32,
                    ids: seq<nat>, unique: nat, ids': seq<nat>, unique': nat, useMemo: bool) returns (memo: array<u32>)
    requires Numbering(deletes, ids, unique) && Numbering(inserts, ids', unique')
    ensures fresh(memo)
    ensures Memoised(deletes, inserts, pairCost, ids, ids', unique', useMemo, memo[..])
  {
    if useMemo {
      memo := new u32[unique * unique'](_ => 0xFFFF_FFFF);
      FreshMemo(deletes, inserts, pairCost, ids, unique, ids', unique', memo[..]);
    } else {
      memo := new u32[0];
    }
  }

  method FillTable<T(==)>(deletes: seq<T>, inserts: seq<T>, pairCost: (T, T) -> u32) returns (steps: array<Step>)
    requires (|deletes| + |inserts|) * 100 < U32_MAX
    ensures Sized(steps.Length, |deletes|, |inserts|)
    ensures Recorded(BlockCosts(deletes, inserts, pairCost), steps[..], |inserts| + 1, |deletes| + 1, 0)
  {
    hide MemoOk, Memoised, Numbering, Recorded, Opt, StepOk, Row;
    ghost var c := BlockCosts(deletes, inserts, pairCost);
    var n, m := |deletes|, |inserts|;
    var width := m + 1;
    IdxBound(0, 0, width, n + 1);
    hide Idx;
    var prev := new u32[width](_ => 0);
    var curr := new u32[width](_ => 0);
    steps := new Step[(n + 1) * width](_ => NoStep);
    var ids, unique, repeated := TextIds(deletes);
    var ids', unique', repeated' := TextIds(inserts);
    var useMemo := repeated || repeated';
    var memo := NewMemo(deletes, inserts, pairCost, ids, unique, ids', unique', useMemo);
    FillFirstRow(c, prev, steps, n, m);
    for i := 1 to n + 1
      invariant Row(c, prev[..], i - 1, width) && Recorded(c, steps[..], width, i, 0)
      invariant Memoised(deletes, inserts, pairCost, ids, ids', unique', useMemo, memo[..])
      invariant prev != curr && prev.Length == curr.Length == width && fresh(prev) && fresh(curr)
      invariant prev != memo && curr != memo
    {
      FillRow(deletes, inserts, pairCost, ids, unique, ids', unique', useMemo, memo, prev, curr, steps, i);
      prev, curr := curr, prev;
    }
  }

  /** A cheapest alignment of the two blocks, whatever the pair prices are. */
  method AlignReplacement<T(==)>(deletes: seq<T>, inserts: seq<T>, pairCost: (T, T) -> u32) returns (ops: seq<Op>)
    requires (|deletes| + |inserts|) * 100 < U32_MAX
    ensures Cheapest(BlockCosts(deletes, inserts, pairCost), ops, |deletes|, |inserts|)
    ensures DueFrom(BlockCosts(deletes, inserts, pairCost), ops, 0, 0)
  {
    var steps := FillTable(deletes, inserts, pairCost);
    ghost var c := BlockCosts(deletes, inserts, pairCost);
    ops := ReadBack(c, steps, |deletes|, |inserts|);
    LeastIsCheapest(c, ops, |deletes|, |inserts|);
  }

  lemma LeastIsCheapest(c: Costs, ops: seq<Op>, n: nat, m: nat)
    requires Consumes(ops, n, m) && CostFrom(c, ops, 0, 0) == Opt(c, n, m)
    ensures Cheapest(c, ops, n, m)
  {
    hide Consumes, Opt, CostFrom;
    forall other | Consumes(other, n, m)
      ensures CostFrom(c, ops, 0, 0) <= CostFrom(c, other, 0, 0)
    {
      OptIsLeast(c, other, n, m);
    }
  }

  lemma FlatFirstRow(j: nat, width: nat)
    ensures Idx(0, j, width) == j
  {
  }

  lemma FirstCell(c: Costs, steps: seq<Step>, width: nat)
    requires width > 0 && |steps| > 0 && steps[0] == NoStep
    ensures Recorded(c, steps, width, 0, 1) && Opt(c, 0, 0) == 0
  {
  }

  lemma FreshMemo<T>(deletes: seq<T>, inserts: seq<T>, pairCost: (T, T) -> u32,
                     ids: seq<nat>, unique: nat, ids': seq<nat>, unique': nat, memo: seq<u32>)
    requires Numbering(deletes, ids, unique) && Numbering(inserts, ids', unique')
    requires |memo| == unique * unique' && forall k :: 0 <= k < |memo| ==> memo[k] == 0xFFFF_FFFF
    ensures MemoOk(deletes, inserts, pairCost, ids, ids', unique', memo)
  {
    hide Idx;
    forall i, j | 0 <= i < |deletes| && 0 <= j < |inserts|
      ensures MemoEntry(pairCost(deletes[i], inserts[j]), memo, Idx(ids[i], ids'[j], unique'))
    {
      IdxBound(ids[i], ids'[j], unique', unique);
    }
  }
}
