module Alignment {
  // Monotone alignments of one sequence with another: what they cost, and the least cost possible.

  import opened Levenshtein

  datatype Op = Pair | Delete | Insert

  /** What pairing and skipping cost: old unit i with new unit j, and any unit left alone. */
  datatype Costs = Costs(pair: (nat, nat) -> nat, gap: nat)

  ghost function OldUsed(ops: seq<Op>): nat {
    if ops == [] then 0 else (if ops[0].Insert? then 0 else 1) + OldUsed(ops[1..])
  }

  ghost function NewUsed(ops: seq<Op>): nat {
    if ops == [] then 0 else (if ops[0].Delete? then 0 else 1) + NewUsed(ops[1..])
  }

  /** The alignment consumes exactly `n` old and `m` new units. */
  ghost predicate Consumes(ops: seq<Op>, n: int, m: int) {
    OldUsed(ops) == n && NewUsed(ops) == m
  }

  ghost function StepCost(c: Costs, op: Op, i: nat, j: nat): nat {
    if op.Pair? then c.pair(i, j) else c.gap
  }

  /** The cost of an alignment that starts at old unit `i` and new unit `j`. */
  ghost function CostFrom(c: Costs, ops: seq<Op>, i: nat, j: nat): nat {
    if ops == [] then 0
    else
      StepCost(c, ops[0], i, j)
      + CostFrom(c, ops[1..], if ops[0].Insert? then i else i + 1, if ops[0].Delete? then j else j + 1)
  }

  /** The least cost of aligning the first `i` old with the first `j` new units. */
  ghost function Opt(c: Costs, i: nat, j: nat): nat {
    if i == 0 then j * c.gap
    else if j == 0 then i * c.gap
    else Min(Opt(c, i - 1, j - 1) + c.pair(i - 1, j - 1), Min(Opt(c, i, j - 1), Opt(c, i - 1, j)) + c.gap)
  }

  lemma OptEdges(c: Costs, i: nat)
    ensures Opt(c, i, 0) == i * c.gap && Opt(c, 0, i) == i * c.gap
  {
  }

  lemma OptCell(c: Costs, i: nat, j: nat)
    requires i > 0 && j > 0
    ensures Opt(c, i, j)
         == Min(Opt(c, i - 1, j - 1) + c.pair(i - 1, j - 1), Min(Opt(c, i, j - 1), Opt(c, i - 1, j)) + c.gap)
  {
  }

  /** Skipping everything is always possible. */
  lemma {:induction false} OptBound(c: Costs, i: nat, j: nat)
    ensures Opt(c, i, j) <= (i + j) * c.gap
    decreases i + j
  {
    if i > 0 && j > 0 {
      OptBound(c, i, j - 1);
      OneMore(i + j, c.gap);
    }
  }

  lemma OneMore(n: nat, g: nat)
    requires n > 0
    ensures (n - 1) * g + g == n * g
  {
  }

  lemma OptStep(c: Costs, op: Op, i: nat, j: nat)
    ensures Opt(c, if op.Insert? then i else i + 1, if op.Delete? then j else j + 1)
         <= Opt(c, i, j) + StepCost(c, op, i, j)
  {
    OneMore(i + 1, c.gap);
    OneMore(j + 1, c.gap);
  }

  lemma {:induction false} OptFrom(c: Costs, ops: seq<Op>, i: nat, j: nat)
    ensures Opt(c, i + OldUsed(ops), j + NewUsed(ops)) <= Opt(c, i, j) + CostFrom(c, ops, i, j)
    decreases |ops|
  {
    hide Opt;
    if ops != [] {
      OptStep(c, ops[0], i, j);
      OptFrom(c, ops[1..], if ops[0].Insert? then i else i + 1, if ops[0].Delete? then j else j + 1);
    }
  }

  /** No alignment of the first `n` with the first `m` units is cheaper than `Opt`. */
  lemma OptIsLeast(c: Costs, ops: seq<Op>, n: nat, m: nat)
    requires Consumes(ops, n, m)
    ensures Opt(c, n, m) <= CostFrom(c, ops, 0, 0)
  {
    OptFrom(c, ops, 0, 0);
  }

  /** `ops` aligns the two blocks completely, and no complete alignment is cheaper. */
  ghost predicate Cheapest(c: Costs, ops: seq<Op>, n: nat, m: nat) {
    && Consumes(ops, n, m)
    && forall other :: Consumes(other, n, m) ==> CostFrom(c, ops, 0, 0) <= CostFrom(c, other, 0, 0)
  }

  // ----- which cheapest alignment -----

  /** The operation that ends a cheapest alignment of the first `i` with the first `j` units: a pair if
      one does, else an insertion if one does, else a deletion. */
  ghost predicate Due(c: Costs, i: nat, j: nat, op: Op) {
    match op
    case Pair => i > 0 && j > 0 && Opt(c, i, j) == Opt(c, i - 1, j - 1) + c.pair(i - 1, j - 1)
    case Insert =>
      && j > 0 && Opt(c, i, j) == Opt(c, i, j - 1) + c.gap
      && (i > 0 ==> Opt(c, i, j) < Opt(c, i - 1, j - 1) + c.pair(i - 1, j - 1))
    case Delete =>
      && i > 0 && Opt(c, i, j) == Opt(c, i - 1, j) + c.gap
      && (j > 0 ==>
            Opt(c, i, j) < Opt(c, i - 1, j - 1) + c.pair(i - 1, j - 1) && Opt(c, i, j) < Opt(c, i, j - 1) + c.gap)
  }

  /** Every operation is the one that is due, from (i, j) on. */
  ghost predicate DueFrom(c: Costs, ops: seq<Op>, i: nat, j: nat)
    decreases |ops|
  {
    ops != [] ==>
      var i', j' := if ops[0].Insert? then i else i + 1, if ops[0].Delete? then j else j + 1;
      Due(c, i', j', ops[0]) && DueFrom(c, ops[1..], i', j')
  }

  lemma {:induction false} DueLast(c: Costs, ops: seq<Op>, i: nat, j: nat)
    requires DueFrom(c, ops, i, j) && ops != []
    ensures DueFrom(c, ops[..|ops| - 1], i, j)
    ensures Due(c, i + OldUsed(ops), j + NewUsed(ops), ops[|ops| - 1])
    ensures OldUsed(ops) == OldUsed(ops[..|ops| - 1]) + if ops[|ops| - 1].Insert? then 0 else 1
    ensures NewUsed(ops) == NewUsed(ops[..|ops| - 1]) + if ops[|ops| - 1].Delete? then 0 else 1
    decreases |ops|
  {
    hide Due;
    if |ops| > 1 {
      var i', j' := if ops[0].Insert? then i else i + 1, if ops[0].Delete? then j else j + 1;
      DueLast(c, ops[1..], i', j');
      assert ops[..|ops| - 1][1..] == ops[1..][..|ops| - 2];
      assert ops[1..][|ops| - 2] == ops[|ops| - 1];
    } else {
      assert ops[1..] == [];
    }
  }

  lemma DueOnce(c: Costs, i: nat, j: nat, op: Op, op': Op)
    requires Due(c, i, j, op) && Due(c, i, j, op')
    ensures op == op'
  {
    hide Opt;
  }

  /** Only one alignment of two blocks is made of the operations that are due. */
  lemma {:induction false} DueIsUnique(c: Costs, ops: seq<Op>, ops': seq<Op>)
    requires DueFrom(c, ops, 0, 0) && DueFrom(c, ops', 0, 0)
    requires OldUsed(ops) == OldUsed(ops') && NewUsed(ops) == NewUsed(ops')
    ensures ops == ops'
    decreases |ops|
  {
    hide Due;
    if ops != [] && ops' != [] {
      DueLast(c, ops, 0, 0);
      DueLast(c, ops', 0, 0);
      DueOnce(c, OldUsed(ops), NewUsed(ops), ops[|ops| - 1], ops'[|ops'| - 1]);
      DueIsUnique(c, ops[..|ops| - 1], ops'[..|ops'| - 1]);
      assert ops == ops[..|ops| - 1] + [ops[|ops| - 1]] && ops' == ops'[..|ops'| - 1] + [ops'[|ops'| - 1]];
    }
  }

  /** Two single lines are paired exactly when that is no dearer than leaving both alone. */
  lemma OneEach(c: Costs, ops: seq<Op>)
    requires Consumes(ops, 1, 1) && DueFrom(c, ops, 0, 0)
    ensures ops == if c.pair(0, 0) <= 2 * c.gap then [Pair] else [Delete, Insert]
  {
    OptEdges(c, 1);
    OptEdges(c, 0);
    OptCell(c, 1, 1);
    DueHere(c);
    hide Opt, Due;
    var expected := if c.pair(0, 0) <= 2 * c.gap then [Pair] else [Delete, Insert];
    assert [Pair][1..] == [] && [Delete, Insert][1..] == [Insert] && [Insert][1..] == [];
    DueIsUnique(c, ops, expected);
  }

  lemma DueHere(c: Costs)
    ensures c.pair(0, 0) <= 2 * c.gap ==> Due(c, 1, 1, Pair)
    ensures c.pair(0, 0) > 2 * c.gap ==> Due(c, 1, 1, Insert) && Due(c, 1, 0, Delete)
  {
    OptEdges(c, 1);
    OptEdges(c, 0);
    OptCell(c, 1, 1);
  }

  // ----- Levenshtein distance as an alignment cost -----

  ghost function UnitCosts<T>(a: seq<T>, b: seq<T>): Costs {
    Costs((i: nat, j: nat) => if i < |a| && j < |b| && a[i] == b[j] then 0 else 1, 1)
  }

  lemma {:induction false} LevIsOpt<T>(a: seq<T>, b: seq<T>, i: nat, j: nat)
    requires i <= |a| && j <= |b|
    ensures Lev(a, b, i, j) == Opt(UnitCosts(a, b), i, j)
    decreases i + j
  {
    hide Lev, Opt;
    var c := UnitCosts(a, b);
    if i == 0 || j == 0 {
      Edges(a, b);
      OptEdges(c, i);
      OptEdges(c, j);
    } else {
      LevIsOpt(a, b, i - 1, j - 1);
      LevIsOpt(a, b, i - 1, j);
      LevIsOpt(a, b, i, j - 1);
      Cell(a, b, i - 1, j - 1);
      OptCell(c, i, j);
    }
  }

  /** The recursive distance is a lower bound for every way of editing `a` into `b` unit by unit. */
  lemma DistanceIsLeast<T>(a: seq<T>, b: seq<T>, ops: seq<Op>)
    requires Consumes(ops, |a|, |b|)
    ensures Distance(a, b) <= CostFrom(UnitCosts(a, b), ops, 0, 0)
  {
    LevIsOpt(a, b, |a|, |b|);
    OptIsLeast(UnitCosts(a, b), ops, |a|, |b|);
  }
}
