module Planner {
  // The side-by-side planner: from two files to runs, by one of three strategies.

  import opened Machine
  import opened EditScripts
  import opened InsDelDistance
  import opened LinearFallback
  import A = Alignment
  import R = ReplacementAlign
  import opened Myers
  import opened Patience
  import opened PlanRuns
  import opened PairCost

  const HISTOGRAM_LINE_THRESHOLD: nat := 1_024
  const LINEAR_FALLBACK_LINE_THRESHOLD: nat := 100_000
  const SPARSE_MAX_CHANGED_RATIO_DENOMINATOR: nat := 4
  const SPARSE_MAX_BLOCK_LEN: nat := 1

  predicate EndsWithNewline(text: string) {
    text != [] && text[|text| - 1] == '\n'
  }

  function EofNewlineDelta(oldText: string, newText: string): EofNewline {
    match (EndsWithNewline(oldText), EndsWithNewline(newText))
    case (false, true) => MissingInOld
    case (true, false) => MissingInNew
    case _ => NoDelta
  }

  ghost predicate Terminated(text: string) {
    exists lines: string :: text == lines + "\n"
  }

  /** Which file alone lacks a newline at its end. */
  ghost predicate EofMeans(eof: EofNewline, oldText: string, newText: string) {
    && (eof == MissingInOld <==> !Terminated(oldText) && Terminated(newText))
    && (eof == MissingInNew <==> Terminated(oldText) && !Terminated(newText))
  }

  lemma EofDeltaMeans(oldText: string, newText: string)
    ensures EofMeans(EofNewlineDelta(oldText, newText), oldText, newText)
  {
    EndsMeansTerminated(oldText);
    EndsMeansTerminated(newText);
    hide EndsWithNewline, Terminated;
  }

  lemma EndsMeansTerminated(text: string)
    ensures EndsWithNewline(text) <==> Terminated(text)
  {
    if EndsWithNewline(text) {
      assert text == text[..|text| - 1] + "\n";
    }
  }

  // ----- replaced blocks -----

  lemma {:induction false} SumBelowProduct(n: nat, m: nat)
    requires n > 0 && m > 0
    ensures n + m <= n * m + 1
  {
    if m > 1 {
      SumBelowProduct(n, m - 1);
      assert n * m == n * (m - 1) + n;
    }
  }

  /** Blocks within the cell budget are short enough for 32-bit costs. */
  lemma BudgetBoundsCosts(n: nat, m: nat)
    requires n > 0 && m > 0 && n * m <= ALIGN_CELL_BUDGET
    ensures (n + m) * 100 < U32_MAX
  {
    SumBelowProduct(n, m);
  }

  /** Paired rows first, then what is left of the longer side. */
  function PositionRuns(runs: seq<Run>, i: nat, oldLen: nat, j: nat, newLen: nat): seq<Run> {
    var paired := if oldLen < newLen then oldLen else newLen;
    Appended(Appended(Appended(runs, Modify(i, j, paired)), Remove(i + paired, oldLen - paired)),
             Add(j + paired, newLen - paired))
  }

  /** One row per alignment operation, from old line `i` and new line `j` on. */
  function OpsRuns(runs: seq<Run>, ops: seq<A.Op>, i: nat, j: nat): seq<Run>
    decreases |ops|
  {
    if ops == [] then runs
    else
      match ops[0]
      case Pair => OpsRuns(Appended(runs, Modify(i, j, 1)), ops[1..], i + 1, j + 1)
      case Delete => OpsRuns(Appended(runs, Remove(i, 1)), ops[1..], i + 1, j)
      case Insert => OpsRuns(Appended(runs, Add(j, 1)), ops[1..], i, j + 1)
  }

  /** The pairs of lines that the operations pair, from old line `i` and new line `j` on. */
  ghost function OpPairs(ops: seq<A.Op>, i: nat, j: nat): set<LinePair> {
    if ops == [] then {}
    else
      var front := ops[..|ops| - 1];
      OpPairs(front, i, j) + if ops[|ops| - 1].Pair? then {(i + A.OldUsed(front), j + A.NewUsed(front))} else {}
  }

  lemma {:induction false} UsedConcat(s: seq<A.Op>, t: seq<A.Op>)
    ensures A.OldUsed(s + t) == A.OldUsed(s) + A.OldUsed(t) && A.NewUsed(s + t) == A.NewUsed(s) + A.NewUsed(t)
  {
    if s == [] {
      assert s + t == t;
    } else {
      assert (s + t)[1..] == s[1..] + t;
      UsedConcat(s[1..], t);
    }
  }

  /** One more operation. */
  lemma OpPairsNext(ops: seq<A.Op>, k: nat, i: nat, j: nat)
    requires k < |ops|
    ensures OpPairs(ops[..k + 1], i, j)
         == OpPairs(ops[..k], i, j) + if ops[k].Pair? then {(i + A.OldUsed(ops[..k]), j + A.NewUsed(ops[..k]))} else {}
    ensures A.OldUsed(ops[..k]) + A.OldUsed(ops[k..]) == A.OldUsed(ops)
    ensures A.NewUsed(ops[..k]) + A.NewUsed(ops[k..]) == A.NewUsed(ops)
  {
    assert ops[..k + 1][..k] == ops[..k];
    assert ops == ops[..k] + ops[k..];
    UsedConcat(ops[..k], ops[k..]);
    hide A.OldUsed, A.NewUsed;
  }

  /** A block added so many rows and shows these pairs of lines beside each other as changed. */
  ghost predicate PairsAdded(before: seq<Run>, after: seq<Run>, pairs: set<LinePair>, rows: nat) {
    ChangedPairs(after) == ChangedPairs(before) + pairs && Rows(after) == Rows(before) + rows
  }

  function Min(x: nat, y: nat): nat {
    if x < y then x else y
  }

  function Max(x: nat, y: nat): nat {
    if x < y then y else x
  }

  lemma AppendNothing(runs: seq<Run>, r: Run)
    ensures r.len == 0 ==> Appended(runs, r) == runs
  {
  }

  /** Pair lines by position, and leave the rest of the longer side unpaired. */
  method PairByPosition<T>(pb: PlanBuilder, ghost a: seq<T>, ghost b: seq<T>, i: nat, oldLen: nat, j: nat, newLen: nat)
    requires pb.At(a, b, i, j)
    modifies pb
    ensures pb.At(a, b, i + oldLen, j + newLen)
    ensures pb.runs == PositionRuns(old(pb.runs), i, oldLen, j, newLen)
    ensures ContextRows(pb.runs) == old(ContextRows(pb.runs)) && UnchangedPairs(pb.runs) == old(UnchangedPairs(pb.runs))
    ensures PairsAdded(old(pb.runs), pb.runs, Diagonal(i, j, Min(oldLen, newLen)), Max(oldLen, newLen))
    ensures oldLen + newLen > 0 ==> !EndsInContext(pb.runs)
  {
    hide Covers, Rows, InlineRows, ContextRows, UnchangedPairs, ChangedPairs, EndsInContext, Appended;
    var paired := if oldLen < newLen then oldLen else newLen;
    ghost var paired1 := Appended(pb.runs, Modify(i, j, paired));
    ghost var paired2 := Appended(paired1, Remove(i + paired, oldLen - paired));
    AppendNothing(pb.runs, Modify(i, j, paired));
    AppendNothing(paired1, Remove(i + paired, oldLen - paired));
    AppendNothing(paired2, Add(j + paired, newLen - paired));
    NoPairs(Modify(i, j, paired));
    NoPairs(Remove(i + paired, oldLen - paired));
    NoPairs(Add(j + paired, newLen - paired));
    if paired > 0 {
      pb.Push(Modify(i, j, paired), a, b, i, j);
    }
    if oldLen > paired {
      pb.Push(Remove(i + paired, oldLen - paired), a, b, i + paired, j + paired);
    }
    if newLen > paired {
      pb.Push(Add(j + paired, newLen - paired), a, b, i + oldLen, j + paired);
    }
  }

  /** Operations still to be pushed consume exactly what is left of the block. */
  lemma OpsLeft(ops: seq<A.Op>, k: nat)
    requires k < |ops|
    ensures A.OldUsed(ops[k..]) == (if ops[k].Insert? then 0 else 1) + A.OldUsed(ops[k + 1..])
    ensures A.NewUsed(ops[k..]) == (if ops[k].Delete? then 0 else 1) + A.NewUsed(ops[k + 1..])
  {
    assert ops[k..][1..] == ops[k + 1..];
  }

  /** Push one run per alignment operation. */
  method PushOps<T>(pb: PlanBuilder, ghost a: seq<T>, ghost b: seq<T>, i: nat, i': nat, j: nat, j': nat, ops: seq<A.Op>)
    requires pb.At(a, b, i, j) && i <= i' && j <= j' && A.Consumes(ops, i' - i, j' - j)
    modifies pb
    ensures pb.At(a, b, i', j')
    ensures pb.runs == OpsRuns(old(pb.runs), ops, i, j)
    ensures ContextRows(pb.runs) == old(ContextRows(pb.runs)) && UnchangedPairs(pb.runs) == old(UnchangedPairs(pb.runs))
    ensures PairsAdded(old(pb.runs), pb.runs, OpPairs(ops, i, j), |ops|)
    ensures ops != [] ==> !EndsInContext(pb.runs)
  {
    hide Covers, Rows, InlineRows, ContextRows, UnchangedPairs, ChangedPairs, EndsInContext, A.OldUsed, A.NewUsed,
         OpsRuns, Appended, OpPairs, ModifyPairs, ContextPairs;
    NoOpPairs(ops, i, j);
    var oi: nat, ni: nat := i, j;
    ghost var runs0 := pb.runs;
    assert ops[0..] == ops;
    for k := 0 to |ops|
      invariant pb.At(a, b, oi, ni)
      invariant oi + A.OldUsed(ops[k..]) == i' && ni + A.NewUsed(ops[k..]) == j'
      invariant OpsRuns(pb.runs, ops[k..], oi, ni) == OpsRuns(runs0, ops, i, j)
      invariant ContextRows(pb.runs) == ContextRows(runs0) && UnchangedPairs(pb.runs) == UnchangedPairs(runs0)
      invariant k > 0 ==> !EndsInContext(pb.runs)
      invariant PairsAdded(runs0, pb.runs, OpPairs(ops[..k], i, j), k)
    {
      OpsLeft(ops, k);
      OpPairsNext(ops, k, i, j);
      OneRowPairs(oi, ni);
      OpsRunsNext(pb.runs, ops, k, oi, ni);
      match ops[k] {
        case Pair =>
          pb.Push(Modify(oi, ni, 1), a, b, oi, ni);
          oi, ni := oi + 1, ni + 1;
        case Delete =>
          pb.Push(Remove(oi, 1), a, b, oi, ni);
          oi := oi + 1;
        case Insert =>
          pb.Push(Add(ni, 1), a, b, oi, ni);
          ni := ni + 1;
      }
    }
    NoOpsLeft(ops);
    NoOpsRuns(pb.runs, ops, oi, ni);
    assert ops[..|ops|] == ops;
  }

  lemma NoOpPairs(ops: seq<A.Op>, i: nat, j: nat)
    ensures OpPairs(ops[..0], i, j) == {}
  {
  }

  lemma OneRowPairs(i: nat, j: nat)
    ensures ModifyPairs(Modify(i, j, 1)) == {(i, j)} && ContextPairs(Modify(i, j, 1)) == {}
    ensures ModifyPairs(Remove(i, 1)) == {} && ContextPairs(Remove(i, 1)) == {}
    ensures ModifyPairs(Add(j, 1)) == {} && ContextPairs(Add(j, 1)) == {}
  {
    OneModified(i, j);
  }

  lemma OpsRunsNext(runs: seq<Run>, ops: seq<A.Op>, k: nat, i: nat, j: nat)
    requires k < |ops|
    ensures OpsRuns(runs, ops[k..], i, j) ==
            match ops[k]
            case Pair => OpsRuns(Appended(runs, Modify(i, j, 1)), ops[k + 1..], i + 1, j + 1)
            case Delete => OpsRuns(Appended(runs, Remove(i, 1)), ops[k + 1..], i + 1, j)
            case Insert => OpsRuns(Appended(runs, Add(j, 1)), ops[k + 1..], i, j + 1)
  {
    hide Appended;
    assert ops[k..][1..] == ops[k + 1..];
  }

  lemma NoOpsRuns(runs: seq<Run>, ops: seq<A.Op>, i: nat, j: nat)
    ensures OpsRuns(runs, ops[|ops|..], i, j) == runs
  {
  }

  lemma NoOpsLeft(ops: seq<A.Op>)
    ensures A.OldUsed(ops[|ops|..]) == 0 && A.NewUsed(ops[|ops|..]) == 0
  {
  }

  lemma OneSidedAdds(before: seq<Run>, r: Run)
    requires !r.Modify?
    ensures PairsAdded(before, Appended(before, r), {}, r.len)
  {
    AppendedChanged(before, r);
    AppendedRows(before, r);
    NoPairs(r);
    hide Appended;
  }

  lemma AppendedRows(runs: seq<Run>, r: Run)
    ensures Rows(Appended(runs, r)) == Rows(runs) + r.len
  {
    if r.len > 0 {
      if runs != [] && Continues(Last(runs), r) {
        assert Front(Front(runs) + [Extended(Last(runs), r)]) == Front(runs);
      } else {
        assert Front(runs + [r]) == runs;
      }
    }
  }

  /** How a replaced block is shown: one-sided blocks as they are, large ones paired by position, and
      all others by a cheapest alignment of the two; and so which lines stand beside each other. */
  ghost predicate ShownAs<T>(before: seq<Run>, after: seq<Run>, deletes: seq<T>, inserts: seq<T>, i: nat, j: nat,
                             pairCost: (T, T) -> u32) {
    var n, m := |deletes|, |inserts|;
    if deletes == [] then after == Appended(before, Add(j, m)) && PairsAdded(before, after, {}, m)
    else if inserts == [] then after == Appended(before, Remove(i, n)) && PairsAdded(before, after, {}, n)
    else if n * m > 50_000 then
      after == PositionRuns(before, i, n, j, m) && PairsAdded(before, after, Diagonal(i, j, Min(n, m)), Max(n, m))
    else exists ops ::
        && A.Cheapest(R.BlockCosts(deletes, inserts, pairCost), ops, n, m)
        && A.DueFrom(R.BlockCosts(deletes, inserts, pairCost), ops, 0, 0)
        && after == OpsRuns(before, ops, i, j) && PairsAdded(before, after, OpPairs(ops, i, j), |ops|)
  }

  /** A changed line is shown beside its replacement exactly when their price is at most 200. */
  lemma OneLineBlock<T>(before: seq<Run>, after: seq<Run>, x: T, y: T, i: nat, j: nat, pairCost: (T, T) -> u32)
    requires ShownAs(before, after, [x], [y], i, j, pairCost)
    ensures after == if pairCost(x, y) as int <= 200 then Appended(before, Modify(i, j, 1))
                     else Appended(Appended(before, Remove(i, 1)), Add(j, 1))
  {
    var c := R.BlockCosts([x], [y], pairCost);
    var ops :| A.Cheapest(c, ops, 1, 1) && A.DueFrom(c, ops, 0, 0) && after == OpsRuns(before, ops, i, j);
    hide A.Cheapest, A.DueFrom, ShownAs, OpsRuns, Appended, PairsAdded;
    CheapestConsumes(c, ops, 1, 1);
    A.OneEach(c, ops);
    OneEachRuns(before, i, j);
  }

  lemma OneEachRuns(before: seq<Run>, i: nat, j: nat)
    ensures OpsRuns(before, [A.Pair], i, j) == Appended(before, Modify(i, j, 1))
    ensures OpsRuns(before, [A.Delete, A.Insert], i, j) == Appended(Appended(before, Remove(i, 1)), Add(j, 1))
  {
    hide Appended;
    assert [A.Pair][1..] == [] && [A.Delete, A.Insert][1..] == [A.Insert] && [A.Insert][1..] == [];
  }

  /** Show a block of deleted lines against a block of inserted ones. */
  method PushAlignedReplacement<T(==)>(pb: PlanBuilder, a: seq<T>, b: seq<T>, i: nat, i': nat, j: nat, j': nat,
                                       pairCost: (T, T) -> u32)
    requires i <= i' <= |a| && j <= j' <= |b| && pb.At(a, b, i, j)
    modifies pb
    ensures pb.At(a, b, i', j')
    ensures ShownAs(old(pb.runs), pb.runs, a[i..i'], b[j..j'], i, j, pairCost)
    ensures ContextRows(pb.runs) == old(ContextRows(pb.runs)) && UnchangedPairs(pb.runs) == old(UnchangedPairs(pb.runs))
    ensures if i < i' || j < j' then !EndsInContext(pb.runs) else pb.runs == old(pb.runs)
  {
    hide Covers, Rows, InlineRows, ContextRows, UnchangedPairs, ChangedPairs, EndsInContext, A.Cheapest, A.DueFrom,
         OpsRuns;
    var deletes, inserts := a[i..i'], b[j..j'];
    NoPairs(Add(j, |inserts|));
    NoPairs(Remove(i, |deletes|));
    if deletes == [] {
      pb.Push(Add(j, |inserts|), a, b, i, j);
      return;
    }
    if inserts == [] {
      pb.Push(Remove(i, |deletes|), a, b, i, j);
      return;
    }
    if |deletes| * |inserts| > ALIGN_CELL_BUDGET {
      PairByPosition(pb, a, b, i, |deletes|, j, |inserts|);
      return;
    }
    BudgetBoundsCosts(|deletes|, |inserts|);
    var ops := R.AlignReplacement(deletes, inserts, pairCost);
    CheapestConsumes(R.BlockCosts(deletes, inserts, pairCost), ops, |deletes|, |inserts|);
    PushOps(pb, a, b, i, i', j, j', ops);
  }

  lemma CheapestConsumes(c: A.Costs, ops: seq<A.Op>, n: nat, m: nat)
    requires A.Cheapest(c, ops, n, m)
    ensures A.Consumes(ops, n, m) && (n > 0 ==> ops != [])
  {
  }

  /** Show shared lines as unchanged. */
  method PushContext<T>(pb: PlanBuilder, ghost a: seq<T>, ghost b: seq<T>, i: nat, j: nat, len: nat)
    requires SameRun(a, b, i, j, len) && pb.At(a, b, i, j)
    modifies pb
    ensures pb.At(a, b, i + len, j + len) && pb.runs == Appended(old(pb.runs), Context(i, j, len))
    ensures ContextRows(pb.runs) == old(ContextRows(pb.runs)) + len && pb.rowCount == old(pb.rowCount) + len
    ensures UnchangedPairs(pb.runs) == old(UnchangedPairs(pb.runs)) + Diagonal(i, j, len)
    ensures ChangedPairs(pb.runs) == old(ChangedPairs(pb.runs))
    ensures EndsInContext(pb.runs) <==> len > 0 || old(EndsInContext(pb.runs))
  {
    hide Covers, Rows, InlineRows, ContextRows, UnchangedPairs, ChangedPairs, EndsInContext, SameRun, Appended, RunOk,
         Diagonal;
    EqualRun(a, b, i, j, len);
    pb.Push(Context(i, j, len), a, b, i, j);
  }

  lemma EqualRun<T>(a: seq<T>, b: seq<T>, i: nat, j: nat, len: nat)
    requires SameRun(a, b, i, j, len)
    ensures len > 0 ==> RunOk(a, b, Context(i, j, len))
  {
  }

  // ----- the linear strategy -----

  /** Where a shared prefix and suffix leave the last line of both files on one row. */
  ghost predicate EndsShared<T>(a: seq<T>, b: seq<T>, prefix: nat, suffix: nat) {
    suffix > 0 || (prefix == |a| == |b| && prefix > 0)
  }

  /** The end-of-file rewrite adds an inline row when it applies. */
  function EofRow(eof: EofNewline, endsInContext: bool): nat {
    if eof != NoDelta && endsInContext then 1 else 0
  }

  /** The lines before and after the interior as context, the interior as one replaced block. */
  ghost predicate AroundBlock<T>(a: seq<T>, b: seq<T>, prefix: nat, oldEnd: nat, newEnd: nat, runs: seq<Run>,
                                 pairCost: (T, T) -> u32)
    requires prefix <= oldEnd <= |a| && prefix <= newEnd <= |b|
  {
    exists inner ::
      && ShownAs(Appended([], Context(0, 0, prefix)), inner, a[prefix..oldEnd], b[prefix..newEnd], prefix, prefix,
                 pairCost)
      && runs == Appended(inner, Context(oldEnd, newEnd, |a| - oldEnd))
  }

  /** The block lies between the shared ends, which are the lines shown as unchanged. */
  ghost predicate LinearShown<T>(a: seq<T>, b: seq<T>, prefix: nat, suffix: nat, runs: seq<Run>,
                                 pairCost: (T, T) -> u32) {
    && Shared(a, b, prefix, suffix)
    && UnchangedPairs(runs) == EndPairs(|a|, |b|, prefix, suffix)
    && AroundBlock(a, b, prefix, |a| - suffix, |b| - suffix, runs, pairCost)
  }

  lemma LinearIsShown<T>(a: seq<T>, b: seq<T>, prefix: nat, suffix: nat, inner: seq<Run>, runs: seq<Run>,
                         pairCost: (T, T) -> u32)
    requires Shared(a, b, prefix, suffix) && prefix + suffix <= |a| && prefix + suffix <= |b|
    requires ShownAs(Appended([], Context(0, 0, prefix)), inner, a[prefix..|a| - suffix], b[prefix..|b| - suffix],
                     prefix, prefix, pairCost)
    requires UnchangedPairs(inner) == UnchangedPairs(Appended([], Context(0, 0, prefix)))
    requires runs == Appended(inner, Context(|a| - suffix, |b| - suffix, suffix))
    ensures LinearShown(a, b, prefix, suffix, runs, pairCost)
  {
    hide Appended, ShownAs, Shared, Diagonal;
    AppendedPairs([], Context(0, 0, prefix));
    AppendedPairs(inner, Context(|a| - suffix, |b| - suffix, suffix));
    EndPairsAre(|a|, |b|, prefix, suffix);
  }

  /** The runs of a plan before the end-of-file rewrite. */
  ghost predicate PlanOf<T>(a: seq<T>, b: seq<T>, p: Plan, runs: seq<Run>) {
    && Covers(a, b, runs, |a|, |b|) && Merged(runs) && p.runs == EofRuns(runs, p.eofNewline)
    && UnchangedPairs(p.runs) == AfterEof(UnchangedPairs(runs), |a|, |b|, p.eofNewline)
    && ChangedPairs(p.runs) == ChangedPairs(runs) + (UnchangedPairs(runs) - UnchangedPairs(p.runs))
  }

  /** Very large files: shared ends are kept and the whole interior is one replaced block. */
  method LinearPlan<T(==)>(oldText: string, newText: string, a: seq<T>, b: seq<T>, pairCost: (T, T) -> u32)
    returns (p: Plan)
    ensures PlanOk(a, b, p) && p.eofNewline == EofNewlineDelta(oldText, newText)
    ensures exists prefix: nat, suffix: nat, runs ::
              && LinearShown(a, b, prefix, suffix, runs, pairCost) && PlanOf(a, b, p, runs)
              && p.inlineRowCount == |a| + |b| - (prefix + suffix)
                 + EofRow(p.eofNewline, EndsShared(a, b, prefix, suffix))
  {
    hide *;
    var prefix, suffix := TrimEnds(a, b);
    var oldMidEnd, newMidEnd := |a| - suffix, |b| - suffix;
    var pb := NewBuilder(a, b);
    PushContext(pb, a, b, 0, 0, prefix);
    PushAlignedReplacement(pb, a, b, prefix, oldMidEnd, prefix, newMidEnd, pairCost);
    ghost var inner := pb.runs;
    PushContext(pb, a, b, oldMidEnd, newMidEnd, suffix);
    LinearIsShown(a, b, prefix, suffix, inner, pb.runs, pairCost);
    SharedEnd(a, b, prefix, suffix);
    ghost var runs := pb.runs;
    p := FinishPlan(pb, a, b, oldText, newText);
  }

  lemma SharedEnd<T>(a: seq<T>, b: seq<T>, prefix: nat, suffix: nat)
    requires prefix + suffix <= |a| && prefix + suffix <= |b|
    ensures EndsShared(a, b, prefix, suffix) <==>
              suffix > 0 || (if prefix < |a| - suffix || prefix < |b| - suffix then false else prefix > 0)
  {
  }

  method NewBuilder<T>(ghost a: seq<T>, ghost b: seq<T>) returns (pb: PlanBuilder)
    ensures fresh(pb) && pb.At(a, b, 0, 0)
    ensures pb.runs == [] && ContextRows(pb.runs) == 0 && !EndsInContext(pb.runs)
    ensures UnchangedPairs(pb.runs) == {} && ChangedPairs(pb.runs) == {}
    ensures pb.rowCount == 0
  {
    pb := new PlanBuilder();
  }

  /** The end-of-file rewrite and the finished plan. */
  method FinishPlan<T>(pb: PlanBuilder, ghost a: seq<T>, ghost b: seq<T>, oldText: string, newText: string)
    returns (p: Plan)
    requires pb.At(a, b, |a|, |b|)
    modifies pb
    ensures PlanOk(a, b, p) && p.eofNewline == EofNewlineDelta(oldText, newText)
    ensures p.inlineRowCount == |a| + |b| - old(ContextRows(pb.runs))
            + EofRow(p.eofNewline, old(EndsInContext(pb.runs)))
    ensures PlanOf(a, b, p, old(pb.runs)) && p.rowCount == old(pb.rowCount)
  {
    hide UnchangedPairs, ChangedPairs, AfterEof, EofRuns;
    var eof := EofNewlineDelta(oldText, newText);
    RowBalance(a, b, pb.runs, |a|, |b|);
    pb.ApplyEofNewline(eof, a, b);
    p := Plan(pb.runs, pb.rowCount, pb.inlineRowCount, eof);
  }

  // ----- the positional strategy -----

  lemma {:induction false} AgreeingRun<T>(a: seq<T>, b: seq<T>, start: nat, end: nat, agree: bool)
    requires start <= end <= |a| && end <= |b| && forall x :: start <= x < end ==> (a[x] == b[x] <==> agree)
    ensures AgreeingFrom(a, b, 0, end) == AgreeingFrom(a, b, 0, start) + if agree then end - start else 0
    ensures AgreeingPairs(a, b, 0, end)
            == AgreeingPairs(a, b, 0, start) + if agree then Diagonal(start, start, end - start) else {}
    ensures DifferingPairs(a, b, 0, end)
            == DifferingPairs(a, b, 0, start) + if agree then {} else Diagonal(start, start, end - start)
    decreases end
  {
    hide Diagonal, AgreeingFrom, AgreeingPairs, DifferingPairs;
    if start < end {
      AgreeingRun(a, b, start, end - 1, agree);
      PositionNext(a, b, end - 1);
      DiagonalNext(AgreeingPairs(a, b, 0, start), start, start, end - 1 - start);
      DiagonalNext(DifferingPairs(a, b, 0, start), start, start, end - 1 - start);
    } else {
      NoDiagonal(AgreeingPairs(a, b, 0, start), start, start);
      NoDiagonal(DifferingPairs(a, b, 0, start), start, start);
    }
  }

  lemma PositionNext<T>(a: seq<T>, b: seq<T>, n: nat)
    requires n < |a| && n < |b|
    ensures AgreeingFrom(a, b, 0, n + 1) == AgreeingFrom(a, b, 0, n) + if a[n] == b[n] then 1 else 0
    ensures AgreeingPairs(a, b, 0, n + 1) == AgreeingPairs(a, b, 0, n) + if a[n] == b[n] then {(n, n)} else {}
    ensures DifferingPairs(a, b, 0, n + 1) == DifferingPairs(a, b, 0, n) + if a[n] == b[n] then {} else {(n, n)}
  {
  }

  lemma {:induction false} AgreeingGrows<T>(a: seq<T>, b: seq<T>, m: nat, n: nat)
    requires m <= n <= |a| && n <= |b|
    ensures m - AgreeingFrom(a, b, 0, m) <= n - AgreeingFrom(a, b, 0, n)
    decreases n
  {
    if m < n {
      AgreeingGrows(a, b, m, n - 1);
    }
  }

  /** Large files of equal length in which at most a quarter of the lines differ, no two in a row. */
  ghost predicate FewIsolatedChanges<T>(a: seq<T>, b: seq<T>) {
    && |a| == |b| && |a| + |b| >= 1_024
    && (forall k {:trigger a[k]} :: 0 < k < |a| ==> a[k - 1] == b[k - 1] || a[k] == b[k])
    && (|a| - AgreeingFrom(a, b, 0, |a|)) * 4 <= |a|
  }

  /** Where a run of positions that (dis)agree ends. */
  method ScanPositions<T(==)>(a: seq<T>, b: seq<T>, start: nat, agree: bool) returns (end: nat)
    requires |a| == |b| && start < |a| && (a[start] == b[start] <==> agree)
    ensures start < end <= |a| && (end < |a| ==> (a[end] == b[end] <==> !agree))
    ensures forall x :: start <= x < end ==> (a[x] == b[x] <==> agree)
  {
    end := start + 1;
    while end < |a| && (a[end] == b[end]) == agree
      invariant start < end <= |a|
      invariant forall x :: start <= x < end ==> (a[x] == b[x] <==> agree)
    {
      end := end + 1;
    }
  }

  lemma SameAt<T>(a: seq<T>, b: seq<T>, start: nat, end: nat)
    requires start < end <= |a| && end <= |b| && forall x :: start <= x < end ==> a[x] == b[x]
    ensures SameRun(a, b, start, start, end - start)
  {
  }

  /** Two differing lines in a row, or too many before `end`, rule the positional plan out. */
  lemma RuledOut<T>(a: seq<T>, b: seq<T>, start: nat, end: nat)
    requires |a| == |b| && start < end <= |a| && forall x :: start <= x < end ==> a[x] != b[x]
    requires end - start > SPARSE_MAX_BLOCK_LEN
             || (end - AgreeingFrom(a, b, 0, end)) * SPARSE_MAX_CHANGED_RATIO_DENOMINATOR > |a|
    ensures !FewIsolatedChanges(a, b)
  {
    AgreeingGrows(a, b, end, |a|);
    if end - start > SPARSE_MAX_BLOCK_LEN {
      assert a[start + 1] != b[start + 1] && a[start] != b[start];
    }
  }

  /** Everything before `ix` is isolated, and few enough. */
  ghost predicate SparseUpTo<T>(a: seq<T>, b: seq<T>, ix: nat)
    requires ix <= |a| == |b|
  {
    && (forall k {:trigger a[k]} :: 0 < k < ix ==> a[k - 1] == b[k - 1] || a[k] == b[k])
    && (ix - AgreeingFrom(a, b, 0, ix)) * SPARSE_MAX_CHANGED_RATIO_DENOMINATOR <= |a|
    && (0 < ix < |a| ==> (a[ix - 1] == b[ix - 1] || a[ix] == b[ix]))
  }

  lemma SparseNext<T>(a: seq<T>, b: seq<T>, ix: nat, end: nat)
    requires ix < end <= |a| == |b| && SparseUpTo(a, b, ix)
    requires (forall x :: ix <= x < end ==> a[x] == b[x])
             || (end == ix + 1 && (end < |a| ==> a[end] == b[end])
                 && (end - AgreeingFrom(a, b, 0, end)) * SPARSE_MAX_CHANGED_RATIO_DENOMINATOR <= |a|)
    ensures SparseUpTo(a, b, end)
  {
    if forall x :: ix <= x < end ==> a[x] == b[x] {
      AgreeingRun(a, b, ix, end, true);
    }
    forall k {:trigger a[k]} | 0 < k < end
      ensures a[k - 1] == b[k - 1] || a[k] == b[k]
    {
      if k > ix {
        assert a[k] == b[k];
      }
    }
  }

  /** One row for every position, unchanged where the lines agree and changed where they do not. */
  ghost predicate PositionsShown<T>(a: seq<T>, b: seq<T>, runs: seq<Run>) {
    && |a| == |b| && Rows(runs) == |a|
    && UnchangedPairs(runs) == AgreeingPairs(a, b, 0, |a|) && ChangedPairs(runs) == DifferingPairs(a, b, 0, |a|)
  }

  /** Such files are compared line by line, others are left to the edit scripts. */
  method SparsePositionalPlan<T(==)>(oldText: string, newText: string, a: seq<T>, b: seq<T>)
    returns (found: bool, p: Plan)
    ensures found <==> FewIsolatedChanges(a, b)
    ensures found ==>
              && PlanOk(a, b, p) && p.eofNewline == EofNewlineDelta(oldText, newText)
              && p.inlineRowCount == |a| + |b| - AgreeingFrom(a, b, 0, |a|)
                                     + EofRow(p.eofNewline, a[|a| - 1] == b[|b| - 1])
              && exists runs :: PositionsShown(a, b, runs) && PlanOf(a, b, p, runs) && p.rowCount == |a|
  {
    hide Covers, Rows, InlineRows, ContextRows, UnchangedPairs, ChangedPairs, EndsInContext, RunOk, SameRun, Appended,
         AgreeingFrom, AgreeingPairs, DifferingPairs, SparseUpTo, FewIsolatedChanges;
    hide Diagonal, PlanOf;
    p := Plan([], 0, 0, NoDelta);
    found := false;
    var lineCount := |a|;
    if |a| != |b| || lineCount == 0 || lineCount + lineCount < HISTOGRAM_LINE_THRESHOLD {
      TooSmallForSparse(a, b);
      return;
    }
    var pb := NewBuilder(a, b);
    var changedLines := 0;
    var ix := 0;
    SparseStart(a, b);
    while ix < lineCount
      invariant ix <= lineCount && pb.At(a, b, ix, ix) && fresh(pb)
      invariant changedLines == ix - AgreeingFrom(a, b, 0, ix) && ContextRows(pb.runs) == AgreeingFrom(a, b, 0, ix)
      invariant EndsInContext(pb.runs) <==> ix > 0 && a[ix - 1] == b[ix - 1]
      invariant pb.rowCount == ix && UnchangedPairs(pb.runs) == AgreeingPairs(a, b, 0, ix)
      invariant ChangedPairs(pb.runs) == DifferingPairs(a, b, 0, ix)
      invariant SparseUpTo(a, b, ix)
      decreases lineCount - ix
    {
      var agree := a[ix] == b[ix];
      var end := ScanPositions(a, b, ix, agree);
      AgreeingRun(a, b, ix, end, agree);
      if agree {
        SameAt(a, b, ix, end);
        SparseNext(a, b, ix, end);
        PushContext(pb, a, b, ix, ix, end - ix);
      } else {
        changedLines := changedLines + (end - ix);
        if end - ix > SPARSE_MAX_BLOCK_LEN || changedLines * SPARSE_MAX_CHANGED_RATIO_DENOMINATOR > lineCount {
          RuledOut(a, b, ix, end);
          return;
        }
        SparseNext(a, b, ix, end);
        AnyModify(a, b, ix, end - ix);
        pb.Push(Modify(ix, ix, end - ix), a, b, ix, ix);
      }
      ix := end;
    }
    found := true;
    SparseEnd(a, b);
    ghost var runs := pb.runs;
    p := FinishPlan(pb, a, b, oldText, newText);
    assert PositionsShown(a, b, runs);
  }

  lemma TooSmallForSparse<T>(a: seq<T>, b: seq<T>)
    requires |a| != |b| || |a| == 0 || |a| + |a| < HISTOGRAM_LINE_THRESHOLD
    ensures !FewIsolatedChanges(a, b)
  {
  }

  lemma AnyModify<T>(a: seq<T>, b: seq<T>, ix: nat, len: nat)
    requires len > 0
    ensures RunOk(a, b, Modify(ix, ix, len))
  {
  }

  lemma SparseStart<T>(a: seq<T>, b: seq<T>)
    requires |a| == |b|
    ensures SparseUpTo(a, b, 0) && AgreeingFrom(a, b, 0, 0) == 0 && AgreeingPairs(a, b, 0, 0) == {}
    ensures DifferingPairs(a, b, 0, 0) == {}
  {
  }

  lemma SparseEnd<T>(a: seq<T>, b: seq<T>)
    requires |a| == |b| && |a| + |b| >= HISTOGRAM_LINE_THRESHOLD && SparseUpTo(a, b, |a|)
    ensures FewIsolatedChanges(a, b)
  {
  }

  // ----- the edit-script strategy -----

  /** The edits from `k` on turn the rest of the old file into the rest of the new one. */
  ghost predicate Rest<T>(edits: seq<Edit<T>>, k: nat, a: seq<T>, b: seq<T>, i: nat, j: nat) {
    k <= |edits| && i <= |a| && j <= |b| && ValidScript(edits[k..], a[i..], b[j..])
  }

  lemma RestStep<T>(edits: seq<Edit<T>>, k: nat, a: seq<T>, b: seq<T>, i: nat, j: nat)
    requires Rest(edits, k, a, b, i, j) && k < |edits|
    ensures !edits[k].Insert? ==> i < |a|
    ensures !edits[k].Delete? ==> j < |b|
    ensures edits[k].Equal? ==> a[i] == b[j]
    ensures Rest(edits, k + 1, a, b, if edits[k].Insert? then i else i + 1, if edits[k].Delete? then j else j + 1)
  {
    var rest := edits[k..];
    assert rest[0] == edits[k] && rest[1..] == edits[k + 1..];
    hide OldSide, NewSide;
    SideStep(rest);
    if !edits[k].Insert? {
      assert a[i..] == [edits[k].oldLine] + OldSide(rest[1..]);
      assert a[i..][0] == a[i] && a[i..][1..] == a[i + 1..];
    }
    if !edits[k].Delete? {
      assert b[j..] == [edits[k].newLine] + NewSide(rest[1..]);
      assert b[j..][0] == b[j] && b[j..][1..] == b[j + 1..];
    }
  }

  lemma SideStep<T>(s: seq<Edit<T>>)
    requires s != []
    ensures OldSide(s) == OldPart(s[0]) + OldSide(s[1..]) && NewSide(s) == NewPart(s[0]) + NewSide(s[1..])
  {
  }

  lemma RestEnd<T>(edits: seq<Edit<T>>, a: seq<T>, b: seq<T>, i: nat, j: nat)
    requires Rest(edits, |edits|, a, b, i, j)
    ensures i == |a| && j == |b|
  {
  }

  method ScanEquals<T>(edits: seq<Edit<T>>, k0: nat, ghost a: seq<T>, ghost b: seq<T>, i0: nat, j0: nat)
    returns (k: nat, i: nat, j: nat)
    requires Rest(edits, k0, a, b, i0, j0)
    ensures k0 <= k && i - i0 == j - j0 == k - k0 && Rest(edits, k, a, b, i, j)
    ensures k0 < |edits| && edits[k0].Equal? ==> k > k0
    ensures forall x :: k0 <= x < k ==> edits[x].Equal?
    ensures k < |edits| ==> !edits[k].Equal?
    ensures SameRun(a, b, i0, j0, i - i0)
  {
    hide ValidScript;
    k, i, j := k0, i0, j0;
    while k < |edits| && edits[k].Equal?
      invariant k0 <= k <= |edits| && i - i0 == j - j0 == k - k0 && Rest(edits, k, a, b, i, j)
      invariant forall x :: k0 <= x < k ==> edits[x].Equal?
      invariant SameRun(a, b, i0, j0, i - i0)
    {
      RestStep(edits, k, a, b, i, j);
      assert a[i0..i + 1] == a[i0..i] + [a[i]] && b[j0..j + 1] == b[j0..j] + [b[j]];
      k, i, j := k + 1, i + 1, j + 1;
    }
  }

  method ScanDeletes<T>(edits: seq<Edit<T>>, k0: nat, ghost a: seq<T>, ghost b: seq<T>, i0: nat, ghost j: nat)
    returns (k: nat, i: nat)
    requires Rest(edits, k0, a, b, i0, j)
    ensures k0 <= k && i - i0 == k - k0 && i <= |a| && Rest(edits, k, a, b, i, j)
    ensures k0 < |edits| && edits[k0].Delete? ==> k > k0
    ensures forall x :: k0 <= x < k ==> edits[x].Delete?
    ensures k < |edits| ==> !edits[k].Delete?
  {
    hide ValidScript;
    k, i := k0, i0;
    while k < |edits| && edits[k].Delete?
      invariant k0 <= k <= |edits| && i - i0 == k - k0 && Rest(edits, k, a, b, i, j)
      invariant forall x :: k0 <= x < k ==> edits[x].Delete?
    {
      RestStep(edits, k, a, b, i, j);
      k, i := k + 1, i + 1;
    }
  }

  method ScanInserts<T>(edits: seq<Edit<T>>, k0: nat, ghost a: seq<T>, ghost b: seq<T>, ghost i: nat, j0: nat)
    returns (k: nat, j: nat)
    requires Rest(edits, k0, a, b, i, j0)
    ensures k0 <= k && j - j0 == k - k0 && j <= |b| && Rest(edits, k, a, b, i, j)
    ensures k0 < |edits| && edits[k0].Insert? ==> k > k0
    ensures forall x :: k0 <= x < k ==> edits[x].Insert?
    ensures k < |edits| ==> !edits[k].Insert?
  {
    hide ValidScript;
    k, j := k0, j0;
    while k < |edits| && edits[k].Insert?
      invariant k0 <= k <= |edits| && j - j0 == k - k0 && Rest(edits, k, a, b, i, j)
      invariant forall x :: k0 <= x < k ==> edits[x].Insert?
    {
      RestStep(edits, k, a, b, i, j);
      k, j := k + 1, j + 1;
    }
  }

  /** The number of lines a script keeps. */
  ghost function Kept<T>(edits: seq<Edit<T>>): nat {
    if edits == [] then 0 else Kept(edits[..|edits| - 1]) + if edits[|edits| - 1].Equal? then 1 else 0
  }

  ghost predicate EndsKept<T>(edits: seq<Edit<T>>) {
    edits != [] && edits[|edits| - 1].Equal?
  }

  lemma {:induction false} KeptGroup<T>(edits: seq<Edit<T>>, k0: nat, k: nat, equal: bool)
    requires k0 <= k <= |edits| && forall x :: k0 <= x < k ==> (edits[x].Equal? <==> equal)
    ensures Kept(edits[..k]) == Kept(edits[..k0]) + if equal then k - k0 else 0
    ensures k0 < k ==> (EndsKept(edits[..k]) <==> equal)
    decreases k
  {
    if k0 < k {
      KeptGroup(edits, k0, k - 1, equal);
      assert edits[..k][..k - 1] == edits[..k - 1];
    }
  }

  /** Every line of both files is either kept in a pair or counted by the cost. */
  lemma {:induction false} KeptAndCost<T>(edits: seq<Edit<T>>, a: seq<T>, b: seq<T>)
    requires ValidScript(edits, a, b)
    ensures |a| + |b| == Cost(edits) + 2 * Kept(edits)
  {
    KeptSides(edits);
  }

  lemma {:induction false} KeptSides<T>(edits: seq<Edit<T>>)
    ensures |OldSide(edits)| + |NewSide(edits)| == Cost(edits) + 2 * Kept(edits)
  {
    if edits != [] {
      var front, last := edits[..|edits| - 1], edits[|edits| - 1];
      assert edits == front + [last];
      KeptSides(front);
      SidesConcat(front, [last]);
      OneStep(last);
      assert Kept(edits) == Kept(front) + if last.Equal? then 1 else 0;
      hide Kept, OldSide, NewSide, Cost;
    }
  }

  /** One group of edits, as far as it goes: kept lines, or deletions up to `m` and insertions after them. */
  ghost predicate Group<T>(edits: seq<Edit<T>>, k0: nat, m: nat, k: nat) {
    && k0 <= m <= k <= |edits| && k0 < k
    && if edits[k0].Equal? then
         m == k && (forall x :: k0 <= x < k ==> edits[x].Equal?) && (k < |edits| ==> !edits[k].Equal?)
       else
         && (forall x :: k0 <= x < m ==> edits[x].Delete?) && (m < |edits| ==> !edits[m].Delete?)
         && (forall x :: m <= x < k ==> edits[x].Insert?) && (k < |edits| ==> !edits[k].Insert?)
  }

  /** A group is shown as one context run or as one replaced block. */
  ghost predicate GroupShown<T>(a: seq<T>, b: seq<T>, edits: seq<Edit<T>>, from: Point, to: Point,
                                pairCost: (T, T) -> u32) {
    && from.i <= to.i <= |a| && from.j <= to.j <= |b|
    && Group(edits, from.k, from.k + (to.i - from.i), to.k)
    && if edits[from.k].Equal? then
         to.i - from.i == to.j - from.j && to.runs == Appended(from.runs, Context(from.i, from.j, to.k - from.k))
       else
         && to.k == from.k + (to.i - from.i) + (to.j - from.j)
         && ShownAs(from.runs, to.runs, a[from.i..to.i], b[from.j..to.j], from.i, from.j, pairCost)
  }

  /** In scripts that delete first a group of changes reaches to the next kept line: it is one block. */
  lemma GroupIsWhole<T>(edits: seq<Edit<T>>, k0: nat, m: nat, k: nat)
    requires DeletesFirst(edits) && Group(edits, k0, m, k) && !edits[k0].Equal?
    ensures k == |edits| || edits[k].Equal?
  {
    if k < |edits| && m < k {
      assert edits[k - 1].Insert?;
      assert !(edits[k - 1].Insert? && edits[k - 1 + 1].Delete?);
    }
  }

  /** How far the planner has got: edits, old lines and new lines consumed, and the runs so far. */
  datatype Point = Point(k: nat, i: nat, j: nat, runs: seq<Run>)

  /** From the beginning, group by group. */
  ghost predicate EditsShown<T(!new)>(a: seq<T>, b: seq<T>, edits: seq<Edit<T>>, at: Point, pairCost: (T, T) -> u32)
    decreases at.k
  {
    if at.k == 0 then at == Point(0, 0, 0, [])
    else exists from: Point ::
        from.k < at.k && GroupShown(a, b, edits, from, at, pairCost) && EditsShown(a, b, edits, from, pairCost)
  }

  lemma ShownNext<T(!new)>(a: seq<T>, b: seq<T>, edits: seq<Edit<T>>, from: Point, to: Point, pairCost: (T, T) -> u32)
    requires from.k < to.k && GroupShown(a, b, edits, from, to, pairCost) && EditsShown(a, b, edits, from, pairCost)
    ensures EditsShown(a, b, edits, to, pairCost)
  {
    hide GroupShown;
  }

  /** A group of kept lines adds a diagonal to the pairs the script keeps. */
  lemma {:induction false} KeptGroupPairs<T>(edits: seq<Edit<T>>, k0: nat, k: nat, i0: nat, j0: nat, equal: bool)
    requires k0 <= k <= |edits| && forall x :: k0 <= x < k ==> (edits[x].Equal? <==> equal)
    requires |OldSide(edits[..k0])| == i0 && |NewSide(edits[..k0])| == j0
    ensures KeptPairs(edits[..k]) == KeptPairs(edits[..k0]) + if equal then Diagonal(i0, j0, k - k0) else {}
    ensures equal ==> |OldSide(edits[..k])| == i0 + (k - k0) && |NewSide(edits[..k])| == j0 + (k - k0)
    decreases k
  {
    hide KeptPairs, OldSide, NewSide, Diagonal;
    if k0 < k {
      KeptGroupPairs(edits, k0, k - 1, i0, j0, equal);
      assert edits[..k] == edits[..k - 1] + [edits[k - 1]];
      KeptPush(edits[..k - 1], edits[k - 1]);
      SidesConcat(edits[..k - 1], [edits[k - 1]]);
      OneStep(edits[k - 1]);
      DiagonalNext(KeptPairs(edits[..k0]), i0, j0, k - 1 - k0);
    } else {
      NoDiagonal(KeptPairs(edits[..k0]), i0, j0);
    }
  }

  /** The edits done so far consume the lines that are not left. */
  lemma Consumed<T>(edits: seq<Edit<T>>, k: nat, a: seq<T>, b: seq<T>, i: nat, j: nat)
    requires ValidScript(edits, a, b) && Rest(edits, k, a, b, i, j)
    ensures k <= |edits| && |OldSide(edits[..k])| == i && |NewSide(edits[..k])| == j
  {
    hide OldSide, NewSide;
    assert edits == edits[..k] + edits[k..];
    SidesConcat(edits[..k], edits[k..]);
  }

  /** Turn any correct edit script into runs: the inline rows are all lines, kept pairs counted once. */
  method PlanFromEdits<T(==,!new)>(oldText: string, newText: string, a: seq<T>, b: seq<T>, edits: seq<Edit<T>>,
                                   pairCost: (T, T) -> u32) returns (p: Plan)
    requires ValidScript(edits, a, b)
    ensures PlanOk(a, b, p) && p.eofNewline == EofNewlineDelta(oldText, newText)
    ensures p.inlineRowCount == |a| + |b| - Kept(edits) + EofRow(p.eofNewline, EndsKept(edits))
    ensures exists runs :: ScriptShown(a, b, edits, runs, pairCost) && PlanOf(a, b, p, runs)
  {
    hide *;
    var pb := NewBuilder(a, b);
    var i: nat, j: nat, k: nat := 0, 0, 0;
    RestStart(edits, a, b);
    NothingKept(edits);
    NothingShown(a, b, edits, pairCost);
    while k < |edits|
      invariant Rest(edits, k, a, b, i, j) && k <= |edits| && i <= |a| && j <= |b|
      invariant pb.At(a, b, i, j) && fresh(pb)
      invariant ContextRows(pb.runs) == Kept(edits[..k]) && (EndsInContext(pb.runs) <==> EndsKept(edits[..k]))
      invariant UnchangedPairs(pb.runs) == KeptPairs(edits[..k])
      invariant EditsShown(a, b, edits, Point(k, i, j, pb.runs), pairCost)
      decreases |edits| - k
    {
      ghost var from := Point(k, i, j, pb.runs);
      Consumed(edits, k, a, b, i, j);
      k, i, j := PushNext(pb, a, b, edits, k, i, j, pairCost);
      KeptGroup(edits, from.k, k, edits[from.k].Equal?);
      KeptGroupPairs(edits, from.k, k, from.i, from.j, edits[from.k].Equal?);
      ShownNext(a, b, edits, from, Point(k, i, j, pb.runs), pairCost);
    }
    RestEnd(edits, a, b, i, j);
    assert edits[..k] == edits;
    ghost var runs := pb.runs;
    p := FinishPlan(pb, a, b, oldText, newText);
    ScriptIsShown(a, b, edits, runs, pairCost);
  }

  /** All edits are shown, and exactly the pairs they keep are shown as unchanged. */
  ghost predicate ScriptShown<T(!new)>(a: seq<T>, b: seq<T>, edits: seq<Edit<T>>, runs: seq<Run>,
                                       pairCost: (T, T) -> u32) {
    EditsShown(a, b, edits, Point(|edits|, |a|, |b|, runs), pairCost) && UnchangedPairs(runs) == KeptPairs(edits)
  }

  lemma ScriptIsShown<T(!new)>(a: seq<T>, b: seq<T>, edits: seq<Edit<T>>, runs: seq<Run>, pairCost: (T, T) -> u32)
    requires EditsShown(a, b, edits, Point(|edits|, |a|, |b|, runs), pairCost)
             && UnchangedPairs(runs) == KeptPairs(edits)
    ensures ScriptShown(a, b, edits, runs, pairCost)
  {
  }

  lemma NothingShown<T(!new)>(a: seq<T>, b: seq<T>, edits: seq<Edit<T>>, pairCost: (T, T) -> u32)
    ensures EditsShown(a, b, edits, Point(0, 0, 0, []), pairCost)
  {
  }

  lemma NothingKept<T>(edits: seq<Edit<T>>)
    ensures Kept(edits[..0]) == 0 && !EndsKept(edits[..0]) && KeptPairs(edits[..0]) == {}
  {
  }

  lemma RestStart<T>(edits: seq<Edit<T>>, a: seq<T>, b: seq<T>)
    requires ValidScript(edits, a, b)
    ensures Rest(edits, 0, a, b, 0, 0)
  {
    assert edits[0..] == edits && a[0..] == a && b[0..] == b;
  }

  /** One group of edits: kept lines, a replaced block, or inserted lines. */
  method PushNext<T(==)>(pb: PlanBuilder, a: seq<T>, b: seq<T>, edits: seq<Edit<T>>, k0: nat, i0: nat, j0: nat,
                         pairCost: (T, T) -> u32) returns (k: nat, i: nat, j: nat)
    requires Rest(edits, k0, a, b, i0, j0) && k0 < |edits| && i0 <= |a| && j0 <= |b| && pb.At(a, b, i0, j0)
    modifies pb
    ensures Rest(edits, k, a, b, i, j) && k0 < k <= |edits| && i <= |a| && j <= |b| && pb.At(a, b, i, j)
    ensures forall x :: k0 <= x < k ==> (edits[x].Equal? <==> edits[k0].Equal?)
    ensures ContextRows(pb.runs) == old(ContextRows(pb.runs)) + if edits[k0].Equal? then k - k0 else 0
    ensures EndsInContext(pb.runs) <==> edits[k0].Equal?
    ensures UnchangedPairs(pb.runs)
            == old(UnchangedPairs(pb.runs)) + if edits[k0].Equal? then Diagonal(i0, j0, k - k0) else {}
    ensures GroupShown(a, b, edits, Point(k0, i0, j0, old(pb.runs)), Point(k, i, j, pb.runs), pairCost)
  {
    hide *;
    if edits[k0].Equal? {
      k, i, j := PushKept(pb, a, b, edits, k0, i0, j0);
      KeptShown(a, b, edits, Point(k0, i0, j0, old(pb.runs)), Point(k, i, j, pb.runs), pairCost);
    } else if edits[k0].Delete? {
      k, i, j := PushReplaced(pb, a, b, edits, k0, i0, j0, pairCost);
    } else {
      i := i0;
      k, j := PushAdded(pb, a, b, edits, k0, i0, j0);
      AddedShown(a, b, edits, Point(k0, i0, j0, old(pb.runs)), Point(k, i, j, pb.runs), pairCost);
    }
  }

  lemma KeptShown<T>(a: seq<T>, b: seq<T>, edits: seq<Edit<T>>, from: Point, to: Point, pairCost: (T, T) -> u32)
    requires from.k < to.k <= |edits| && to.i - from.i == to.j - from.j == to.k - from.k && to.i <= |a| && to.j <= |b|
    requires (forall x :: from.k <= x < to.k ==> edits[x].Equal?) && (to.k < |edits| ==> !edits[to.k].Equal?)
    requires to.runs == Appended(from.runs, Context(from.i, from.j, to.k - from.k))
    ensures GroupShown(a, b, edits, from, to, pairCost)
  {
    hide Appended;
  }

  lemma AddedShown<T>(a: seq<T>, b: seq<T>, edits: seq<Edit<T>>, from: Point, to: Point, pairCost: (T, T) -> u32)
    requires from.k < to.k <= |edits| && to.i == from.i <= |a| && from.j <= to.j <= |b|
             && to.j - from.j == to.k - from.k
    requires (forall x :: from.k <= x < to.k ==> edits[x].Insert?) && (to.k < |edits| ==> !edits[to.k].Insert?)
    requires to.runs == Appended(from.runs, Add(from.j, to.j - from.j))
    ensures GroupShown(a, b, edits, from, to, pairCost)
  {
    hide Appended;
    assert edits[from.k].Insert?;
    assert a[from.i..to.i] == [];
    OneSidedAdds(from.runs, Add(from.j, to.j - from.j));
  }

  lemma ReplacedShown<T>(a: seq<T>, b: seq<T>, edits: seq<Edit<T>>, from: Point, m: nat, to: Point,
                         pairCost: (T, T) -> u32)
    requires from.k < m <= to.k <= |edits| && from.i <= to.i <= |a| && from.j <= to.j <= |b|
    requires m - from.k == to.i - from.i && to.k - m == to.j - from.j
    requires (forall x :: from.k <= x < m ==> edits[x].Delete?) && (m < |edits| ==> !edits[m].Delete?)
    requires (forall x :: m <= x < to.k ==> edits[x].Insert?) && (to.k < |edits| ==> !edits[to.k].Insert?)
    requires ShownAs(from.runs, to.runs, a[from.i..to.i], b[from.j..to.j], from.i, from.j, pairCost)
    ensures GroupShown(a, b, edits, from, to, pairCost)
  {
    hide ShownAs;
    assert edits[from.k].Delete?;
  }

  method PushKept<T>(pb: PlanBuilder, ghost a: seq<T>, ghost b: seq<T>, edits: seq<Edit<T>>, k0: nat, i0: nat, j0: nat)
    returns (k: nat, i: nat, j: nat)
    requires Rest(edits, k0, a, b, i0, j0) && k0 < |edits| && edits[k0].Equal? && pb.At(a, b, i0, j0)
    modifies pb
    ensures Rest(edits, k, a, b, i, j) && k0 < k <= |edits| && i <= |a| && j <= |b| && pb.At(a, b, i, j)
    ensures i - i0 == j - j0 == k - k0 && pb.runs == Appended(old(pb.runs), Context(i0, j0, k - k0))
    ensures (forall x :: k0 <= x < k ==> edits[x].Equal?) && (k < |edits| ==> !edits[k].Equal?)
    ensures ContextRows(pb.runs) == old(ContextRows(pb.runs)) + (k - k0) && EndsInContext(pb.runs)
    ensures UnchangedPairs(pb.runs) == old(UnchangedPairs(pb.runs)) + Diagonal(i0, j0, k - k0)
  {
    hide Covers, Rows, InlineRows, ContextRows, UnchangedPairs, ChangedPairs, EndsInContext, ValidScript, SameRun,
         Appended, Rest, RunOk, Diagonal;
    k, i, j := ScanEquals(edits, k0, a, b, i0, j0);
    RestInRange(edits, k, a, b, i, j);
    PushContext(pb, a, b, i0, j0, i - i0);
  }

  method PushAdded<T>(pb: PlanBuilder, ghost a: seq<T>, ghost b: seq<T>, edits: seq<Edit<T>>, k0: nat, ghost i: nat,
                      j0: nat)
    returns (k: nat, j: nat)
    requires Rest(edits, k0, a, b, i, j0) && k0 < |edits| && edits[k0].Insert? && pb.At(a, b, i, j0)
    modifies pb
    ensures Rest(edits, k, a, b, i, j) && k0 < k <= |edits| && j0 <= j <= |b| && pb.At(a, b, i, j)
    ensures j - j0 == k - k0 && pb.runs == Appended(old(pb.runs), Add(j0, j - j0))
    ensures (forall x :: k0 <= x < k ==> edits[x].Insert?) && (k < |edits| ==> !edits[k].Insert?)
    ensures ContextRows(pb.runs) == old(ContextRows(pb.runs)) && !EndsInContext(pb.runs)
    ensures UnchangedPairs(pb.runs) == old(UnchangedPairs(pb.runs))
  {
    hide Covers, Rows, InlineRows, ContextRows, UnchangedPairs, ChangedPairs, EndsInContext, ValidScript, Appended,
         Rest, RunOk;
    k, j := ScanInserts(edits, k0, a, b, i, j0);
    RestInRange(edits, k, a, b, i, j);
    AnyAdd(a, b, j0, j - j0);
    pb.Push(Add(j0, j - j0), a, b, i, j0);
  }

  lemma AnyAdd<T>(a: seq<T>, b: seq<T>, j: nat, len: nat)
    requires len > 0
    ensures RunOk(a, b, Add(j, len))
  {
  }

  /** A group of deletions and the insertions right after it. */
  method PushReplaced<T(==)>(pb: PlanBuilder, a: seq<T>, b: seq<T>, edits: seq<Edit<T>>, k0: nat, i0: nat, j0: nat,
                             pairCost: (T, T) -> u32) returns (k: nat, i: nat, j: nat)
    requires Rest(edits, k0, a, b, i0, j0) && k0 < |edits| && edits[k0].Delete?
    requires i0 <= |a| && j0 <= |b| && pb.At(a, b, i0, j0)
    modifies pb
    ensures Rest(edits, k, a, b, i, j) && k0 < k <= |edits| && i0 < i <= |a| && j0 <= j <= |b| && pb.At(a, b, i, j)
    ensures forall x :: k0 <= x < k ==> !edits[x].Equal?
    ensures ContextRows(pb.runs) == old(ContextRows(pb.runs)) && !EndsInContext(pb.runs)
    ensures UnchangedPairs(pb.runs) == old(UnchangedPairs(pb.runs))
    ensures GroupShown(a, b, edits, Point(k0, i0, j0, old(pb.runs)), Point(k, i, j, pb.runs), pairCost)
  {
    hide Covers, Rows, InlineRows, ContextRows, UnchangedPairs, ChangedPairs, EndsInContext, ValidScript, SameRun,
         Appended, Rest, RunOk, GroupShown, ShownAs;
    k, i := ScanDeletes(edits, k0, a, b, i0, j0);
    ghost var m: nat := k;
    k, j := ScanInserts(edits, k, a, b, i, j0);
    RestInRange(edits, k, a, b, i, j);
    if j == j0 {
      AnyRemove(a, b, i0, i - i0);
      pb.Push(Remove(i0, i - i0), a, b, i0, j0);
      RemovedShown(old(pb.runs), pb.runs, a[i0..i], b[j0..j], i0, j0, pairCost);
    } else {
      PushAlignedReplacement(pb, a, b, i0, i, j0, j, pairCost);
    }
    ReplacedShown(a, b, edits, Point(k0, i0, j0, old(pb.runs)), m, Point(k, i, j, pb.runs), pairCost);
  }

  lemma RemovedShown<T>(before: seq<Run>, after: seq<Run>, deletes: seq<T>, inserts: seq<T>, i: nat, j: nat,
                        pairCost: (T, T) -> u32)
    requires deletes != [] && inserts == [] && after == Appended(before, Remove(i, |deletes|))
    ensures ShownAs(before, after, deletes, inserts, i, j, pairCost)
  {
    OneSidedAdds(before, Remove(i, |deletes|));
    hide Appended;
  }

  lemma AnyRemove<T>(a: seq<T>, b: seq<T>, i: nat, len: nat)
    requires len > 0
    ensures RunOk(a, b, Remove(i, len))
  {
  }

  lemma RestInRange<T>(edits: seq<Edit<T>>, k: nat, a: seq<T>, b: seq<T>, i: nat, j: nat)
    requires Rest(edits, k, a, b, i, j)
    ensures k <= |edits| && i <= |a| && j <= |b|
  {
  }

  // ----- choosing a strategy -----

  method SelectEdits<T(==,!new)>(a: seq<T>, b: seq<T>) returns (edits: seq<Edit<T>>)
    ensures ValidScript(edits, a, b)
    ensures |a| + |b| < 1_024 ==>
              SearchedScript(edits, a, b) && Cost(edits) == |a| + |b| - 2 * Lcs(a, b, |a|, |b|)
    ensures 1_024 <= |a| + |b| < 100_000 ==>
              PatienceOk(edits, a, b, 0, |a|, 0, |b|) && PatienceScript(edits, a, b, 0, |a|, 0, |b|, 0)
    ensures |a| + |b| >= 100_000 ==>
              && DeletesFirst(edits)
              && exists p: nat, s: nat :: Shared(a, b, p, s) && KeptPairs(edits) == EndPairs(|a|, |b|, p, s)
  {
    hide ValidScript, Minimal, SearchedScript, DeletesFirst, Cost, Lcs, PatienceOk, PatienceScript, Shared, KeptPairs,
         EndPairs;
    var combined := |a| + |b|;
    if combined >= LINEAR_FALLBACK_LINE_THRESHOLD {
      edits := MyersFallbackEdits(a, b);
    } else if combined >= HISTOGRAM_LINE_THRESHOLD {
      edits := HistogramEdits(a, b);
    } else {
      edits := MyersEdits(a, b);
    }
  }

  /** What the runs show, by the size of the two files: the shared ends around one replaced block; the
      agreeing positions of a large file with few isolated changes; and otherwise, group by group, a
      correct script that is a shortest one or keeps the shared ends and the anchors. */
  ghost predicate Planned<T(!new)>(a: seq<T>, b: seq<T>, pairCost: (T, T) -> u32, runs: seq<Run>) {
    if |a| + |b| >= 100_000 then
      exists prefix: nat, suffix: nat :: LinearShown(a, b, prefix, suffix, runs, pairCost)
    else if FewIsolatedChanges(a, b) then PositionsShown(a, b, runs)
    else exists edits :: Selected(a, b, edits) && ScriptShown(a, b, edits, runs, pairCost)
  }

  ghost predicate Selected<T(!new)>(a: seq<T>, b: seq<T>, edits: seq<Edit<T>>) {
    ValidScript(edits, a, b) &&
    if |a| + |b| < 1_024 then SearchedScript(edits, a, b)
    else PatienceOk(edits, a, b, 0, |a|, 0, |b|) && PatienceScript(edits, a, b, 0, |a|, 0, |b|, 0)
  }

  lemma ShowsLinear<T(!new)>(a: seq<T>, b: seq<T>, pairCost: (T, T) -> u32, prefix: nat, suffix: nat, runs: seq<Run>)
    requires |a| + |b| >= LINEAR_FALLBACK_LINE_THRESHOLD && LinearShown(a, b, prefix, suffix, runs, pairCost)
    ensures Planned(a, b, pairCost, runs)
  {
    hide LinearShown;
  }

  lemma ShowsPositions<T(!new)>(a: seq<T>, b: seq<T>, pairCost: (T, T) -> u32, runs: seq<Run>)
    requires |a| + |b| < LINEAR_FALLBACK_LINE_THRESHOLD && FewIsolatedChanges(a, b) && PositionsShown(a, b, runs)
    ensures Planned(a, b, pairCost, runs)
  {
    hide FewIsolatedChanges, PositionsShown;
  }

  lemma ShowsScript<T(!new)>(a: seq<T>, b: seq<T>, pairCost: (T, T) -> u32, edits: seq<Edit<T>>, runs: seq<Run>)
    requires |a| + |b| < LINEAR_FALLBACK_LINE_THRESHOLD && !FewIsolatedChanges(a, b)
    requires Selected(a, b, edits) && ScriptShown(a, b, edits, runs, pairCost)
    ensures Planned(a, b, pairCost, runs)
  {
    hide FewIsolatedChanges, Selected, ScriptShown;
  }

  lemma LargeEnough<T>(a: seq<T>, b: seq<T>)
    requires FewIsolatedChanges(a, b)
    ensures |a| + |b| >= HISTOGRAM_LINE_THRESHOLD
  {
  }

  /** The plan for two files, whatever the pair prices are: it partitions both and shows what `Planned`
      says, and for files of less than a thousand lines it shows as few inline rows as the two files
      allow, besides the one for a missing newline at the end of one file. */
  method SideBySidePlan<T(==,!new)>(oldText: string, newText: string, a: seq<T>, b: seq<T>, pairCost: (T, T) -> u32)
    returns (p: Plan)
    ensures PlanOk(a, b, p) && p.eofNewline == EofNewlineDelta(oldText, newText)
    ensures |a| + |b| < 1_024 ==> InlineRowsAre(p, |a| + |b| - Lcs(a, b, |a|, |b|))
    ensures EofMeans(p.eofNewline, oldText, newText)
    ensures exists runs :: Planned(a, b, pairCost, runs) && PlanOf(a, b, p, runs)
  {
    hide ValidScript, Minimal, SearchedScript, Cost, Lcs, PlanOk, Kept, AgreeingFrom, AgreeingPairs, Shared, Planned,
         PlanOf, ScriptShown, PositionsShown, LinearShown, FewIsolatedChanges, PatienceOk, PatienceScript, EofMeans;
    EofDeltaMeans(oldText, newText);
    if |a| + |b| >= LINEAR_FALLBACK_LINE_THRESHOLD {
      p := LinearPlan(oldText, newText, a, b, pairCost);
      ghost var prefix: nat, suffix: nat, runs :|
        LinearShown(a, b, prefix, suffix, runs, pairCost) && PlanOf(a, b, p, runs);
      ShowsLinear(a, b, pairCost, prefix, suffix, runs);
      return;
    }
    var found, sparse := SparsePositionalPlan(oldText, newText, a, b);
    if found {
      p := sparse;
      ghost var runs :| PositionsShown(a, b, runs) && PlanOf(a, b, p, runs);
      ShowsPositions(a, b, pairCost, runs);
      LargeEnough(a, b);
      return;
    }
    var edits := SelectEdits(a, b);
    KeptAndCost(edits, a, b);
    p := PlanFromEdits(oldText, newText, a, b, edits, pairCost);
    ghost var runs :| ScriptShown(a, b, edits, runs, pairCost) && PlanOf(a, b, p, runs);
    ShowsScript(a, b, pairCost, edits, runs);
  }

  ghost predicate InlineRowsAre(p: Plan, n: int) {
    p.inlineRowCount == n || (p.eofNewline != NoDelta && p.inlineRowCount == n + 1)
  }

  /** The planner as the application calls it: text lines, priced by their edit distance. */
  method SideBySidePlanFromLines(oldText: string, newText: string, a: seq<string>, b: seq<string>) returns (p: Plan)
    ensures PlanOk(a, b, p) && p.eofNewline == EofNewlineDelta(oldText, newText)
    ensures |a| + |b| < 1_024 ==> InlineRowsAre(p, |a| + |b| - Lcs(a, b, |a|, |b|))
    ensures EofMeans(p.eofNewline, oldText, newText)
    ensures exists runs :: Planned(a, b, (x: string, y: string) => Price(x, y), runs) && PlanOf(a, b, p, runs)
  {
    hide Planned, PlanOf, PlanOk, Lcs, EofMeans;
    p := SideBySidePlan(oldText, newText, a, b, (x: string, y: string) => Price(x, y));
  }

  // ----- no plan shows less -----

  lemma {:induction false} StepsDown<T>(a: seq<T>, b: seq<T>, x: nat, y: nat, l: nat)
    ensures Dist(a, b, x + l, y) <= Dist(a, b, x, y) + l
  {
    if l > 0 {
      StepsDown(a, b, x, y, l - 1);
      Steps(a, b, x + l - 1, y);
    }
  }

  lemma {:induction false} AlongContext<T>(a: seq<T>, b: seq<T>, x: nat, y: nat, l: nat)
    requires x + l <= |a| && y + l <= |b| && a[x..x + l] == b[y..y + l]
    ensures Dist(a, b, x + l, y + l) <= Dist(a, b, x, y)
  {
    if l > 0 {
      assert a[x..x + l][..l - 1] == a[x..x + (l - 1)] && b[y..y + l][..l - 1] == b[y..y + (l - 1)];
      assert a[x..x + l][l - 1] == a[x + l - 1] && b[y..y + l][l - 1] == b[y + l - 1];
      AlongContext(a, b, x, y, l - 1);
      DistCell(a, b, x + l, y + l);
    }
  }

  lemma {:induction false} ContextIsCommon<T>(a: seq<T>, b: seq<T>, runs: seq<Run>, i: nat, j: nat)
    requires Covers(a, b, runs, i, j)
    ensures Dist(a, b, i, j) + 2 * ContextRows(runs) <= i + j
    decreases |runs|
  {
    hide Dist;
    if runs == [] {
      DistEdges(a, b, 0);
    } else {
      var r := Last(runs);
      var i0, j0 := OldBefore(r, i), NewBefore(r, j);
      ContextIsCommon(a, b, Front(runs), i0, j0);
      hide Covers;
      match r {
        case Context(o, n, l) => AlongContext(a, b, o, n, l);
        case Remove(o, l) => StepsDown(a, b, o, j, l);
        case Add(n, l) => StepsUpNew(a, b, i, n, l);
        case Modify(o, n, l) =>
          StepsDown(a, b, o, n, l);
          StepsUpNew(a, b, o + l, n, l);
      }
    }
  }

  /** Every plan that partitions the two files shows at least that many inline rows. */
  lemma NoPlanShowsLess<T>(a: seq<T>, b: seq<T>, q: Plan)
    requires PlanOk(a, b, q)
    ensures q.inlineRowCount >= |a| + |b| - Lcs(a, b, |a|, |b|)
  {
    ContextIsCommon(a, b, q.runs, |a|, |b|);
    DistIsLcs(a, b, |a|, |b|);
    RowBalance(a, b, q.runs, |a|, |b|);
  }
}
