module PlanRuns {
  // Side-by-side plan runs: what they cover, and how they are pushed and merged.

  import opened EditScripts

  datatype Run =
    | Context(oldStart: nat, newStart: nat, len: nat)
    | Remove(oldStart: nat, len: nat)
    | Add(newStart: nat, len: nat)
    | Modify(oldStart: nat, newStart: nat, len: nat)
  {
    /** Rows of the inline view: a modified line shows twice. */
    function InlineLen(): nat {
      if Modify? then 2 * len else len
    }
  }

  datatype EofNewline = NoDelta | MissingInOld | MissingInNew

  datatype Plan = Plan(runs: seq<Run>, rowCount: nat, inlineRowCount: nat, eofNewline: EofNewline)

  // ----- what runs cover -----

  function Last(runs: seq<Run>): Run
    requires runs != []
  {
    runs[|runs| - 1]
  }

  function Front(runs: seq<Run>): seq<Run>
    requires runs != []
  {
    runs[..|runs| - 1]
  }

  ghost function Rows(runs: seq<Run>): nat {
    if runs == [] then 0 else Rows(Front(runs)) + Last(runs).len
  }

  ghost function InlineRows(runs: seq<Run>): nat {
    if runs == [] then 0 else InlineRows(Front(runs)) + Last(runs).InlineLen()
  }

  /** Rows that show a line of both files. */
  ghost function PairedRows(runs: seq<Run>): nat {
    if runs == [] then 0
    else PairedRows(Front(runs)) + if Last(runs).Context? || Last(runs).Modify? then Last(runs).len else 0
  }

  /** Rows that show an unchanged line. */
  ghost function ContextRows(runs: seq<Run>): nat {
    if runs == [] then 0 else ContextRows(Front(runs)) + if Last(runs).Context? then Last(runs).len else 0
  }

  /** The pairs of lines a run shows as unchanged. */
  ghost function ContextPairs(r: Run): set<LinePair> {
    if r.Context? then Diagonal(r.oldStart, r.newStart, r.len) else {}
  }

  ghost function UnchangedPairs(runs: seq<Run>): set<LinePair> {
    if runs == [] then {} else UnchangedPairs(Front(runs)) + ContextPairs(Last(runs))
  }

  /** The pairs of lines a run shows beside each other as changed. */
  ghost function ModifyPairs(r: Run): set<LinePair> {
    if r.Modify? then Diagonal(r.oldStart, r.newStart, r.len) else {}
  }

  ghost function ChangedPairs(runs: seq<Run>): set<LinePair> {
    if runs == [] then {} else ChangedPairs(Front(runs)) + ModifyPairs(Last(runs))
  }

  predicate EndsInContext(runs: seq<Run>) {
    runs != [] && Last(runs).Context?
  }

  /** A run shows something, and a context run shows equal lines. */
  ghost predicate RunOk<T>(a: seq<T>, b: seq<T>, r: Run) {
    && r.len > 0
    && (r.Context? ==> r.oldStart + r.len <= |a| && r.newStart + r.len <= |b|
                       && a[r.oldStart..r.oldStart + r.len] == b[r.newStart..r.newStart + r.len])
  }

  /** Where coverage of the old file must have got to before `r`, if `r` leaves it at `i`. */
  ghost predicate OldFrom(r: Run, i: nat, i0: nat) {
    if r.Add? then i0 == i else i0 == r.oldStart && r.oldStart + r.len == i
  }

  ghost predicate NewFrom(r: Run, j: nat, j0: nat) {
    if r.Remove? then j0 == j else j0 == r.newStart && r.newStart + r.len == j
  }

  ghost function OldBefore(r: Run, i: nat): nat {
    if r.Add? then i else r.oldStart
  }

  ghost function NewBefore(r: Run, j: nat): nat {
    if r.Remove? then j else r.newStart
  }

  /** The runs, in order, cover exactly the first `i` old and the first `j` new lines. */
  ghost predicate Covers<T>(a: seq<T>, b: seq<T>, runs: seq<Run>, i: nat, j: nat) {
    if runs == [] then i == 0 && j == 0
    else
      var r := Last(runs);
      && RunOk(a, b, r)
      && OldFrom(r, i, OldBefore(r, i)) && NewFrom(r, j, NewBefore(r, j))
      && Covers(a, b, Front(runs), OldBefore(r, i), NewBefore(r, j))
  }

  /** The plan partitions both files and its counters are the sums over its runs. */
  ghost predicate PlanOk<T>(a: seq<T>, b: seq<T>, p: Plan) {
    && Covers(a, b, p.runs, |a|, |b|)
    && p.rowCount == Rows(p.runs) && p.inlineRowCount == InlineRows(p.runs)
  }

  predicate SameKind(r: Run, s: Run) {
    (r.Context? && s.Context?) || (r.Remove? && s.Remove?) || (r.Add? && s.Add?) || (r.Modify? && s.Modify?)
  }

  /** No run could be joined with the one before it. */
  ghost predicate Merged(runs: seq<Run>) {
    forall k {:trigger runs[k]} :: 0 < k < |runs| ==> !SameKind(runs[k - 1], runs[k])
  }

  lemma Pushed<T>(a: seq<T>, b: seq<T>, runs: seq<Run>, r: Run, i: nat, j: nat)
    ensures Rows(runs + [r]) == Rows(runs) + r.len
    ensures InlineRows(runs + [r]) == InlineRows(runs) + r.InlineLen()
    ensures Covers(a, b, runs + [r], i, j) <==>
              && RunOk(a, b, r)
              && OldFrom(r, i, OldBefore(r, i)) && NewFrom(r, j, NewBefore(r, j))
              && Covers(a, b, runs, OldBefore(r, i), NewBefore(r, j))
  {
    hide RunOk;
    assert Front(runs + [r]) == runs;
  }

  // ----- merging -----

  /** Two runs of the same kind that continue each other. */
  predicate Continues(last: Run, r: Run) {
    match (last, r)
    case (Context(o, n, l), Context(o', n', _)) => o + l == o' && n + l == n'
    case (Remove(o, l), Remove(o', _)) => o + l == o'
    case (Add(n, l), Add(n', _)) => n + l == n'
    case (Modify(o, n, l), Modify(o', n', _)) => o + l == o' && n + l == n'
    case _ => false
  }

  function Extended(last: Run, r: Run): Run {
    last.(len := last.len + r.len)
  }

  /** `runs` with `r` appended, merged into the last run where it continues it. */
  function Appended(runs: seq<Run>, r: Run): seq<Run> {
    if r.len == 0 then runs
    else if runs != [] && Continues(Last(runs), r) then Front(runs) + [Extended(Last(runs), r)]
    else runs + [r]
  }

  lemma SlicesJoin<T>(a: seq<T>, o: nat, m: nat, l: nat)
    requires o + m + l <= |a|
    ensures a[o..o + (m + l)] == a[o..o + m] + a[o + m..o + m + l]
  {
  }

  lemma ExtendedOk<T>(a: seq<T>, b: seq<T>, last: Run, r: Run)
    requires Continues(last, r) && RunOk(a, b, last) && RunOk(a, b, r)
    ensures RunOk(a, b, Extended(last, r))
    ensures Extended(last, r).InlineLen() == last.InlineLen() + r.InlineLen()
  {
    if last.Context? {
      SlicesJoin(a, last.oldStart, last.len, r.len);
      SlicesJoin(b, last.newStart, last.len, r.len);
    }
  }

  /** A run that starts where coverage ends. */
  ghost predicate StartsAt(r: Run, i: nat, j: nat) {
    (!r.Add? ==> r.oldStart == i) && (!r.Remove? ==> r.newStart == j)
  }

  ghost function OldEnd(r: Run, i: nat): nat {
    if r.Add? then i else i + r.len
  }

  ghost function NewEnd(r: Run, j: nat): nat {
    if r.Remove? then j else j + r.len
  }

  /** Pushing extends coverage and counts; merging changes neither. */
  lemma CoverPush<T>(a: seq<T>, b: seq<T>, runs: seq<Run>, i: nat, j: nat, r: Run)
    requires Covers(a, b, runs, i, j) && StartsAt(r, i, j) && (r.len > 0 ==> RunOk(a, b, r))
    ensures Covers(a, b, Appended(runs, r), OldEnd(r, i), NewEnd(r, j))
    ensures Rows(Appended(runs, r)) == Rows(runs) + r.len
    ensures InlineRows(Appended(runs, r)) == InlineRows(runs) + r.InlineLen()
  {
    hide Covers, Rows, InlineRows, RunOk, Continues, Extended;
    if r.len > 0 {
      if runs != [] && Continues(Last(runs), r) {
        assert runs == Front(runs) + [Last(runs)];
        MergeCovers(a, b, Front(runs), Last(runs), r, i, j);
      } else {
        Pushed(a, b, runs, r, OldEnd(r, i), NewEnd(r, j));
      }
    }
  }

  /** A run of the kind of the last one continues it, so pushing leaves nothing to be joined. */
  lemma MergedPush<T>(a: seq<T>, b: seq<T>, runs: seq<Run>, i: nat, j: nat, r: Run)
    requires Covers(a, b, runs, i, j) && StartsAt(r, i, j) && Merged(runs)
    ensures Merged(Appended(runs, r))
  {
    hide RunOk;
    if r.len > 0 && runs != [] {
      if Continues(Last(runs), r) {
        MergedLast(Front(runs), Last(runs), Extended(Last(runs), r));
      } else {
        assert !SameKind(Last(runs), r);
      }
    }
  }

  lemma MergedLast(front: seq<Run>, last: Run, longer: Run)
    requires Merged(front + [last]) && SameKind(last, longer)
    ensures Merged(front + [longer])
  {
    var runs, runs' := front + [last], front + [longer];
    forall k {:trigger runs'[k]} | 0 < k < |runs'|
      ensures !SameKind(runs'[k - 1], runs'[k])
    {
      assert !SameKind(runs[k - 1], runs[k]);
    }
  }

  function ContextLen(r: Run): nat {
    if r.Context? then r.len else 0
  }

  function PairedLen(r: Run): nat {
    if r.Context? || r.Modify? then r.len else 0
  }

  /** Merging changes no row count either. */
  lemma AppendedCounts(runs: seq<Run>, r: Run)
    ensures ContextRows(Appended(runs, r)) == ContextRows(runs) + ContextLen(r)
    ensures PairedRows(Appended(runs, r)) == PairedRows(runs) + PairedLen(r)
    ensures EndsInContext(Appended(runs, r)) <==> if r.len > 0 then r.Context? else EndsInContext(runs)
  {
    if r.len > 0 {
      if runs != [] && Continues(Last(runs), r) {
        assert Front(Front(runs) + [Extended(Last(runs), r)]) == Front(runs);
      } else {
        assert Front(runs + [r]) == runs;
      }
    }
  }

  /** Merging joins the pairs of two unchanged runs. */
  lemma AppendedPairs(runs: seq<Run>, r: Run)
    ensures UnchangedPairs(Appended(runs, r)) == UnchangedPairs(runs) + ContextPairs(r)
  {
    hide Diagonal;
    if r.len == 0 {
      NoPairs(r);
    } else if runs != [] && Continues(Last(runs), r) {
      ExtendedPairs(Last(runs), r);
      assert Front(Front(runs) + [Extended(Last(runs), r)]) == Front(runs);
    } else {
      assert Front(runs + [r]) == runs;
    }
  }

  lemma AppendedChanged(runs: seq<Run>, r: Run)
    ensures ChangedPairs(Appended(runs, r)) == ChangedPairs(runs) + ModifyPairs(r)
  {
    hide Diagonal;
    if r.len == 0 {
      NoPairs(r);
    } else if runs != [] && Continues(Last(runs), r) {
      ExtendedPairs(Last(runs), r);
      assert Front(Front(runs) + [Extended(Last(runs), r)]) == Front(runs);
    } else {
      assert Front(runs + [r]) == runs;
    }
  }

  lemma NoPairs(r: Run)
    ensures r.len == 0 || !r.Context? ==> ContextPairs(r) == {}
    ensures r.len == 0 || !r.Modify? ==> ModifyPairs(r) == {}
  {
  }

  lemma ExtendedPairs(last: Run, r: Run)
    requires Continues(last, r)
    ensures ContextPairs(Extended(last, r)) == ContextPairs(last) + ContextPairs(r)
    ensures ModifyPairs(Extended(last, r)) == ModifyPairs(last) + ModifyPairs(r)
  {
    if last.Context? || last.Modify? {
      DiagonalJoin(last.oldStart, last.newStart, last.len, r.len);
    }
  }

  lemma MergeCovers<T>(a: seq<T>, b: seq<T>, front: seq<Run>, last: Run, r: Run, i: nat, j: nat)
    requires Covers(a, b, front + [last], i, j) && Continues(last, r) && StartsAt(r, i, j) && RunOk(a, b, r)
    ensures Covers(a, b, front + [Extended(last, r)], OldEnd(r, i), NewEnd(r, j))
    ensures Rows(front + [Extended(last, r)]) == Rows(front + [last]) + r.len
    ensures InlineRows(front + [Extended(last, r)]) == InlineRows(front + [last]) + r.InlineLen()
  {
    hide RunOk, Covers, Rows, InlineRows;
    Pushed(a, b, front, last, i, j);
    ExtendedOk(a, b, last, r);
    Pushed(a, b, front, Extended(last, r), OldEnd(r, i), NewEnd(r, j));
  }

  // ----- the builder -----

  /** The run list and the two row counters that are filled together. */
  class PlanBuilder {
    var runs: seq<Run>
    var rowCount: nat
    var inlineRowCount: nat

    constructor ()
      ensures runs == [] && rowCount == 0 && inlineRowCount == 0
    {
      runs, rowCount, inlineRowCount := [], 0, 0;
    }

    /** Everything before (i, j) is covered, with matching counters. */
    ghost predicate At<T>(a: seq<T>, b: seq<T>, i: nat, j: nat)
      reads this
    {
      Covers(a, b, runs, i, j) && rowCount == Rows(runs) && inlineRowCount == InlineRows(runs) && Merged(runs)
    }

    /** Append a run, or extend the last one with it, and count its rows. */
    method Push<T>(run: Run, ghost a: seq<T>, ghost b: seq<T>, ghost i: nat, ghost j: nat)
      requires At(a, b, i, j) && StartsAt(run, i, j) && (run.len > 0 ==> RunOk(a, b, run))
      modifies this
      ensures runs == Appended(old(runs), run)
      ensures At(a, b, OldEnd(run, i), NewEnd(run, j))
      ensures ContextRows(runs) == old(ContextRows(runs)) + ContextLen(run)
      ensures EndsInContext(runs) <==> if run.len > 0 then run.Context? else old(EndsInContext(runs))
      ensures UnchangedPairs(runs) == old(UnchangedPairs(runs)) + ContextPairs(run)
      ensures ChangedPairs(runs) == old(ChangedPairs(runs)) + ModifyPairs(run)
      ensures rowCount == old(rowCount) + run.len
    {
      hide Covers, RunOk, Rows, InlineRows, ContextRows, PairedRows, EndsInContext, Continues, Extended, StartsAt,
           OldEnd, NewEnd, UnchangedPairs, ContextPairs, ChangedPairs, ModifyPairs, Run.InlineLen, ContextLen, Front,
           Last, Merged;
      MergedPush(a, b, runs, i, j, run);
      AppendedCounts(runs, run);
      AppendedChanged(runs, run);
      AppendedPairs(runs, run);
      CoverPush(a, b, runs, i, j, run);
      if run.len > 0 {
        rowCount := rowCount + run.len;
        inlineRowCount := inlineRowCount + run.InlineLen();
        if runs != [] && Continues(Last(runs), run) {
          runs := Front(runs) + [Extended(Last(runs), run)];
        } else {
          runs := runs + [run];
        }
      }
    }

    /** When only one file ends in a newline the last line of a trailing context run is shown as
        modified; that adds one inline row. */
    method ApplyEofNewline<T>(eof: EofNewline, ghost a: seq<T>, ghost b: seq<T>)
      requires At(a, b, |a|, |b|)
      modifies this
      ensures Covers(a, b, runs, |a|, |b|) && rowCount == Rows(runs) && inlineRowCount == InlineRows(runs)
      ensures runs == EofRuns(old(runs), eof)
              && UnchangedPairs(runs) == AfterEof(old(UnchangedPairs(runs)), |a|, |b|, eof)
      ensures ChangedPairs(runs) == old(ChangedPairs(runs)) + (old(UnchangedPairs(runs)) - UnchangedPairs(runs))
      ensures eof == NoDelta || !old(EndsInContext(runs)) ==>
                runs == old(runs) && rowCount == old(rowCount) && inlineRowCount == old(inlineRowCount)
      ensures eof != NoDelta && old(EndsInContext(runs)) ==>
                && a != [] && b != [] && runs != [] && Last(runs) == Modify(|a| - 1, |b| - 1, 1)
                && inlineRowCount == old(inlineRowCount) + 1 && rowCount == old(rowCount)
    {
      hide Covers, Rows, InlineRows, UnchangedPairs, ChangedPairs, AfterEof, Merged;
      EofPairs(a, b, runs, eof);
      EofMovesPair(a, b, runs, eof);
      if eof == NoDelta || runs == [] {
        return;
      }
      var last := Last(runs);
      if last.Context? {
        SplitLast(a, b, runs);
        var front := Front(runs);
        var changed := Modify(last.oldStart + (last.len - 1), last.newStart + (last.len - 1), 1);
        if last.len > 1 {
          runs := front + [Context(last.oldStart, last.newStart, last.len - 1)] + [changed];
        } else {
          runs := front + [changed];
        }
        inlineRowCount := inlineRowCount + 1;
      }
    }
  }

  /** The runs with the last row of a trailing context run turned into a modified one. */
  function Split(runs: seq<Run>): seq<Run>
    requires EndsInContext(runs) && Last(runs).len > 0
  {
    var last := Last(runs);
    var changed := Modify(last.oldStart + (last.len - 1), last.newStart + (last.len - 1), 1);
    (if last.len > 1 then Front(runs) + [Context(last.oldStart, last.newStart, last.len - 1)] else Front(runs))
    + [changed]
  }

  /** That is done when exactly one of the files ends in a newline. */
  function EofRuns(runs: seq<Run>, eof: EofNewline): seq<Run> {
    if eof != NoDelta && EndsInContext(runs) && Last(runs).len > 0 then Split(runs) else runs
  }

  /** Showing the last context line as modified keeps the coverage and adds one inline row. */
  lemma SplitLast<T>(a: seq<T>, b: seq<T>, runs: seq<Run>)
    requires Covers(a, b, runs, |a|, |b|) && runs != [] && Last(runs).Context?
    ensures var last := Last(runs);
            && 0 < last.len && last.oldStart + last.len == |a| && last.newStart + last.len == |b|
            && Covers(a, b, Split(runs), |a|, |b|)
            && Rows(Split(runs)) == Rows(runs) && InlineRows(Split(runs)) == InlineRows(runs) + 1
  {
    hide Covers, Rows, InlineRows, RunOk;
    var front, last := Front(runs), Last(runs);
    assert runs == front + [last];
    Pushed(a, b, front, last, |a|, |b|);
    ContextShows(a, b, last);
    var kept := Context(last.oldStart, last.newStart, last.len - 1);
    var changed := Modify(last.oldStart + (last.len - 1), last.newStart + (last.len - 1), 1);
    if last.len > 1 {
      ShorterContext(a, b, last);
      Pushed(a, b, front, kept, |a| - 1, |b| - 1);
      Pushed(a, b, front + [kept], changed, |a|, |b|);
    } else {
      Pushed(a, b, front, changed, |a|, |b|);
    }
  }

  /** Runs show as unchanged only lines they cover. */
  lemma {:induction false} PairsCovered<T>(a: seq<T>, b: seq<T>, runs: seq<Run>, i: nat, j: nat, p: LinePair)
    requires Covers(a, b, runs, i, j) && p in UnchangedPairs(runs)
    ensures p.0 < i && p.1 < j
    decreases |runs|
  {
    hide RunOk, Diagonal;
    if runs != [] {
      var r := Last(runs);
      if r.Context? {
        DiagonalHolds(r.oldStart, r.newStart, r.len, p);
      }
      if p in UnchangedPairs(Front(runs)) {
        PairsCovered(a, b, Front(runs), OldBefore(r, i), NewBefore(r, j), p);
      }
    }
  }

  lemma PushedPairs(runs: seq<Run>, r: Run)
    ensures UnchangedPairs(runs + [r]) == UnchangedPairs(runs) + ContextPairs(r)
  {
    hide ContextPairs;
    assert Front(runs + [r]) == runs;
  }

  ghost function LastShown(r: Run): LinePair
    requires r.Context? && r.len > 0
  {
    (r.oldStart + (r.len - 1), r.newStart + (r.len - 1))
  }

  lemma SplitDropsLast(front: seq<Run>, last: Run, p: LinePair)
    requires last.Context? && last.len > 0 && p == LastShown(last) && p !in UnchangedPairs(front)
    ensures UnchangedPairs(Split(front + [last])) == UnchangedPairs(front + [last]) - {p}
  {
    hide UnchangedPairs, ContextPairs;
    var kept, changed := Context(last.oldStart, last.newStart, last.len - 1), Modify(p.0, p.1, 1);
    assert Front(front + [last]) == front;
    LastPair(last);
    PushedPairs(front, last);
    PushedPairs(front, kept);
    PushedPairs(if last.len > 1 then front + [kept] else front, changed);
    NoPairs(changed);
  }

  lemma EndsThere<T>(a: seq<T>, b: seq<T>, runs: seq<Run>)
    requires Covers(a, b, runs, |a|, |b|) && EndsInContext(runs) && Last(runs).len > 0
    ensures a != [] && b != [] && LastShown(Last(runs)) == (|a| - 1, |b| - 1)
    ensures (|a| - 1, |b| - 1) !in UnchangedPairs(Front(runs))
  {
    hide RunOk, UnchangedPairs;
    var front, last, p := Front(runs), Last(runs), LastShown(Last(runs));
    if p in UnchangedPairs(front) {
      PairsCovered(a, b, front, last.oldStart, last.newStart, p);
    }
  }

  /** Splitting a trailing context run takes the last pair of lines, and no other, from the unchanged ones. */
  lemma SplitPairs<T>(a: seq<T>, b: seq<T>, runs: seq<Run>)
    requires Covers(a, b, runs, |a|, |b|) && EndsInContext(runs) && Last(runs).len > 0
    ensures a != [] && b != [] && UnchangedPairs(Split(runs)) == UnchangedPairs(runs) - {(|a| - 1, |b| - 1)}
  {
    hide Covers, UnchangedPairs, Split;
    EndsThere(a, b, runs);
    assert runs == Front(runs) + [Last(runs)];
    SplitDropsLast(Front(runs), Last(runs), (|a| - 1, |b| - 1));
  }

  lemma PushedChanged(runs: seq<Run>, r: Run)
    ensures ChangedPairs(runs + [r]) == ChangedPairs(runs) + ModifyPairs(r)
  {
    hide ModifyPairs;
    assert Front(runs + [r]) == runs;
  }

  /** The split shows that pair as changed instead. */
  lemma SplitChanges(front: seq<Run>, last: Run)
    requires last.Context? && last.len > 0
    ensures ChangedPairs(Split(front + [last])) == ChangedPairs(front + [last]) + {LastShown(last)}
  {
    var p := LastShown(last);
    var kept, changed := Context(last.oldStart, last.newStart, last.len - 1), Modify(p.0, p.1, 1);
    OneModified(p.0, p.1);
    hide ChangedPairs, ModifyPairs, Diagonal;
    assert Front(front + [last]) == front;
    NoPairs(last);
    NoPairs(kept);
    PushedChanged(front, last);
    PushedChanged(front, kept);
    PushedChanged(if last.len > 1 then front + [kept] else front, changed);
  }

  lemma OneModified(i: nat, j: nat)
    ensures ModifyPairs(Modify(i, j, 1)) == {(i, j)}
  {
    assert Diagonal(i, j, 1) == Diagonal(i, j, 0) + {(i, j)};
  }

  /** What the end-of-file rewrite takes from the unchanged pairs it adds to the changed ones. */
  lemma EofMovesPair<T>(a: seq<T>, b: seq<T>, runs: seq<Run>, eof: EofNewline)
    requires Covers(a, b, runs, |a|, |b|)
    ensures ChangedPairs(EofRuns(runs, eof))
         == ChangedPairs(runs) + (UnchangedPairs(runs) - UnchangedPairs(EofRuns(runs, eof)))
  {
    hide Covers, UnchangedPairs, ChangedPairs, Split;
    if eof != NoDelta && EndsInContext(runs) && Last(runs).len > 0 {
      assert runs == Front(runs) + [Last(runs)];
      SplitPairs(a, b, runs);
      SplitChanges(Front(runs), Last(runs));
      EndsThere(a, b, runs);
      LastIsUnchanged(Front(runs), Last(runs));
    }
  }

  lemma LastIsUnchanged(front: seq<Run>, last: Run)
    requires last.Context? && last.len > 0
    ensures LastShown(last) in UnchangedPairs(front + [last])
  {
    hide UnchangedPairs, ContextPairs;
    LastPair(last);
    PushedPairs(front, last);
  }

  lemma LastPair(last: Run)
    requires last.Context? && last.len > 0
    ensures var kept := Context(last.oldStart, last.newStart, last.len - 1);
            && ContextPairs(last) == ContextPairs(kept) + {LastShown(last)} && LastShown(last) !in ContextPairs(kept)
            && (last.len == 1 ==> ContextPairs(kept) == {})
  {
    DiagonalHolds(last.oldStart, last.newStart, last.len - 1, LastShown(last));
  }

  /** The pairs that are still shown as unchanged after the end-of-file rewrite: not the last lines. */
  ghost function AfterEof(pairs: set<LinePair>, oldLen: nat, newLen: nat, eof: EofNewline): set<LinePair> {
    if eof == NoDelta then pairs else set p | p in pairs && (p.0 + 1, p.1 + 1) != (oldLen, newLen)
  }

  lemma EofPairs<T>(a: seq<T>, b: seq<T>, runs: seq<Run>, eof: EofNewline)
    requires Covers(a, b, runs, |a|, |b|)
    ensures UnchangedPairs(EofRuns(runs, eof)) == AfterEof(UnchangedPairs(runs), |a|, |b|, eof)
  {
    hide Covers, UnchangedPairs, Split;
    if eof != NoDelta {
      if EndsInContext(runs) && Last(runs).len > 0 {
        SplitPairs(a, b, runs);
      } else {
        forall p | p in UnchangedPairs(runs)
          ensures (p.0 + 1, p.1 + 1) != (|a|, |b|)
        {
          LastNotShown(a, b, runs, p);
        }
      }
    }
  }

  /** Without a context run at the end the last lines are not shown as unchanged. */
  lemma LastNotShown<T>(a: seq<T>, b: seq<T>, runs: seq<Run>, p: LinePair)
    requires Covers(a, b, runs, |a|, |b|) && p in UnchangedPairs(runs) && !(EndsInContext(runs) && Last(runs).len > 0)
    ensures (p.0 + 1, p.1 + 1) != (|a|, |b|)
  {
    PairsCovered(a, b, Front(runs), OldBefore(Last(runs), |a|), NewBefore(Last(runs), |b|), p);
  }

  lemma SliceOfSlice<T>(s: seq<T>, from: nat, len: nat, n: nat)
    requires from + len <= |s| && n <= len
    ensures s[from..from + n] == s[from..from + len][..n]
  {
    var x, y := s[from..from + n], s[from..from + len][..n];
    forall k | 0 <= k < n
      ensures x[k] == y[k]
    {
      assert x[k] == s[from + k] == s[from..from + len][k] == y[k];
    }
  }

  lemma ContextShows<T>(a: seq<T>, b: seq<T>, r: Run)
    requires r.Context? && RunOk(a, b, r)
    ensures r.len > 0 && RunOk(a, b, Modify(r.oldStart + (r.len - 1), r.newStart + (r.len - 1), 1))
  {
  }

  lemma ShorterContext<T>(a: seq<T>, b: seq<T>, r: Run)
    requires r.Context? && r.len > 1 && RunOk(a, b, r)
    ensures RunOk(a, b, Context(r.oldStart, r.newStart, r.len - 1))
  {
    var o, n, m := r.oldStart, r.newStart, r.len;
    SliceOfSlice(a, o, m, m - 1);
    SliceOfSlice(b, n, m, m - 1);
  }

  // ----- what a partition means -----

  ghost predicate ShowsOld(r: Run, line: nat) {
    !r.Add? && r.oldStart <= line < r.oldStart + r.len
  }

  ghost predicate ShowsNew(r: Run, line: nat) {
    !r.Remove? && r.newStart <= line < r.newStart + r.len
  }

  /** The number of runs that show a line. */
  ghost function TimesOldShown(runs: seq<Run>, line: nat): nat {
    if runs == [] then 0 else TimesOldShown(Front(runs), line) + if ShowsOld(Last(runs), line) then 1 else 0
  }

  ghost function TimesNewShown(runs: seq<Run>, line: nat): nat {
    if runs == [] then 0 else TimesNewShown(Front(runs), line) + if ShowsNew(Last(runs), line) then 1 else 0
  }

  /** Every line of both files is shown by exactly one run, and no other line is shown. */
  lemma {:induction false} EachLineOnce<T>(a: seq<T>, b: seq<T>, runs: seq<Run>, i: nat, j: nat, line: nat)
    requires Covers(a, b, runs, i, j)
    ensures TimesOldShown(runs, line) == if line < i then 1 else 0
    ensures TimesNewShown(runs, line) == if line < j then 1 else 0
    decreases |runs|
  {
    hide RunOk;
    if runs != [] {
      EachLineOnce(a, b, Front(runs), OldBefore(Last(runs), i), NewBefore(Last(runs), j), line);
    }
  }

  /** Conservation: every line of both files is on screen, and only paired rows show two. */
  lemma {:induction false} RowBalance<T>(a: seq<T>, b: seq<T>, runs: seq<Run>, i: nat, j: nat)
    requires Covers(a, b, runs, i, j)
    ensures i + j == Rows(runs) + PairedRows(runs)
    ensures i + j == InlineRows(runs) + ContextRows(runs)
    decreases |runs|
  {
    hide RunOk;
    if runs != [] {
      RowBalance(a, b, Front(runs), OldBefore(Last(runs), i), NewBefore(Last(runs), j));
    }
  }
}
