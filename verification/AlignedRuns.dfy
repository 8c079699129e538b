module AlignedRuns {
  // Coalescing the rows of a three-way alignment into runs.

  import opened Wrappers

  datatype AlignedRow = AlignedRow(a: Option<nat>, b: Option<nat>, c: Option<nat>,
                                   equalAb: bool, equalAc: bool, equalBc: bool)

  datatype Kind = Unchanged | OursChanged | TheirsChanged | BothSame | Conflict

  datatype Presence = Presence(base: bool, ours: bool, theirs: bool) {
    predicate Any() {
      base || ours || theirs
    }
  }

  /** A row as the coalescing loop sees it. */
  datatype Cell = Cell(presence: Presence, kind: Kind, forced: bool)

  datatype Span = Span(start: nat, end: nat) {
    function Len(): nat {
      if end >= start then end - start else 0
    }
  }

  datatype AlignedRun = AlignedRun(base: Span, ours: Span, theirs: Span, kind: Kind) {
    function VisualRows(): nat {
      Max(base.Len(), Max(ours.Len(), theirs.Len()))
    }

    /** The sides that reach over every visual row. */
    function FullSides(): Presence {
      Presence(base.Len() == VisualRows(), ours.Len() == VisualRows(), theirs.Len() == VisualRows())
    }
  }

  function Max(x: nat, y: nat): nat {
    if x < y then y else x
  }

  // ----- what a row says -----

  function AlignedRowKind(row: AlignedRow, threeWay: bool): Kind {
    if !threeWay then
      match (row.a, row.b)
      case (Some(_), Some(_)) => if row.equalAb then Unchanged else Conflict
      case (Some(_), None) => OursChanged
      case (None, Some(_)) => TheirsChanged
      case (None, None) => Unchanged
    else
      match (row.a, row.b, row.c)
      case (Some(_), Some(_), Some(_)) =>
        if row.equalAb && row.equalAc then Unchanged
        else if row.equalAb then TheirsChanged
        else if row.equalAc then OursChanged
        else if row.equalBc then BothSame
        else Conflict
      case (Some(_), Some(_), None) => if row.equalAb then TheirsChanged else Conflict
      case (Some(_), None, Some(_)) => if row.equalAc then OursChanged else Conflict
      case (None, Some(_), Some(_)) => if row.equalBc then BothSame else Conflict
      case (None, Some(_), None) => OursChanged
      case (None, None, Some(_)) => TheirsChanged
      case (Some(_), None, None) => BothSame
      case (None, None, None) => Conflict
  }

  function RowPresence(row: AlignedRow, threeWay: bool): Presence {
    if threeWay then Presence(row.a.Some?, row.b.Some?, row.c.Some?)
    else Presence(false, row.a.Some?, row.b.Some?)
  }

  predicate IsForced(forced: seq<bool>, i: nat) {
    i < |forced| && forced[i]
  }

  function CellAt(rows: seq<AlignedRow>, threeWay: bool, forced: seq<bool>, i: nat): Cell
    requires i < |rows|
  {
    Cell(RowPresence(rows[i], threeWay),
         if IsForced(forced, i) then Conflict else AlignedRowKind(rows[i], threeWay),
         IsForced(forced, i))
  }

  function Cells(rows: seq<AlignedRow>, threeWay: bool, forced: seq<bool>): seq<Cell> {
    seq(|rows|, i requires 0 <= i < |rows| => CellAt(rows, threeWay, forced, i))
  }

  /** The flags of `row` tell which of the lines present in it are equal. */
  ghost predicate FlagsTell<T>(row: AlignedRow, x: Option<T>, y: Option<T>, z: Option<T>) {
    && row.a.Some? == x.Some? && row.b.Some? == y.Some? && row.c.Some? == z.Some?
    && (x.Some? && y.Some? ==> (row.equalAb <==> x == y))
    && (x.Some? && z.Some? ==> (row.equalAc <==> x == z))
    && (y.Some? && z.Some? ==> (row.equalBc <==> y == z))
  }

  /** How ours and theirs stand to the base, a missing line being a content of its own. */
  ghost function Relation<T>(base: Option<T>, ours: Option<T>, theirs: Option<T>): Kind {
    if base == ours && base == theirs then Unchanged
    else if base == theirs then OursChanged
    else if base == ours then TheirsChanged
    else if ours == theirs then BothSame
    else Conflict
  }

  /** The thirteen cases of a three-way row kind say exactly how the sides stand to the base,
      except that a row without any side counts as a conflict. */
  lemma RowKindIsRelation<T>(row: AlignedRow, base: Option<T>, ours: Option<T>, theirs: Option<T>)
    requires FlagsTell(row, base, ours, theirs)
    ensures AlignedRowKind(row, true) == Relation(base, ours, theirs) <==> RowPresence(row, true).Any()
  {
    match (base, ours, theirs) {
      case (Some(_), Some(_), Some(_)) =>
      case (Some(_), Some(_), None) =>
      case (Some(_), None, _) =>
      case (None, _, _) =>
    }
  }

  /** With two inputs: unchanged when both sides say the same, a conflict when both speak and differ. */
  lemma TwoWayRowKind<T>(row: AlignedRow, ours: Option<T>, theirs: Option<T>)
    requires FlagsTell(row, ours, theirs, if row.c.Some? then theirs else None)
    ensures var kind := AlignedRowKind(row, false);
            && (kind == Unchanged <==> ours == theirs)
            && (kind == Conflict <==> ours.Some? && theirs.Some? && ours != theirs)
            && (kind == OursChanged <==> ours.Some? && theirs.None?)
            && (kind == TheirsChanged <==> ours.None? && theirs.Some?)
            && kind != BothSame
  {
    match (ours, theirs) {
      case (Some(_), Some(_)) =>
      case (Some(_), None) =>
      case (None, _) =>
    }
  }

  // ----- coalescing -----

  function Last(runs: seq<AlignedRun>): AlignedRun
    requires runs != []
  {
    runs[|runs| - 1]
  }

  function Front(runs: seq<AlignedRun>): seq<AlignedRun>
    requires runs != []
  {
    runs[..|runs| - 1]
  }

  function Bit(present: bool): nat {
    if present then 1 else 0
  }

  /** How far the runs reach on each side. */
  datatype Reach = Reach(base: nat, ours: nat, theirs: nat)

  function ReachOf(runs: seq<AlignedRun>): Reach {
    if runs == [] then Reach(0, 0, 0)
    else Reach(Last(runs).base.end, Last(runs).ours.end, Last(runs).theirs.end)
  }

  function Plus(r: Reach, p: Presence): Reach {
    Reach(r.base + Bit(p.base), r.ours + Bit(p.ours), r.theirs + Bit(p.theirs))
  }

  function OneRow(at: Reach, cell: Cell): AlignedRun {
    AlignedRun(Span(at.base, at.base + Bit(cell.presence.base)),
               Span(at.ours, at.ours + Bit(cell.presence.ours)),
               Span(at.theirs, at.theirs + Bit(cell.presence.theirs)),
               cell.kind)
  }

  function Stretched(run: AlignedRun, to: Reach): AlignedRun {
    AlignedRun(Span(run.base.start, to.base), Span(run.ours.start, to.ours), Span(run.theirs.start, to.theirs),
               run.kind)
  }

  /** The row continues the run: same kind, one more visual row, and the same sides unless forced. */
  predicate Folds(run: AlignedRun, cell: Cell, to: Reach) {
    && run.kind == cell.kind
    && Stretched(run, to).VisualRows() == run.VisualRows() + 1
    && (run.FullSides() == cell.presence || cell.forced)
  }

  function AddRow(runs: seq<AlignedRun>, cell: Cell): seq<AlignedRun> {
    var to := Plus(ReachOf(runs), cell.presence);
    if runs != [] && Folds(Last(runs), cell, to) then Front(runs) + [Stretched(Last(runs), to)]
    else runs + [OneRow(ReachOf(runs), cell)]
  }

  function RunsOf(cells: seq<Cell>): seq<AlignedRun> {
    if cells == [] then [] else AddRow(RunsOf(cells[..|cells| - 1]), cells[|cells| - 1])
  }

  // ----- the loop -----

  /** Whether extending the longest range of `previous` by `next` adds exactly one visual row. */
  predicate Continues(previous: AlignedRun, next: AlignedRun, presence: Presence, isForced: bool) {
    var combined := Max(Span(previous.base.start, next.base.end).Len(),
                        Max(Span(previous.ours.start, next.ours.end).Len(),
                            Span(previous.theirs.start, next.theirs.end).Len()));
    && combined == previous.VisualRows() + 1
    && (previous.FullSides() == presence || isForced)
  }

  lemma RowContinues(runs: seq<AlignedRun>, cell: Cell, next: AlignedRun)
    requires next == OneRow(ReachOf(runs), cell)
    ensures AddRow(runs, cell) ==
            if runs != [] && Last(runs).kind == cell.kind && Continues(Last(runs), next, cell.presence, cell.forced)
            then runs[|runs| - 1 := Last(runs).(base := Span(Last(runs).base.start, next.base.end),
                                                ours := Span(Last(runs).ours.start, next.ours.end),
                                                theirs := Span(Last(runs).theirs.start, next.theirs.end))]
            else runs + [next]
    ensures ReachOf(AddRow(runs, cell)) == Reach(next.base.end, next.ours.end, next.theirs.end)
  {
    hide AlignedRun.FullSides, Span.Len, Bit;
    assert runs != [] ==>
             (Continues(Last(runs), next, cell.presence, cell.forced) && Last(runs).kind == cell.kind
              <==> Folds(Last(runs), cell, Plus(ReachOf(runs), cell.presence)));
    hide AlignedRun.VisualRows;
  }

  lemma RunsOfNext(cells: seq<Cell>, i: nat)
    requires i < |cells|
    ensures RunsOf(cells[..i + 1]) == AddRow(RunsOf(cells[..i]), cells[i])
  {
    assert cells[..i + 1][..i] == cells[..i];
  }

  lemma NoRuns(cells: seq<Cell>)
    ensures RunsOf(cells[..0]) == [] && ReachOf([]) == Reach(0, 0, 0)
  {
  }

  lemma WholeRun(cells: seq<Cell>, n: nat)
    requires n == |cells|
    ensures RunsOf(cells[..n]) == RunsOf(cells)
  {
    assert cells[..n] == cells;
  }

  method AlignedRowsToRuns(rows: seq<AlignedRow>, threeWay: bool, forced: seq<bool>) returns (runs: seq<AlignedRun>)
    ensures runs == RunsOf(Cells(rows, threeWay, forced))
  {
    hide Continues, AlignedRowKind, RowPresence, IsForced, AddRow, RunsOf, ReachOf, Bit;
    runs := [];
    var a: nat, b: nat, c: nat := 0, 0, 0;
    ghost var cells := Cells(rows, threeWay, forced);
    var i := 0;
    NoRuns(cells);
    while i < |rows|
      invariant 0 <= i <= |rows|
      invariant runs == RunsOf(cells[..i])
      invariant Reach(a, b, c) == ReachOf(runs)
    {
      var presence := RowPresence(rows[i], threeWay);
      var isForced := IsForced(forced, i);
      var kind := if isForced then Conflict else AlignedRowKind(rows[i], threeWay);
      var next := AlignedRun(Span(a, a + Bit(presence.base)), Span(b, b + Bit(presence.ours)),
                             Span(c, c + Bit(presence.theirs)), kind);
      a, b, c := next.base.end, next.ours.end, next.theirs.end;
      RunsOfNext(cells, i);
      RowContinues(runs, cells[i], next);
      var coalesced := false;
      if runs != [] && Last(runs).kind == kind {
        var previous := Last(runs);
        if Continues(previous, next, presence, isForced) {
          runs := runs[|runs| - 1 := previous.(base := Span(previous.base.start, next.base.end),
                                               ours := Span(previous.ours.start, next.ours.end),
                                               theirs := Span(previous.theirs.start, next.theirs.end))];
          coalesced := true;
        }
      }
      if !coalesced {
        runs := runs + [next];
      }
      i := i + 1;
    }
    WholeRun(cells, i);
  }

  // ----- rows are conserved -----

  /** Each run starts on every side where the one before it stops, the first at zero. */
  ghost predicate Chained(runs: seq<AlignedRun>) {
    runs != [] ==>
      && Chained(Front(runs))
      && Reach(Last(runs).base.start, Last(runs).ours.start, Last(runs).theirs.start) == ReachOf(Front(runs))
      && Last(runs).base.start <= Last(runs).base.end
      && Last(runs).ours.start <= Last(runs).ours.end
      && Last(runs).theirs.start <= Last(runs).theirs.end
  }

  ghost function TotalRows(runs: seq<AlignedRun>): nat {
    if runs == [] then 0 else TotalRows(Front(runs)) + Last(runs).VisualRows()
  }

  /** In how many rows each side is present. */
  ghost function Present(cells: seq<Cell>): Reach {
    if cells == [] then Reach(0, 0, 0) else Plus(Present(cells[..|cells| - 1]), cells[|cells| - 1].presence)
  }

  ghost function VisibleRows(cells: seq<Cell>): nat {
    if cells == [] then 0 else VisibleRows(cells[..|cells| - 1]) + Bit(cells[|cells| - 1].presence.Any())
  }

  lemma FrontOfSnoc(runs: seq<AlignedRun>, run: AlignedRun)
    ensures Front(runs + [run]) == runs && Last(runs + [run]) == run
  {
  }

  lemma AddRowConserves(runs: seq<AlignedRun>, cell: Cell)
    requires Chained(runs)
    ensures Chained(AddRow(runs, cell)) && ReachOf(AddRow(runs, cell)) == Plus(ReachOf(runs), cell.presence)
    ensures TotalRows(AddRow(runs, cell)) == TotalRows(runs) + Bit(cell.presence.Any())
  {
    var to := Plus(ReachOf(runs), cell.presence);
    if runs != [] && Folds(Last(runs), cell, to) {
      FrontOfSnoc(Front(runs), Stretched(Last(runs), to));
    } else {
      FrontOfSnoc(runs, OneRow(ReachOf(runs), cell));
    }
  }

  /** The runs partition each side, from zero up to the number of rows it is present in, and show
      as many visual rows as there are rows with a side present. */
  lemma {:induction false} RunsConserveRows(cells: seq<Cell>)
    ensures Chained(RunsOf(cells)) && ReachOf(RunsOf(cells)) == Present(cells)
    ensures TotalRows(RunsOf(cells)) == VisibleRows(cells)
  {
    if cells != [] {
      RunsConserveRows(cells[..|cells| - 1]);
      AddRowConserves(RunsOf(cells[..|cells| - 1]), cells[|cells| - 1]);
    }
  }

  /** So there are as many visual rows as rows exactly when every row has a side present. */
  lemma {:induction false} VisualRowsAreRows(cells: seq<Cell>)
    ensures TotalRows(RunsOf(cells)) == |cells| <==> forall i :: 0 <= i < |cells| ==> cells[i].presence.Any()
  {
    RunsConserveRows(cells);
    AllVisible(cells);
  }

  lemma {:induction false} AllVisible(cells: seq<Cell>)
    ensures VisibleRows(cells) <= |cells|
    ensures VisibleRows(cells) == |cells| <==> forall i :: 0 <= i < |cells| ==> cells[i].presence.Any()
  {
    if cells != [] {
      var front := cells[..|cells| - 1];
      AllVisible(front);
      assert forall i :: 0 <= i < |front| ==> cells[i] == front[i];
    }
  }

  // ----- runs expand to the rows they stand for -----

  datatype Shown = Shown(presence: Presence, kind: Kind)

  ghost function Copies(x: Shown, n: nat): seq<Shown> {
    if n == 0 then [] else Copies(x, n - 1) + [x]
  }

  ghost function Expand(runs: seq<AlignedRun>): seq<Shown> {
    if runs == [] then []
    else Expand(Front(runs)) + Copies(Shown(Last(runs).FullSides(), Last(runs).kind), Last(runs).VisualRows())
  }

  /** The rows with a side present. */
  ghost function ShownRows(cells: seq<Cell>): seq<Shown> {
    if cells == [] then []
    else
      var cell := cells[|cells| - 1];
      ShownRows(cells[..|cells| - 1]) + if cell.presence.Any() then [Shown(cell.presence, cell.kind)] else []
  }

  ghost predicate Unforced(cells: seq<Cell>) {
    forall i :: 0 <= i < |cells| ==> !cells[i].forced
  }

  /** On every side a run is either full or empty. */
  ghost predicate Even(run: AlignedRun) {
    && (run.base.Len() == 0 || run.base.Len() == run.VisualRows())
    && (run.ours.Len() == 0 || run.ours.Len() == run.VisualRows())
    && (run.theirs.Len() == 0 || run.theirs.Len() == run.VisualRows())
  }

  lemma StretchEven(run: AlignedRun, cell: Cell)
    requires run.base.start <= run.base.end && run.ours.start <= run.ours.end && run.theirs.start <= run.theirs.end
    requires Even(run) && !cell.forced
    requires Folds(run, cell, Plus(Reach(run.base.end, run.ours.end, run.theirs.end), cell.presence))
    ensures var longer := Stretched(run, Plus(Reach(run.base.end, run.ours.end, run.theirs.end), cell.presence));
            && Even(longer) && longer.VisualRows() == run.VisualRows() + 1
            && longer.FullSides() == cell.presence == run.FullSides() && cell.presence.Any() && run.kind == cell.kind
  {
  }

  lemma OneRowEven(at: Reach, cell: Cell)
    ensures Even(OneRow(at, cell)) && OneRow(at, cell).VisualRows() == Bit(cell.presence.Any())
    ensures cell.presence.Any() ==> OneRow(at, cell).FullSides() == cell.presence
  {
  }

  lemma ExpandSnoc(runs: seq<AlignedRun>, run: AlignedRun)
    ensures Expand(runs + [run]) == Expand(runs) + Copies(Shown(run.FullSides(), run.kind), run.VisualRows())
  {
    FrontOfSnoc(runs, run);
  }

  lemma OneCopy(x: Shown)
    ensures Copies(x, 0) == [] && Copies(x, 1) == [x]
  {
    assert Copies(x, 1) == Copies(x, 0) + [x];
  }

  lemma ExpandStretched(runs: seq<AlignedRun>, longer: AlignedRun)
    requires runs != []
    requires longer.kind == Last(runs).kind && longer.FullSides() == Last(runs).FullSides()
    requires longer.VisualRows() == Last(runs).VisualRows() + 1
    ensures Expand(Front(runs) + [longer]) == Expand(runs) + [Shown(longer.FullSides(), longer.kind)]
  {
    var x, n := Shown(longer.FullSides(), longer.kind), Last(runs).VisualRows();
    assert Copies(x, n + 1) == Copies(x, n) + [x];
    hide Copies;
    ExpandSnoc(Front(runs), longer);
    assert Expand(runs) == Expand(Front(runs)) + Copies(x, n);
  }

  lemma AddRowExpands(runs: seq<AlignedRun>, cell: Cell)
    requires Chained(runs) && (forall r :: r in runs ==> Even(r)) && !cell.forced
    ensures forall r :: r in AddRow(runs, cell) ==> Even(r)
    ensures Expand(AddRow(runs, cell)) ==
            Expand(runs) + if cell.presence.Any() then [Shown(cell.presence, cell.kind)] else []
  {
    hide Folds, Even, Expand, Copies, AlignedRun.FullSides, AlignedRun.VisualRows;
    var to := Plus(ReachOf(runs), cell.presence);
    if runs != [] && Folds(Last(runs), cell, to) {
      StretchEven(Last(runs), cell);
      ExpandStretched(runs, Stretched(Last(runs), to));
    } else {
      var one := OneRow(ReachOf(runs), cell);
      OneRowEven(ReachOf(runs), cell);
      ExpandSnoc(runs, one);
      OneCopy(Shown(one.FullSides(), one.kind));
    }
  }

  /** With no row forced, the runs say of each row that shows anything which sides it has and its kind. */
  lemma {:induction false} RunsExpandToRows(cells: seq<Cell>)
    requires Unforced(cells)
    ensures Expand(RunsOf(cells)) == ShownRows(cells)
    ensures forall r :: r in RunsOf(cells) ==> Even(r)
  {
    hide AddRow, Even;
    if cells != [] {
      var front := cells[..|cells| - 1];
      RunsExpandToRows(front);
      RunsConserveRows(front);
      AddRowExpands(RunsOf(front), cells[|cells| - 1]);
    }
  }

  // ----- and no two of them could be one -----

  ghost predicate Separate(r: AlignedRun, s: AlignedRun) {
    r.kind != s.kind || r.FullSides() != s.FullSides()
  }

  ghost predicate Canonical(runs: seq<AlignedRun>) {
    && (forall r :: r in runs ==> Even(r) && r.VisualRows() > 0)
    && (forall i {:trigger runs[i]} :: 0 < i < |runs| ==> Separate(runs[i - 1], runs[i]))
  }

  /** A row with the kind and the sides of the last run is folded into it. */
  lemma LikeRowFolds(run: AlignedRun, cell: Cell)
    requires run.base.start <= run.base.end && run.ours.start <= run.ours.end && run.theirs.start <= run.theirs.end
    requires Even(run) && run.VisualRows() > 0
    requires run.kind == cell.kind && run.FullSides() == cell.presence
    ensures Folds(run, cell, Plus(Reach(run.base.end, run.ours.end, run.theirs.end), cell.presence))
  {
  }

  lemma CanonicalSnoc(runs: seq<AlignedRun>, r: AlignedRun)
    requires Canonical(runs) && Even(r) && r.VisualRows() > 0
    requires runs != [] ==> Separate(Last(runs), r)
    ensures Canonical(runs + [r])
  {
    hide Even, Separate;
  }

  lemma CanonicalFront(runs: seq<AlignedRun>)
    requires Canonical(runs) && runs != []
    ensures Canonical(Front(runs)) && Even(Last(runs)) && Last(runs).VisualRows() > 0
    ensures Front(runs) != [] ==> Separate(Last(Front(runs)), Last(runs))
  {
    hide Even, Separate;
    var front := Front(runs);
    forall i | 0 < i < |front|
      ensures Separate(front[i - 1], front[i])
    {
      assert Separate(runs[i - 1], runs[i]);
    }
    if front != [] {
      assert Separate(runs[|runs| - 2], runs[|runs| - 1]);
    }
  }

  lemma AddRowCanonical(runs: seq<AlignedRun>, cell: Cell)
    requires Chained(runs) && Canonical(runs) && !cell.forced && cell.presence.Any()
    ensures Canonical(AddRow(runs, cell))
  {
    hide Folds, Even, Canonical;
    var to := Plus(ReachOf(runs), cell.presence);
    if runs != [] {
      CanonicalFront(runs);
    }
    if runs != [] && Folds(Last(runs), cell, to) {
      StretchEven(Last(runs), cell);
      CanonicalSnoc(Front(runs), Stretched(Last(runs), to));
    } else {
      var one := OneRow(ReachOf(runs), cell);
      OneRowEven(ReachOf(runs), cell);
      if runs != [] && Last(runs).kind == cell.kind && Last(runs).FullSides() == cell.presence {
        LikeRowFolds(Last(runs), cell);
      }
      CanonicalSnoc(runs, one);
    }
  }

  /** With no row forced and every row showing something, neighbouring runs differ in kind or in
      sides: the rows are compressed as far as they can be. */
  lemma {:induction false} RunsAreCanonical(cells: seq<Cell>)
    requires Unforced(cells) && forall i :: 0 <= i < |cells| ==> cells[i].presence.Any()
    ensures Canonical(RunsOf(cells))
  {
    hide AddRow, Separate, Even;
    if cells != [] {
      var front := cells[..|cells| - 1];
      RunsAreCanonical(front);
      RunsConserveRows(front);
      AddRowCanonical(RunsOf(front), cells[|cells| - 1]);
    }
  }

  // ----- forced blocks -----

  datatype Block = Block(rows: Span, originalConflict: bool)

  predicate Replaces(row: AlignedRow) {
    row.a.Some? && row.b.Some? && !row.equalAb
  }

  /** Block `b` makes all of its rows one conflict. */
  predicate Forces(rows: seq<AlignedRow>, b: Block) {
    b.originalConflict && exists i :: b.rows.start <= i < b.rows.end && i < |rows| && Replaces(rows[i])
  }

  /** One of the blocks that force their rows contains row `i`. */
  ghost predicate ForcedBy(rows: seq<AlignedRow>, blocks: seq<Block>, i: int) {
    exists b :: b in blocks && b.rows.start <= i < b.rows.end && Forces(rows, b)
  }

  lemma ForcedByNext(rows: seq<AlignedRow>, blocks: seq<Block>, k: nat)
    requires k < |blocks|
    ensures forall i :: ForcedBy(rows, blocks[..k + 1], i) <==>
                        ForcedBy(rows, blocks[..k], i)
                        || (blocks[k].rows.start <= i < blocks[k].rows.end && Forces(rows, blocks[k]))
  {
    hide Forces;
    assert blocks[..k + 1] == blocks[..k] + [blocks[k]];
  }

  lemma ForcedByAll(rows: seq<AlignedRow>, blocks: seq<Block>, k: nat)
    requires k == |blocks|
    ensures forall i :: ForcedBy(rows, blocks[..k], i) <==> ForcedBy(rows, blocks, i)
  {
    assert blocks[..k] == blocks;
  }

  /** Which rows a plan keeps together as conflicts: those of its replacement blocks, and only when
      the plan has two inputs. */
  method ForcedRows(rows: seq<AlignedRow>, blocks: seq<Block>, threeWay: bool) returns (forced: seq<bool>)
    requires forall b :: b in blocks ==> b.rows.start <= b.rows.end <= |rows|
    ensures forall i: nat :: i < |rows| ==> (IsForced(forced, i) <==> !threeWay && ForcedBy(rows, blocks, i))
  {
    assert forall i :: !ForcedBy(rows, blocks[..0], i);
    hide ForcedBy, Replaces;
    if threeWay {
      return [];
    }
    var forcedConflict: array<bool> := new bool[|rows|](_ => false);
    var k := 0;
    while k < |blocks|
      invariant 0 <= k <= |blocks|
      invariant forall i :: 0 <= i < |rows| ==> (forcedConflict[i] <==> ForcedBy(rows, blocks[..k], i))
    {
      ForcedByNext(rows, blocks, k);
      if Forces(rows, blocks[k]) {
        forall i | blocks[k].rows.start <= i < blocks[k].rows.end {
          forcedConflict[i] := true;
        }
      }
      k := k + 1;
    }
    ForcedByAll(rows, blocks, k);
    forced := forcedConflict[..];
  }

  /** The rows of a plan, those of its replacement blocks being conflicts when it has two inputs. */
  ghost function PlanCells(rows: seq<AlignedRow>, blocks: seq<Block>, threeWay: bool): seq<Cell> {
    seq(|rows|, i requires 0 <= i < |rows| =>
      var forced := !threeWay && ForcedBy(rows, blocks, i);
      Cell(RowPresence(rows[i], threeWay), if forced then Conflict else AlignedRowKind(rows[i], threeWay), forced))
  }

  method AlignedPlanToRuns(rows: seq<AlignedRow>, blocks: seq<Block>, threeWay: bool) returns (runs: seq<AlignedRun>)
    requires forall b :: b in blocks ==> b.rows.start <= b.rows.end <= |rows|
    ensures runs == RunsOf(PlanCells(rows, blocks, threeWay))
  {
    hide RowPresence, AlignedRowKind, ForcedBy, RunsOf;
    var forcedConflict := ForcedRows(rows, blocks, threeWay);
    assert Cells(rows, threeWay, forcedConflict) == PlanCells(rows, blocks, threeWay);
    runs := AlignedRowsToRuns(rows, threeWay, forcedConflict);
  }

  /** Row `i` of a replacement block: both sides, then only the longer one. */
  ghost predicate InBlock(cells: seq<Cell>, i: nat, mid: nat, longer: Presence)
    requires i < |cells|
  {
    && cells[i].forced && cells[i].kind == Conflict
    && cells[i].presence == if i < mid then Presence(false, true, true) else longer
  }

  function BlockRun(at: Reach, both: nat, all: nat, longer: Presence): AlignedRun {
    AlignedRun(Span(at.base, at.base),
               Span(at.ours, at.ours + if longer.ours then all else both),
               Span(at.theirs, at.theirs + if longer.theirs then all else both),
               Conflict)
  }

  lemma OtherKindStarts(runs: seq<AlignedRun>, cell: Cell)
    requires runs != [] ==> Last(runs).kind != cell.kind
    ensures AddRow(runs, cell) == runs + [OneRow(ReachOf(runs), cell)]
  {
    hide AlignedRun.VisualRows, AlignedRun.FullSides, Stretched, Last, OneRow, ReachOf;
  }

  lemma OneBlockRow(at: Reach, cell: Cell, longer: Presence)
    requires cell.kind == Conflict && cell.presence == Presence(false, true, true)
    ensures OneRow(at, cell) == BlockRun(at, 1, 1, longer)
  {
  }

  lemma BlockGrows(runs: seq<AlignedRun>, at: Reach, both: nat, all: nat, longer: Presence, cell: Cell)
    requires 0 < both <= all && cell.kind == Conflict && cell.forced
    requires longer == Presence(false, true, false) || longer == Presence(false, false, true)
    requires cell.presence == (if both == all then Presence(false, true, true) else longer) || cell.presence == longer
    ensures AddRow(runs + [BlockRun(at, both, all, longer)], cell) ==
            runs + [BlockRun(at, if cell.presence == longer then both else both + 1, all + 1, longer)]
  {
    FrontOfSnoc(runs, BlockRun(at, both, all, longer));
  }

  lemma BlockCell(cells: seq<Cell>, i: nat, mid: nat, longer: Presence)
    requires i < |cells| && InBlock(cells, i, mid, longer)
    ensures cells[i].forced && cells[i].kind == Conflict
    ensures cells[i].presence == if i < mid then Presence(false, true, true) else longer
  {
  }

  /** A forced block that starts with its replaced rows and goes on with the longer side is kept as
      a single run, unless it runs on from another conflict. */
  lemma {:induction false} ForcedBlockIsOneRun(cells: seq<Cell>, lo: nat, mid: nat, hi: nat, longer: Presence)
    requires lo < mid && lo < hi <= |cells|
    requires longer == Presence(false, true, false) || longer == Presence(false, false, true)
    requires forall i :: lo <= i < hi ==> InBlock(cells, i, mid, longer)
    requires var before := RunsOf(cells[..lo]); before != [] ==> Last(before).kind != Conflict
    ensures var before := RunsOf(cells[..lo]);
            RunsOf(cells[..hi]) ==
            before + [BlockRun(ReachOf(before), if hi < mid then hi - lo else mid - lo, hi - lo, longer)]
  {
    hide *;
    var last := hi - 1;
    assert InBlock(cells, last, mid, longer);
    BlockCell(cells, last, mid, longer);
    RunsOfNext(cells, last);
    var before := RunsOf(cells[..lo]);
    if lo < last {
      ForcedBlockIsOneRun(cells, lo, mid, last, longer);
      BlockGrows(before, ReachOf(before), if last < mid then last - lo else mid - lo, last - lo, longer, cells[last]);
    } else {
      OtherKindStarts(before, cells[last]);
      OneBlockRow(ReachOf(before), cells[last], longer);
    }
  }

  // ----- which run shows a row -----

  /** The run that shows row `i`, by its number: the last one as soon as the row is added. */
  ghost function RunAt(cells: seq<Cell>, i: nat): (k: nat)
    requires i < |cells|
  {
    RunsOfNext(cells, i);
    |RunsOf(cells[..i + 1])| - 1
  }

  /** The same run, possibly longer. */
  ghost predicate Extends(r: AlignedRun, s: AlignedRun) {
    && r.kind == s.kind
    && r.base.start == s.base.start && r.ours.start == s.ours.start && r.theirs.start == s.theirs.start
    && r.base.end <= s.base.end && r.ours.end <= s.ours.end && r.theirs.end <= s.theirs.end
  }

  lemma AddRowExtends(runs: seq<AlignedRun>, cell: Cell, k: nat)
    requires k < |runs|
    ensures |runs| <= |AddRow(runs, cell)| <= |runs| + 1 && Extends(runs[k], AddRow(runs, cell)[k])
  {
    hide Folds;
  }

  /** Later rows leave a row in its run. */
  lemma {:induction false} RunStays(cells: seq<Cell>, i: nat, n: nat)
    requires i < n <= |cells|
    ensures RunAt(cells, i) < |RunsOf(cells[..n])|
    ensures RunsOf(cells[..i + 1]) != []
    ensures Extends(Last(RunsOf(cells[..i + 1])), RunsOf(cells[..n])[RunAt(cells, i)])
    decreases n
  {
    hide RunsOf, AddRow;
    RunsOfNext(cells, n - 1);
    RowAdded(RunsOf(cells[..n - 1]), cells[n - 1]);
    if i < n - 1 {
      RunStays(cells, i, n - 1);
      AddRowExtends(RunsOf(cells[..n - 1]), cells[n - 1], RunAt(cells, i));
    }
  }

  /** A row is added to the last run, as one line more on each side it has. */
  lemma RowAdded(runs: seq<AlignedRun>, cell: Cell)
    ensures var after, at := AddRow(runs, cell), ReachOf(runs);
            && after != [] && ReachOf(after) == Plus(at, cell.presence) && Last(after).kind == cell.kind
            && |runs| <= |after| <= |runs| + 1
            && (|after| == |runs| ==> Folds(Last(runs), cell, Plus(at, cell.presence))
                                      && Last(after) == Stretched(Last(runs), Plus(at, cell.presence)))
            && (|after| > |runs| ==> Last(after) == OneRow(at, cell))
  {
    hide AlignedRun.VisualRows, AlignedRun.FullSides;
  }

  ghost function ShowingRun(cells: seq<Cell>, i: nat): AlignedRun
    requires i < |cells|
  {
    RunStays(cells, i, |cells|);
    WholeRun(cells, |cells|);
    RunsOf(cells)[RunAt(cells, i)]
  }

  lemma ShowingRunExtends(cells: seq<Cell>, i: nat)
    requires i < |cells|
    ensures RunsOf(cells[..i + 1]) != [] && Extends(Last(RunsOf(cells[..i + 1])), ShowingRun(cells, i))
  {
    RunStays(cells, i, |cells|);
    WholeRun(cells, |cells|);
    hide RunsOf, Extends;
  }

  ghost predicate Holds(span: Span, present: bool, line: nat) {
    present ==> span.start <= line < span.end
  }

  /** The run that shows a row has the row's kind and, of each side present in it, the row's line. */
  lemma RowIsInItsRun(cells: seq<Cell>, i: nat)
    requires i < |cells|
    ensures var run, p, at := ShowingRun(cells, i), cells[i].presence, Present(cells[..i]);
            && run.kind == cells[i].kind
            && Holds(run.base, p.base, at.base) && Holds(run.ours, p.ours, at.ours)
            && Holds(run.theirs, p.theirs, at.theirs)
  {
    hide RunsOf, AddRow, Folds, Present, ShowingRun;
    ShowingRunExtends(cells, i);
    RunsOfNext(cells, i);
    RowAdded(RunsOf(cells[..i]), cells[i]);
    RunsConserveRows(cells[..i]);
  }

  lemma {:induction false} RunAtGrows(cells: seq<Cell>, i: nat, j: nat)
    requires i <= j < |cells|
    ensures RunAt(cells, i) <= RunAt(cells, j)
    decreases j
  {
    hide RunsOf, AddRow, Folds;
    if i < j {
      RunAtGrows(cells, i, j - 1);
      RunsOfNext(cells, j);
      RowAdded(RunsOf(cells[..j]), cells[j]);
    }
  }

  // ----- corresponding lines at one height -----

  /** The lines of row `i` all stand equally far below the start of the run that shows it. */
  ghost predicate Level(cells: seq<Cell>, i: nat)
    requires i < |cells|
  {
    var run, p, at := ShowingRun(cells, i), cells[i].presence, Present(cells[..i]);
    && (p.base && p.ours ==> at.base - run.base.start == at.ours - run.ours.start)
    && (p.base && p.theirs ==> at.base - run.base.start == at.theirs - run.theirs.start)
    && (p.ours && p.theirs ==> at.ours - run.ours.start == at.theirs - run.theirs.start)
  }

  /** With no row forced, as in every plan with three inputs, corresponding lines are always level. */
  lemma UnforcedRowsLevel(cells: seq<Cell>, i: nat)
    requires Unforced(cells) && i < |cells|
    ensures Level(cells, i)
  {
    hide RunsOf, AddRow, Present, ShowingRun, Even, Folds;
    ShowingRunExtends(cells, i);
    RunsOfNext(cells, i);
    var before := RunsOf(cells[..i]);
    RowAdded(before, cells[i]);
    RunsConserveRows(cells[..i]);
    RunsExpandToRows(cells[..i]);
    if |RunsOf(cells[..i + 1])| == |before| {
      JoinedLevel(Last(before), cells[i]);
    }
  }

  lemma JoinedLevel(run: AlignedRun, cell: Cell)
    requires run.base.start <= run.base.end && run.ours.start <= run.ours.end && run.theirs.start <= run.theirs.end
    requires Even(run) && !cell.forced
    requires Folds(run, cell, Plus(Reach(run.base.end, run.ours.end, run.theirs.end), cell.presence))
    ensures var p, h := cell.presence, run.VisualRows();
            && (p.base ==> run.base.end - run.base.start == h) && (p.ours ==> run.ours.end - run.ours.start == h)
            && (p.theirs ==> run.theirs.end - run.theirs.start == h)
  {
  }

  lemma ThreeWayRowsLevel(rows: seq<AlignedRow>, blocks: seq<Block>, i: nat)
    requires i < |rows|
    ensures Level(PlanCells(rows, blocks, true), i)
  {
    hide Level;
    UnforcedRowsLevel(PlanCells(rows, blocks, true), i);
  }

  predicate Both(p: Presence) {
    p.ours && p.theirs
  }

  /** The rows before `n` that share a run with row `n - 1`, and that row, have both sides. */
  ghost predicate Paired(cells: seq<Cell>, n: nat)
    requires 0 < n <= |cells|
  {
    forall j: nat :: j < n && RunAt(cells, j) == RunAt(cells, n - 1) ==> Both(cells[j].presence)
  }

  lemma PairedNext(cells: seq<Cell>, n: nat)
    requires 0 < n < |cells|
    ensures Paired(cells, n + 1) <==>
            Both(cells[n].presence) && (RunAt(cells, n) == RunAt(cells, n - 1) ==> Paired(cells, n))
  {
    hide RunAt;
    RunAtGrows(cells, n - 1, n);
    forall j: nat | j < n
      ensures RunAt(cells, j) <= RunAt(cells, n - 1)
    {
      RunAtGrows(cells, j, n - 1);
    }
  }

  /** A row of a plan with two inputs: it shows a line of one of them. */
  predicate TwoWayRow(cell: Cell) {
    !cell.presence.base && cell.presence.Any()
  }

  lemma StretchLevel(run: AlignedRun, cell: Cell)
    requires TwoWay(run) && TwoWayRow(cell)
    requires Folds(run, cell, Plus(Reach(run.base.end, run.ours.end, run.theirs.end), cell.presence))
    ensures var longer := Stretched(run, Plus(Reach(run.base.end, run.ours.end, run.theirs.end), cell.presence));
            longer.ours.Len() == longer.theirs.Len() <==> run.ours.Len() == run.theirs.Len() && Both(cell.presence)
  {
  }

  lemma OneRowLevel(at: Reach, cell: Cell)
    requires TwoWayRow(cell)
    ensures OneRow(at, cell).ours.Len() == OneRow(at, cell).theirs.Len() <==> Both(cell.presence)
  {
  }

  /** A run is even on both sides as long as all its rows have both. */
  lemma {:induction false} LevelSoFar(cells: seq<Cell>, n: nat)
    requires 0 < n <= |cells| && forall j :: 0 <= j < n ==> TwoWayRow(cells[j])
    ensures RunsOf(cells[..n]) != [] && TwoWay(Last(RunsOf(cells[..n])))
    ensures var run := Last(RunsOf(cells[..n])); run.ours.Len() == run.theirs.Len() <==> Paired(cells, n)
    decreases n
  {
    hide RunsOf, AddRow, Folds, Paired, TwoWayRow, Span.Len, OneRow, Stretched, TwoWay;
    var before, cell := RunsOf(cells[..n - 1]), cells[n - 1];
    RunsOfNext(cells, n - 1);
    RowAdded(before, cell);
    TwoWaySoFar(cells, n);
    if n == 1 {
      NoRuns(cells);
      OneRowLevel(ReachOf(before), cell);
      FirstPaired(cells);
    } else {
      LevelSoFar(cells, n - 1);
      PairedNext(cells, n - 1);
      if |RunsOf(cells[..n])| == |before| {
        StretchLevel(Last(before), cell);
      } else {
        OneRowLevel(ReachOf(before), cell);
      }
    }
  }

  lemma TwoWaySoFar(cells: seq<Cell>, n: nat)
    requires 0 < n <= |cells| && forall j :: 0 <= j < n ==> TwoWayRow(cells[j])
    ensures RunsOf(cells[..n]) != [] && TwoWay(Last(RunsOf(cells[..n])))
  {
    hide RunsOf, TwoWay;
    NoBase(cells[..n]);
    RunStays(cells, n - 1, n);
  }

  lemma FirstPaired(cells: seq<Cell>)
    requires cells != []
    ensures Paired(cells, 1) <==> Both(cells[0].presence)
  {
    hide RunAt;
  }

  /** In a plan with two inputs the two lines of a row are level if and only if no row before it in the
      same run is one-sided. */
  lemma PairLevel(cells: seq<Cell>, i: nat)
    requires i < |cells| && (forall j :: 0 <= j <= i ==> TwoWayRow(cells[j])) && Both(cells[i].presence)
    ensures Level(cells, i) <==>
            forall j: nat :: j < i && RunAt(cells, j) == RunAt(cells, i) ==> Both(cells[j].presence)
  {
    hide RunsOf, AddRow, Folds, Present, ShowingRun;
    ShowingRunExtends(cells, i);
    RunsOfNext(cells, i);
    RowAdded(RunsOf(cells[..i]), cells[i]);
    RunsConserveRows(cells[..i]);
    if i == 0 {
      NoRuns(cells);
    } else {
      LevelSoFar(cells, i);
      SharedRun(cells, i);
    }
  }

  lemma SharedRun(cells: seq<Cell>, i: nat)
    requires 0 < i < |cells|
    ensures (forall j: nat :: j < i && RunAt(cells, j) == RunAt(cells, i) ==> Both(cells[j].presence))
            <==> (RunAt(cells, i) == RunAt(cells, i - 1) ==> Paired(cells, i))
  {
    hide RunAt;
    RunAtGrows(cells, i - 1, i);
    forall j: nat | j < i
      ensures RunAt(cells, j) <= RunAt(cells, i - 1)
    {
      RunAtGrows(cells, j, i - 1);
    }
  }

  // ----- which forced blocks are kept whole -----

  datatype Heights = Heights(ours: nat, theirs: nat)

  function Raised(h: Heights, p: Presence): Heights {
    Heights(h.ours + Bit(p.ours), h.theirs + Bit(p.theirs))
  }

  /** A row on one side only, and that is the lower one: it makes the block no higher. */
  predicate Tears(h: Heights, p: Presence) {
    (p.ours && !p.theirs && h.ours < h.theirs) || (p.theirs && !p.ours && h.theirs < h.ours)
  }

  /** Whether a conflict row goes on a conflict of these heights: a forced one unless it tears, another
      one if it has just the sides that are highest. */
  predicate Joins(h: Heights, cell: Cell) {
    if cell.forced then cell.presence.Any() && !Tears(h, cell.presence)
    else cell.presence.ours == (h.ours >= h.theirs) && cell.presence.theirs == (h.theirs >= h.ours)
  }

  function NextHeights(h: Heights, cell: Cell): Heights {
    if cell.kind != Conflict then Heights(0, 0)
    else Raised(if Joins(h, cell) then h else Heights(0, 0), cell.presence)
  }

  /** How high each side stands in the conflict that the rows end in, counted row by row. */
  function ConflictHeights(cells: seq<Cell>): Heights {
    if cells == [] then Heights(0, 0) else NextHeights(ConflictHeights(cells[..|cells| - 1]), cells[|cells| - 1])
  }

  /** Row `i` has only the side that is strictly lower by then. */
  predicate TearsAt(cells: seq<Cell>, i: nat)
    requires i < |cells|
  {
    Tears(ConflictHeights(cells[..i]), cells[i].presence)
  }

  lemma HeightsNext(cells: seq<Cell>, i: nat)
    requires i < |cells|
    ensures ConflictHeights(cells[..i + 1]) == NextHeights(ConflictHeights(cells[..i]), cells[i])
  {
    hide NextHeights;
    assert cells[..i + 1][..i] == cells[..i];
  }

  predicate EndsInConflict(runs: seq<AlignedRun>) {
    runs != [] && Last(runs).kind == Conflict
  }

  /** How far each side reaches in the conflict that ends the runs, if one does. */
  function HeightsOf(runs: seq<AlignedRun>): Heights {
    if EndsInConflict(runs) then Heights(Last(runs).ours.Len(), Last(runs).theirs.Len()) else Heights(0, 0)
  }

  /** A run of a plan with two inputs: no base lines, and proper ranges. */
  predicate TwoWay(run: AlignedRun) {
    run.base.start == run.base.end && run.ours.start <= run.ours.end && run.theirs.start <= run.theirs.end
  }

  lemma ConflictFolds(run: AlignedRun, cell: Cell)
    requires TwoWay(run) && run.kind == cell.kind == Conflict && !cell.presence.base
    ensures var to := Plus(Reach(run.base.end, run.ours.end, run.theirs.end), cell.presence);
            var h := Heights(run.ours.Len(), run.theirs.Len());
            && Stretched(run, to).ours.Len() == run.ours.Len() + Bit(cell.presence.ours)
            && Stretched(run, to).theirs.Len() == run.theirs.Len() + Bit(cell.presence.theirs)
            && (h != Heights(0, 0) || cell.forced ==> (Folds(run, cell, to) <==> Joins(h, cell)))
  {
  }

  lemma OneRowHeights(at: Reach, cell: Cell)
    ensures OneRow(at, cell).ours.Len() == Bit(cell.presence.ours)
    ensures OneRow(at, cell).theirs.Len() == Bit(cell.presence.theirs)
  {
  }

  lemma AddRowHeights(runs: seq<AlignedRun>, cell: Cell)
    requires (runs != [] ==> TwoWay(Last(runs))) && !cell.presence.base
    ensures HeightsOf(AddRow(runs, cell)) == NextHeights(HeightsOf(runs), cell)
  {
    hide AddRow, Folds, Joins, Span.Len, OneRow, Stretched;
    RowAdded(runs, cell);
    OneRowHeights(ReachOf(runs), cell);
    if EndsInConflict(runs) && cell.kind == Conflict {
      ConflictFolds(Last(runs), cell);
      FoldsUnlessNew(runs, cell);
    } else {
      OtherKindAdds(runs, cell);
    }
  }

  lemma FoldsUnlessNew(runs: seq<AlignedRun>, cell: Cell)
    requires runs != []
    ensures |AddRow(runs, cell)| == |runs| <==> Folds(Last(runs), cell, Plus(ReachOf(runs), cell.presence))
  {
    hide Folds;
  }

  lemma OtherKindAdds(runs: seq<AlignedRun>, cell: Cell)
    requires runs == [] || Last(runs).kind != cell.kind || cell.kind != Conflict
    ensures runs == [] || Last(runs).kind != cell.kind ==> |AddRow(runs, cell)| > |runs|
  {
    hide AlignedRun.VisualRows, AlignedRun.FullSides;
  }

  lemma {:induction false} NoBase(cells: seq<Cell>)
    requires forall i :: 0 <= i < |cells| ==> !cells[i].presence.base
    ensures Present(cells).base == 0
    ensures RunsOf(cells) != [] ==> TwoWay(Last(RunsOf(cells)))
  {
    hide RunsOf;
    RunsConserveRows(cells);
    if cells != [] {
      NoBase(cells[..|cells| - 1]);
    }
  }

  /** The heights counted row by row are those of the runs. */
  lemma {:induction false} HeightsAreOfRuns(cells: seq<Cell>, n: nat)
    requires n <= |cells| && forall i :: 0 <= i < n ==> !cells[i].presence.base
    ensures ConflictHeights(cells[..n]) == HeightsOf(RunsOf(cells[..n]))
  {
    hide RunsOf, AddRow, NextHeights, TwoWay;
    if n == 0 {
      NoRuns(cells);
    } else {
      hide ConflictHeights, HeightsOf;
      HeightsAreOfRuns(cells, n - 1);
      HeightsNext(cells, n - 1);
      RunsOfNext(cells, n - 1);
      NoBase(cells[..n - 1]);
      AddRowHeights(RunsOf(cells[..n - 1]), cells[n - 1]);
    }
  }

  /** The rows of a block are all shown by one run. */
  ghost predicate KeptWhole(cells: seq<Cell>, lo: nat, hi: nat)
    requires hi <= |cells|
  {
    forall i: nat, j: nat :: lo <= i < hi && lo <= j < hi ==> RunAt(cells, i) == RunAt(cells, j)
  }

  /** A row of a forced block in a plan with two inputs. */
  predicate ForcedRow(cell: Cell) {
    cell.forced && cell.kind == Conflict && !cell.presence.base && cell.presence.Any()
  }

  /** After a conflict row a forced row starts a new run exactly when it tears. */
  lemma ForcedRowRun(cells: seq<Cell>, i: nat)
    requires 0 < i < |cells| && forall j :: 0 <= j <= i ==> !cells[j].presence.base
    requires cells[i - 1].kind == Conflict && ForcedRow(cells[i])
    ensures RunAt(cells, i) == RunAt(cells, i - 1) + if TearsAt(cells, i) then 1 else 0
  {
    hide RunsOf, AddRow, Folds, ConflictHeights, Span.Len, Tears, Stretched, OneRow;
    var runs := RunsOf(cells[..i]);
    RunsOfNext(cells, i - 1);
    RowAdded(RunsOf(cells[..i - 1]), cells[i - 1]);
    NoBase(cells[..i]);
    HeightsAreOfRuns(cells, i);
    ConflictFolds(Last(runs), cells[i]);
    RunsOfNext(cells, i);
    RowAdded(runs, cells[i]);
    FoldsUnlessNew(runs, cells[i]);
  }

  /** How many rows after the first tear the block. */
  ghost function TimesTorn(cells: seq<Cell>, lo: nat, hi: nat): nat
    requires lo < hi <= |cells|
  {
    if hi == lo + 1 then 0 else TimesTorn(cells, lo, hi - 1) + if TearsAt(cells, hi - 1) then 1 else 0
  }

  /** So many runs more than one show a forced block of a plan with two inputs. */
  lemma {:induction false} ForcedBlockRuns(cells: seq<Cell>, lo: nat, hi: nat)
    requires lo < hi <= |cells|
    requires forall i :: 0 <= i < hi ==> !cells[i].presence.base
    requires forall i :: lo <= i < hi ==> ForcedRow(cells[i])
    ensures RunAt(cells, hi - 1) == RunAt(cells, lo) + TimesTorn(cells, lo, hi)
    decreases hi
  {
    hide RunAt, TearsAt;
    if lo + 1 < hi {
      ForcedBlockRuns(cells, lo, hi - 1);
      ForcedRowRun(cells, hi - 1);
    }
  }

  lemma {:induction false} NeverTorn(cells: seq<Cell>, lo: nat, hi: nat)
    requires lo < hi <= |cells|
    ensures TimesTorn(cells, lo, hi) == 0 <==> forall i: nat :: lo < i < hi ==> !TearsAt(cells, i)
    decreases hi
  {
    hide TearsAt;
    if lo + 1 < hi {
      NeverTorn(cells, lo, hi - 1);
    }
  }

  lemma WholeByEnds(cells: seq<Cell>, lo: nat, hi: nat)
    requires lo < hi <= |cells|
    ensures KeptWhole(cells, lo, hi) <==> RunAt(cells, lo) == RunAt(cells, hi - 1)
  {
    hide RunAt;
    forall i: nat | lo <= i < hi
      ensures RunAt(cells, lo) <= RunAt(cells, i) <= RunAt(cells, hi - 1)
    {
      RunAtGrows(cells, lo, i);
      RunAtGrows(cells, i, hi - 1);
    }
  }

  /** A forced block of a plan with two inputs is kept whole if and only if no row after its first is
      present only on the side that is strictly lower by then. */
  lemma ForcedBlockKeptWhole(cells: seq<Cell>, lo: nat, hi: nat)
    requires lo < hi <= |cells|
    requires forall i :: 0 <= i < hi ==> !cells[i].presence.base
    requires forall i :: lo <= i < hi ==> ForcedRow(cells[i])
    ensures KeptWhole(cells, lo, hi) <==> forall i: nat :: lo < i < hi ==> !TearsAt(cells, i)
  {
    hide RunAt, TearsAt, KeptWhole, TimesTorn;
    ForcedBlockRuns(cells, lo, hi);
    NeverTorn(cells, lo, hi);
    WholeByEnds(cells, lo, hi);
  }

  /** In particular, one whose replaced rows come first is kept whole if and only if no one-sided row
      follows, or the side of those rows is not the lower one of a conflict before the block. */
  lemma ReplacedFirstKeptWhole(cells: seq<Cell>, lo: nat, mid: nat, hi: nat, longer: Presence)
    requires lo < mid <= hi <= |cells|
    requires longer == Presence(false, true, false) || longer == Presence(false, false, true)
    requires forall i :: 0 <= i < lo ==> !cells[i].presence.base
    requires forall i :: lo <= i < hi ==> InBlock(cells, i, mid, longer)
    ensures KeptWhole(cells, lo, hi) <==> mid == hi || !Tears(ConflictHeights(cells[..lo]), longer)
  {
    hide KeptWhole, ConflictHeights;
    assert forall i :: lo <= i < hi ==> InBlock(cells, i, mid, longer);
    forall i | lo <= i < hi
      ensures ForcedRow(cells[i]) && !cells[i].presence.base
    {
      BlockCell(cells, i, mid, longer);
    }
    ForcedBlockKeptWhole(cells, lo, hi);
    forall i: nat | lo < i < hi && (i <= mid || !Tears(ConflictHeights(cells[..lo]), longer))
      ensures TearsAt(cells, i) <==> i >= mid && Tears(ConflictHeights(cells[..lo]), longer)
    {
      BlockCell(cells, i, mid, longer);
      BlockHeights(cells, lo, mid, i, longer);
    }
    assert mid < hi ==> (TearsAt(cells, mid) <==> Tears(ConflictHeights(cells[..lo]), longer));
  }

  lemma {:induction false} BlockHeights(cells: seq<Cell>, lo: nat, mid: nat, i: nat, longer: Presence)
    requires lo < mid && lo <= i <= |cells|
    requires longer == Presence(false, true, false) || longer == Presence(false, false, true)
    requires forall k :: lo <= k < i ==> InBlock(cells, k, mid, longer)
    requires i <= mid || !Tears(ConflictHeights(cells[..lo]), longer)
    ensures ConflictHeights(cells[..i]) == HigherBy(ConflictHeights(cells[..lo]), i - lo, mid - lo, longer)
    decreases i
  {
    hide ConflictHeights, NextHeights, Tears, InBlock;
    if lo < i {
      BlockCell(cells, i - 1, mid, longer);
      BlockHeights(cells, lo, mid, i - 1, longer);
      HeightsNext(cells, i - 1);
      BlockRowJoins(ConflictHeights(cells[..lo]), i - 1 - lo, mid - lo, longer, cells[i - 1]);
    }
  }

  /** `n` rows of a block raise a conflict: the first `both` of them on both sides. */
  function HigherBy(h: Heights, n: nat, both: nat, longer: Presence): Heights {
    var common, more := if n < both then n else both, if n < both then 0 else n - both;
    Heights(h.ours + common + (if longer.ours then more else 0),
            h.theirs + common + (if longer.theirs then more else 0))
  }

  lemma BlockRowJoins(h: Heights, n: nat, both: nat, longer: Presence, cell: Cell)
    requires longer == Presence(false, true, false) || longer == Presence(false, false, true)
    requires cell.forced && cell.kind == Conflict
    requires cell.presence == if n < both then Presence(false, true, true) else longer
    requires n < both || !Tears(h, longer)
    ensures NextHeights(HigherBy(h, n, both, longer), cell) == HigherBy(h, n + 1, both, longer)
  {
    var higher := HigherBy(h, n, both, longer);
    assert !Tears(higher, cell.presence);
    JoinedHeights(higher, cell);
    hide Tears, NextHeights;
  }

  lemma JoinedHeights(h: Heights, cell: Cell)
    requires cell.kind == Conflict && cell.forced && cell.presence.Any() && !Tears(h, cell.presence)
    ensures NextHeights(h, cell) == Raised(h, cell.presence)
  {
    hide Tears, Raised;
  }

  // ----- in the plan's own terms -----

  lemma PlanCellIs(rows: seq<AlignedRow>, blocks: seq<Block>, b: Block, i: nat)
    requires b in blocks && Forces(rows, b) && b.rows.start <= i < b.rows.end && i < |rows|
    ensures PlanCells(rows, blocks, false)[i] == Cell(Presence(false, rows[i].a.Some?, rows[i].b.Some?), Conflict, true)
  {
    hide Forces;
    assert ForcedBy(rows, blocks, i);
  }

  /** The rows of a plan with two inputs all show a line of one of them. */
  predicate RowsShow(rows: seq<AlignedRow>) {
    forall i :: 0 <= i < |rows| ==> rows[i].a.Some? || rows[i].b.Some?
  }

  /** So it is decided from the rows which of a plan's forced blocks stay whole. */
  lemma PlanBlockKeptWhole(rows: seq<AlignedRow>, blocks: seq<Block>, b: Block)
    requires RowsShow(rows) && b in blocks && Forces(rows, b) && b.rows.start < b.rows.end <= |rows|
    ensures var cells := PlanCells(rows, blocks, false);
            KeptWhole(cells, b.rows.start, b.rows.end) <==>
            forall i: nat :: b.rows.start < i < b.rows.end ==> !TearsAt(cells, i)
  {
    var cells := PlanCells(rows, blocks, false);
    assert forall i :: 0 <= i < |rows| ==> !cells[i].presence.base;
    hide Forces, PlanCells, KeptWhole, TearsAt;
    forall i | b.rows.start <= i < b.rows.end
      ensures ForcedRow(cells[i])
    {
      PlanCellIs(rows, blocks, b, i);
    }
    ForcedBlockKeptWhole(cells, b.rows.start, b.rows.end);
  }

  /** And which of its pairs of lines are level: those that no one-sided row precedes in their run. */
  lemma PlanPairLevel(rows: seq<AlignedRow>, blocks: seq<Block>, i: nat)
    requires RowsShow(rows) && i < |rows| && rows[i].a.Some? && rows[i].b.Some?
    ensures var cells := PlanCells(rows, blocks, false);
            Level(cells, i) <==>
            forall j: nat :: j < i && RunAt(cells, j) == RunAt(cells, i) ==> Both(cells[j].presence)
  {
    hide Level, RunAt, ForcedBy;
    PairLevel(PlanCells(rows, blocks, false), i);
  }

  // ----- plans that show it -----

  /** A row of a two-input plan whose lines, if both are there, differ. */
  function Differing(a: Option<nat>, b: Option<nat>): AlignedRow {
    AlignedRow(a, b, None, false, false, false)
  }

  lemma PlanCellCount(rows: seq<AlignedRow>, blocks: seq<Block>)
    ensures |PlanCells(rows, blocks, false)| == |rows|
  {
  }

  /** The cell of such a row in a forced block. */
  function ForcedCell(ours: bool, theirs: bool): Cell {
    Cell(Presence(false, ours, theirs), Conflict, true)
  }

  lemma NoHeights(cells: seq<Cell>)
    ensures ConflictHeights(cells[..0]) == Heights(0, 0)
  {
  }

  /** Three lines of ours and three of theirs, our third pinned to their second and third: one block of
      four rows at the start of the plan, and it is torn apart. */
  lemma PinnedBlockIsTorn()
    ensures var rows := [Differing(Some(0), Some(0)), Differing(Some(1), None),
                         Differing(Some(2), Some(1)), Differing(None, Some(2))];
            var block := Block(Span(0, 4), true);
            Forces(rows, block) && !KeptWhole(PlanCells(rows, [block], false), 0, 4)
  {
    hide RunAt, KeptWhole, ConflictHeights, ForcedBy, PlanCells;
    var rows := [Differing(Some(0), Some(0)), Differing(Some(1), None),
                 Differing(Some(2), Some(1)), Differing(None, Some(2))];
    var block := Block(Span(0, 4), true);
    assert Replaces(rows[0]);
    var cells := PlanCells(rows, [block], false);
    PlanCellCount(rows, [block]);
    hide Forces;
    PlanCellIs(rows, [block], block, 0);
    PlanCellIs(rows, [block], block, 1);
    PlanCellIs(rows, [block], block, 2);
    PlanCellIs(rows, [block], block, 3);
    NoHeights(cells);
    HeightsNext(cells, 0);
    HeightsNext(cells, 1);
    HeightsNext(cells, 2);
    assert TearsAt(cells, 3);
    PlanBlockKeptWhole(rows, [block], block);
  }

  /** Ours `a`, `b`, `  m`, `c` against theirs `x`, `m`, `y`, `z`. */
  function NeighbourRows(): seq<AlignedRow> {
    [Differing(Some(0), Some(0)), Differing(Some(1), None), Differing(Some(2), Some(1)),
     Differing(Some(3), Some(2)), Differing(None, Some(3))]
  }

  /** The same with their third line pinned before our fourth. */
  function PinnedRows(): seq<AlignedRow> {
    [Differing(Some(0), Some(0)), Differing(Some(1), None), Differing(Some(2), Some(1)),
     Differing(None, Some(2)), Differing(Some(3), Some(3))]
  }

  /** The lines equal but for white space make a block between two others. */
  function ThreeBlocks(): seq<Block> {
    [Block(Span(0, 2), true), Block(Span(2, 3), true), Block(Span(3, 5), true)]
  }

  /** All three blocks replace something, so all five rows are forced. */
  lemma ThreeBlocksForce(rows: seq<AlignedRow>)
    requires |rows| == 5 && Replaces(rows[0]) && Replaces(rows[2]) && (Replaces(rows[3]) || Replaces(rows[4]))
    ensures forall k :: 0 <= k < 3 ==> Forces(rows, ThreeBlocks()[k])
    ensures |PlanCells(rows, ThreeBlocks(), false)| == 5
    ensures forall i :: 0 <= i < 5 ==>
              PlanCells(rows, ThreeBlocks(), false)[i] == ForcedCell(rows[i].a.Some?, rows[i].b.Some?)
  {
    hide PlanCells, Replaces;
    var blocks := ThreeBlocks();
    PlanCellCount(rows, blocks);
    forall i | 0 <= i < 5
      ensures PlanCells(rows, blocks, false)[i] == ForcedCell(rows[i].a.Some?, rows[i].b.Some?)
    {
      PlanCellIs(rows, blocks, blocks[if i < 2 then 0 else if i < 3 then 1 else 2], i);
    }
  }

  /** The first three rows make a conflict that is higher on our side. */
  lemma HigherOurs(cells: seq<Cell>)
    requires |cells| == 5 && cells[0] == cells[2] == ForcedCell(true, true) && cells[1] == ForcedCell(true, false)
    ensures ConflictHeights(cells[..1]) == Heights(1, 1) && ConflictHeights(cells[..2]) == Heights(2, 1)
    ensures ConflictHeights(cells[..3]) == Heights(3, 2)
  {
    hide ConflictHeights, NextHeights;
    NoHeights(cells);
    HeightsNext(cells, 0);
    JoinedHeights(Heights(0, 0), cells[0]);
    HeightsNext(cells, 1);
    JoinedHeights(Heights(1, 1), cells[1]);
    HeightsNext(cells, 2);
    JoinedHeights(Heights(2, 1), cells[2]);
  }

  /** And one run shows them. */
  lemma ThreeTogether(cells: seq<Cell>)
    requires |cells| == 5 && cells[0] == cells[2] == ForcedCell(true, true) && cells[1] == ForcedCell(true, false)
    ensures RunAt(cells, 0) == RunAt(cells, 1) == RunAt(cells, 2)
  {
    hide RunAt, ConflictHeights;
    HigherOurs(cells);
    ForcedRowRun(cells, 1);
    ForcedRowRun(cells, 2);
  }

  /** The last block runs on from a conflict that is higher on our side, and is torn apart. */
  lemma NeighbourIsTorn()
    ensures Forces(NeighbourRows(), ThreeBlocks()[2])
    ensures !KeptWhole(PlanCells(NeighbourRows(), ThreeBlocks(), false), 3, 5)
  {
    hide RunAt, KeptWhole, ConflictHeights, PlanCells, Forces;
    var rows, blocks := NeighbourRows(), ThreeBlocks();
    var cells := PlanCells(rows, blocks, false);
    ThreeBlocksForce(rows);
    HigherOurs(cells);
    HeightsNext(cells, 3);
    assert TearsAt(cells, 4);
    PlanBlockKeptWhole(rows, blocks, blocks[2]);
  }

  /** The last block begins on the lower side of that conflict: it starts a run of its own, in which it
      is kept whole. */
  lemma PinnedNeighbourIsWhole()
    ensures Forces(PinnedRows(), ThreeBlocks()[2])
    ensures var cells := PlanCells(PinnedRows(), ThreeBlocks(), false);
            KeptWhole(cells, 3, 5) && RunAt(cells, 3) == RunAt(cells, 2) + 1
  {
    hide RunAt, KeptWhole, TearsAt, PlanCells, Forces;
    var rows, blocks := PinnedRows(), ThreeBlocks();
    var cells := PlanCells(rows, blocks, false);
    ThreeBlocksForce(rows);
    LowerFirst(cells);
    ForcedRowRun(cells, 3);
    PlanBlockKeptWhole(rows, blocks, blocks[2]);
  }

  lemma LowerFirst(cells: seq<Cell>)
    requires |cells| == 5 && cells[0] == cells[2] == cells[4] == ForcedCell(true, true)
    requires cells[1] == ForcedCell(true, false) && cells[3] == ForcedCell(false, true)
    ensures TearsAt(cells, 3) && !TearsAt(cells, 4)
  {
    hide RunAt, ConflictHeights;
    HigherOurs(cells);
  }

  /** The lines equal but for white space are not level: a line of ours alone stands above them. */
  lemma NeighbourIsNotLevel()
    ensures !Level(PlanCells(NeighbourRows(), ThreeBlocks(), false), 2)
  {
    hide RunAt, Level, ConflictHeights, PlanCells;
    var rows, blocks := NeighbourRows(), ThreeBlocks();
    var cells := PlanCells(rows, blocks, false);
    ThreeBlocksForce(rows);
    ThreeTogether(cells);
    PlanPairLevel(rows, blocks, 2);
    assert !Both(cells[1].presence);
  }
}
