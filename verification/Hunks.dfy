/** Base-relative change hunks: made from an edit script, applied to rebuild the new side. */
module Hunks {
  import opened EditScripts

  /** Replace base lines `baseStart..baseEnd` by `newLines`. */
  datatype Hunk<H> = Hunk(baseStart: nat, baseEnd: nat, newLines: seq<H>)

  function Min(x: nat, y: nat): nat {
    if x <= y then x else y
  }

  function Max(x: nat, y: nat): nat {
    if x <= y then y else x
  }

  ghost function Mapped<L, H>(lines: seq<L>, f: L -> H): seq<H> {
    seq(|lines|, i requires 0 <= i < |lines| => f(lines[i]))
  }

  // ----- rebuilding -----

  /** What applying `hunks` to base lines `pos..end` yields. */
  ghost function Applied<L, H>(base: seq<L>, pos: nat, end: nat, hunks: seq<Hunk<H>>, mapBase: L -> H): seq<H>
    requires pos <= end <= |base|
    decreases |hunks|
  {
    if hunks == [] then Mapped(base[pos..end], mapBase)
    else
      var h := hunks[0];
      Mapped(base[pos..Max(Min(h.baseStart, end), pos)], mapBase)
      + h.newLines
      + Applied(base, Max(Min(h.baseEnd, end), pos), end, hunks[1..], mapBase)
  }

  method PushBaseLines<L, H>(output0: seq<H>, base: seq<L>, from: nat, to: nat, mapBase: L -> H)
    returns (output: seq<H>)
    requires from <= to <= |base|
    ensures output == output0 + Mapped(base[from..to], mapBase)
  {
    output := output0;
    for i := from to to
      invariant output == output0 + Mapped(base[from..i], mapBase)
    {
      assert base[from..i + 1] == base[from..i] + [base[i]];
      assert Mapped(base[from..i + 1], mapBase) == Mapped(base[from..i], mapBase) + [mapBase(base[i])];
      output := output + [mapBase(base[i])];
    }
  }

  /** Copy base lines up to each hunk, the hunk's lines, and the base lines after the last one. */
  method ReconstructSide<L, H>(base: seq<L>, rangeStart: nat, rangeEnd: nat, hunks: seq<Hunk<H>>, output0: seq<H>,
                               mapBase: L -> H)
    returns (output: seq<H>)
    ensures var end := Min(rangeEnd, |base|);
            output == output0 + Applied(base, Min(rangeStart, end), end, hunks, mapBase)
  {
    var end := Min(rangeEnd, |base|);
    var pos := Min(rangeStart, end);
    ghost var start := pos;
    output := output0;
    for k := 0 to |hunks|
      invariant pos <= end
      invariant output + Applied(base, pos, end, hunks[k..], mapBase)
                == output0 + Applied(base, start, end, hunks, mapBase)
    {
      var hunk := hunks[k];
      assert hunks[k..][0] == hunk && hunks[k..][1..] == hunks[k + 1..];
      ghost var before, pos0 := output, pos;
      var baseLimit := Max(Min(hunk.baseStart, end), pos);
      output := PushBaseLines(output, base, pos, baseLimit, mapBase);
      output := output + hunk.newLines;
      pos := Max(Min(hunk.baseEnd, end), pos);
      AppendAssoc(before, Mapped(base[pos0..baseLimit], mapBase), hunk.newLines,
                  Applied(base, pos, end, hunks[k + 1..], mapBase));
    }
    output := PushBaseLines(output, base, pos, end, mapBase);
  }

  lemma AppendAssoc<H>(a: seq<H>, b: seq<H>, c: seq<H>, d: seq<H>)
    ensures ((a + b) + c) + d == a + ((b + c) + d)
  {
  }

  // ----- making hunks -----

  /** What a script says the new side is, with base and inserted lines mapped separately. */
  ghost function Rendered<L, H>(edits: seq<Edit<L>>, mapInsert: L -> H, mapBase: L -> H): seq<H> {
    if edits == [] then []
    else
      (match edits[0]
       case Equal(x, _) => [mapBase(x)]
       case Delete(_) => []
       case Insert(y) => [mapInsert(y)])
      + Rendered(edits[1..], mapInsert, mapBase)
  }

  lemma {:induction false} RenderedConcat<L, H>(s: seq<Edit<L>>, t: seq<Edit<L>>, mapInsert: L -> H, mapBase: L -> H)
    ensures Rendered(s + t, mapInsert, mapBase) == Rendered(s, mapInsert, mapBase) + Rendered(t, mapInsert, mapBase)
  {
    if s == [] {
      assert s + t == t;
    } else {
      assert (s + t)[1..] == s[1..] + t;
      RenderedConcat(s[1..], t, mapInsert, mapBase);
    }
  }

  /** With one map for both kinds of lines a correct script renders the mapped new side. */
  lemma {:induction false} RenderedNewSide<L, H>(edits: seq<Edit<L>>, f: L -> H)
    requires PairsEqual(edits)
    ensures Rendered(edits, f, f) == Mapped(NewSide(edits), f)
  {
    if edits != [] {
      RenderedNewSide(edits[1..], f);
      assert Mapped(NewPart(edits[0]) + NewSide(edits[1..]), f)
             == Mapped(NewPart(edits[0]), f) + Mapped(NewSide(edits[1..]), f);
    }
  }

  /** Hunks lie in order within the first `end` base lines, each does something, and an untouched
      base line separates each from the next. */
  ghost predicate HunksOk<H>(hunks: seq<Hunk<H>>, end: nat) {
    && (forall k :: 0 <= k < |hunks| ==>
          && hunks[k].baseStart <= hunks[k].baseEnd <= end
          && (hunks[k].baseStart < hunks[k].baseEnd || hunks[k].newLines != []))
    && (forall k, l :: 0 <= k < l < |hunks| ==> hunks[k].baseEnd < hunks[l].baseStart)
  }

  /** Applying a hunk that lies inside the range. */
  lemma AppliedStep<L, H>(base: seq<L>, pos: nat, end: nat, hunks: seq<Hunk<H>>, mapBase: L -> H)
    requires pos <= end <= |base| && hunks != []
    requires pos <= hunks[0].baseStart <= hunks[0].baseEnd <= end
    ensures Applied(base, pos, end, hunks, mapBase)
         == Mapped(base[pos..hunks[0].baseStart], mapBase) + hunks[0].newLines
            + Applied(base, hunks[0].baseEnd, end, hunks[1..], mapBase)
  {
    hide Mapped;
  }

  lemma MappedConcat<L, H>(base: seq<L>, pos: nat, end: nat, end': nat, f: L -> H)
    requires pos <= end <= end' <= |base|
    ensures Mapped(base[pos..end'], f) == Mapped(base[pos..end], f) + Mapped(base[end..end'], f)
  {
  }

  lemma ConcatAssoc<H>(x: seq<H>, y: seq<H>, z: seq<H>)
    ensures x + (y + z) == (x + y) + z
  {
  }

  lemma AppliedNone<L, H>(base: seq<L>, pos: nat, end: nat, mapBase: L -> H)
    requires pos <= end <= |base|
    ensures Applied(base, pos, end, [], mapBase) == Mapped(base[pos..end], mapBase)
  {
  }

  /** Hunks that start at `pos` or later. */
  ghost predicate From<H>(hunks: seq<Hunk<H>>, pos: nat) {
    forall k :: 0 <= k < |hunks| ==> pos <= hunks[k].baseStart
  }

  lemma TailHunks<H>(hunks: seq<Hunk<H>>, pos: nat, end: nat)
    requires HunksOk(hunks, end) && From(hunks, pos) && hunks != []
    ensures HunksOk(hunks[1..], end) && From(hunks[1..], hunks[0].baseEnd)
    ensures pos <= hunks[0].baseStart <= hunks[0].baseEnd <= end
  {
  }

  /** More base lines after the last hunk are copied. */
  lemma {:induction false} AppliedMoreBase<L, H>(base: seq<L>, pos: nat, end: nat, end': nat, hunks: seq<Hunk<H>>,
                                                 mapBase: L -> H)
    requires pos <= end <= end' <= |base| && HunksOk(hunks, end) && From(hunks, pos)
    ensures Applied(base, pos, end', hunks, mapBase)
            == Applied(base, pos, end, hunks, mapBase) + Mapped(base[end..end'], mapBase)
    decreases |hunks|
  {
    hide *;
    if hunks == [] {
      AppliedNone(base, pos, end, mapBase);
      AppliedNone(base, pos, end', mapBase);
      MappedConcat(base, pos, end, end', mapBase);
    } else {
      var h := hunks[0];
      TailHunks(hunks, pos, end);
      AppliedMoreBase(base, h.baseEnd, end, end', hunks[1..], mapBase);
      AppliedStep(base, pos, end, hunks, mapBase);
      AppliedStep(base, pos, end', hunks, mapBase);
      ConcatAssoc(Mapped(base[pos..h.baseStart], mapBase) + h.newLines,
                  Applied(base, h.baseEnd, end, hunks[1..], mapBase), Mapped(base[end..end'], mapBase));
    }
  }

  lemma AppliedOne<L, H>(base: seq<L>, pos: nat, h: Hunk<H>, mapBase: L -> H)
    requires pos <= h.baseStart <= h.baseEnd <= |base|
    ensures Applied(base, pos, h.baseEnd, [h], mapBase) == Mapped(base[pos..h.baseStart], mapBase) + h.newLines
  {
    AppliedStep(base, pos, h.baseEnd, [h], mapBase);
    AppliedNone(base, h.baseEnd, h.baseEnd, mapBase);
    assert [h][1..] == [] && base[h.baseEnd..h.baseEnd] == [];
    hide Applied;
  }

  /** A hunk appended after the others replaces the base lines up to the new end. */
  lemma {:induction false} AppliedPush<L, H>(base: seq<L>, pos: nat, end: nat, end': nat, hunks: seq<Hunk<H>>,
                                             h: Hunk<H>, mapBase: L -> H)
    requires pos <= end <= end' <= |base| && h.baseStart == end && h.baseEnd == end'
    requires HunksOk(hunks, end) && From(hunks, pos)
    ensures Applied(base, pos, end', hunks + [h], mapBase) == Applied(base, pos, end, hunks, mapBase) + h.newLines
    decreases |hunks|
  {
    hide *;
    if hunks == [] {
      AppliedNone(base, pos, end, mapBase);
      AppliedOne(base, pos, h, mapBase);
      assert hunks + [h] == [h];
    } else {
      var g := hunks[0];
      TailHunks(hunks, pos, end);
      assert (hunks + [h])[0] == g && (hunks + [h])[1..] == hunks[1..] + [h];
      AppliedPush(base, g.baseEnd, end, end', hunks[1..], h, mapBase);
      AppliedStep(base, pos, end, hunks, mapBase);
      AppliedStep(base, pos, end', hunks + [h], mapBase);
      ConcatAssoc(Mapped(base[pos..g.baseStart], mapBase) + g.newLines,
                  Applied(base, g.baseEnd, end, hunks[1..], mapBase), h.newLines);
    }
  }

  /** Hunks made from the first `i` edits, which consume the first `baseIx` base lines. */
  ghost predicate Made<L, H>(base: seq<L>, edits: seq<Edit<L>>, i: nat, baseIx: nat, hunks: seq<Hunk<H>>,
                             mapInsert: L -> H, mapBase: L -> H) {
    && i <= |edits| && baseIx <= |base| && OldSide(edits[i..]) == base[baseIx..]
    && HunksOk(hunks, baseIx)
    && Applied(base, 0, baseIx, hunks, mapBase) == Rendered(edits[..i], mapInsert, mapBase)
  }

  lemma MadeStart<L, H>(base: seq<L>, edits: seq<Edit<L>>, mapInsert: L -> H, mapBase: L -> H)
    requires OldSide(edits) == base
    ensures Made(base, edits, 0, 0, [], mapInsert, mapBase)
  {
    assert edits[0..] == edits && base[0..] == base && base[0..0] == [];
  }

  lemma OldStep<L>(base: seq<L>, edits: seq<Edit<L>>, i: nat, baseIx: nat)
    requires i < |edits| && baseIx <= |base| && OldSide(edits[i..]) == base[baseIx..]
    ensures edits[i].Insert? ==> OldSide(edits[i + 1..]) == base[baseIx..]
    ensures !edits[i].Insert? ==>
              baseIx < |base| && base[baseIx] == edits[i].oldLine && OldSide(edits[i + 1..]) == base[baseIx + 1..]
  {
    var rest := edits[i..];
    assert rest[0] == edits[i] && rest[1..] == edits[i + 1..];
    if !edits[i].Insert? {
      assert base[baseIx..] == [edits[i].oldLine] + OldSide(edits[i + 1..]);
      assert base[baseIx..][0] == base[baseIx] && base[baseIx..][1..] == base[baseIx + 1..];
    }
  }

  lemma RenderedStep<L, H>(edits: seq<Edit<L>>, i: nat, mapInsert: L -> H, mapBase: L -> H)
    requires i < |edits|
    ensures Rendered(edits[..i + 1], mapInsert, mapBase)
         == Rendered(edits[..i], mapInsert, mapBase)
            + match edits[i]
              case Equal(x, _) => [mapBase(x)]
              case Delete(_) => []
              case Insert(y) => [mapInsert(y)]
  {
    assert edits[..i + 1] == edits[..i] + [edits[i]];
    RenderedConcat(edits[..i], [edits[i]], mapInsert, mapBase);
    assert [edits[i]][1..] == [];
  }

  lemma MadeEqual<L, H>(base: seq<L>, edits: seq<Edit<L>>, i: nat, baseIx: nat, hunks: seq<Hunk<H>>, mapInsert: L -> H,
                        mapBase: L -> H)
    requires Made(base, edits, i, baseIx, hunks, mapInsert, mapBase) && i < |edits| && edits[i].Equal?
    ensures Made(base, edits, i + 1, baseIx + 1, hunks, mapInsert, mapBase)
  {
    OldStep(base, edits, i, baseIx);
    RenderedStep(edits, i, mapInsert, mapBase);
    AppliedMoreBase(base, 0, baseIx, baseIx + 1, hunks, mapBase);
    hide Applied, Rendered, OldSide;
    assert Mapped(base[baseIx..baseIx + 1], mapBase) == [mapBase(base[baseIx])];
  }

  /** The edits of one hunk: deletions and insertions from `i0` up to `i`. */
  ghost predicate Changing<L, H>(base: seq<L>, edits: seq<Edit<L>>, i0: nat, i: nat, baseIx0: nat, baseIx: nat,
                                 newLines: seq<H>, mapInsert: L -> H, mapBase: L -> H) {
    && i0 <= i <= |edits| && baseIx0 <= baseIx <= |base| && OldSide(edits[i..]) == base[baseIx..]
    && (i0 < i ==> baseIx0 < baseIx || newLines != [])
    && Rendered(edits[..i], mapInsert, mapBase) == Rendered(edits[..i0], mapInsert, mapBase) + newLines
  }

  lemma ChangingStep<L, H>(base: seq<L>, edits: seq<Edit<L>>, i0: nat, i: nat, baseIx0: nat, baseIx: nat,
                           newLines: seq<H>, mapInsert: L -> H, mapBase: L -> H)
    requires Changing(base, edits, i0, i, baseIx0, baseIx, newLines, mapInsert, mapBase) && i < |edits|
             && !edits[i].Equal?
    ensures edits[i].Delete? ==> Changing(base, edits, i0, i + 1, baseIx0, baseIx + 1, newLines, mapInsert, mapBase)
    ensures edits[i].Insert? ==>
              Changing(base, edits, i0, i + 1, baseIx0, baseIx, newLines + [mapInsert(edits[i].newLine)],
                       mapInsert, mapBase)
  {
    OldStep(base, edits, i, baseIx);
    RenderedStep(edits, i, mapInsert, mapBase);
    hide Rendered, OldSide;
  }

  lemma ChangingBounds<L, H>(base: seq<L>, edits: seq<Edit<L>>, i0: nat, i: nat, baseIx0: nat, baseIx: nat,
                             newLines: seq<H>, mapInsert: L -> H, mapBase: L -> H)
    requires Changing(base, edits, i0, i, baseIx0, baseIx, newLines, mapInsert, mapBase)
    ensures i <= |edits| && baseIx <= |base| && OldSide(edits[i..]) == base[baseIx..]
  {
  }

  lemma MadeHunk<L, H>(base: seq<L>, edits: seq<Edit<L>>, i0: nat, i: nat, baseIx0: nat, baseIx: nat,
                       hunks: seq<Hunk<H>>, newLines: seq<H>, mapInsert: L -> H, mapBase: L -> H)
    requires Made(base, edits, i0, baseIx0, hunks, mapInsert, mapBase) && i0 < i
    requires Changing(base, edits, i0, i, baseIx0, baseIx, newLines, mapInsert, mapBase)
    requires Separated(hunks, baseIx0)
    ensures Made(base, edits, i, baseIx, hunks + [Hunk(baseIx0, baseIx, newLines)], mapInsert, mapBase)
  {
    AppliedPush(base, 0, baseIx0, baseIx, hunks, Hunk(baseIx0, baseIx, newLines), mapBase);
    hide Applied, Rendered, OldSide;
    WiderHunks(hunks, baseIx0, Hunk(baseIx0, baseIx, newLines));
  }

  lemma WiderHunks<H>(hunks: seq<Hunk<H>>, end: nat, h: Hunk<H>)
    requires HunksOk(hunks, end) && Separated(hunks, end) && h.baseStart == end <= h.baseEnd
    requires h.baseStart < h.baseEnd || h.newLines != []
    ensures HunksOk(hunks + [h], h.baseEnd)
  {
    var hunks' := hunks + [h];
    forall k, l | 0 <= k < l < |hunks'|
      ensures hunks'[k].baseEnd < hunks'[l].baseStart
    {
      if l == |hunks| && k < |hunks| - 1 {
        assert hunks[k].baseEnd < hunks[|hunks| - 1].baseStart;
      }
    }
  }

  /** The last hunk ended before `baseIx`. */
  ghost predicate Separated<H>(hunks: seq<Hunk<H>>, baseIx: nat) {
    hunks == [] || hunks[|hunks| - 1].baseEnd < baseIx
  }

  // ----- hunks hold changes only -----

  ghost function Interval(lo: nat, hi: nat): set<nat>
    decreases hi
  {
    if hi <= lo then {} else Interval(lo, hi - 1) + {hi - 1}
  }

  lemma {:induction false} IntervalHolds(lo: nat, hi: nat, x: nat)
    ensures x in Interval(lo, hi) <==> lo <= x < hi
    decreases hi
  {
    if lo < hi {
      IntervalHolds(lo, hi - 1, x);
    }
  }

  /** The base lines that hunks replace. */
  ghost function HunkLines<H>(hunks: seq<Hunk<H>>): set<nat> {
    if hunks == [] then {}
    else HunkLines(hunks[..|hunks| - 1]) + Interval(hunks[|hunks| - 1].baseStart, hunks[|hunks| - 1].baseEnd)
  }

  /** How many lines they bring. */
  ghost function HunkAdds<H>(hunks: seq<Hunk<H>>): nat {
    if hunks == [] then 0 else HunkAdds(hunks[..|hunks| - 1]) + |hunks[|hunks| - 1].newLines|
  }

  /** The old lines a script deletes. */
  ghost function DeletedAt<L>(edits: seq<Edit<L>>): set<nat> {
    if edits == [] then {}
    else
      var front := edits[..|edits| - 1];
      DeletedAt(front) + if edits[|edits| - 1].Delete? then {|OldSide(front)|} else {}
  }

  ghost function Insertions<L>(edits: seq<Edit<L>>): nat {
    if edits == [] then 0
    else Insertions(edits[..|edits| - 1]) + if edits[|edits| - 1].Insert? then 1 else 0
  }

  lemma CountedPush<L>(edits: seq<Edit<L>>, e: Edit<L>)
    ensures DeletedAt(edits + [e]) == DeletedAt(edits) + if e.Delete? then {|OldSide(edits)|} else {}
    ensures Insertions(edits + [e]) == Insertions(edits) + if e.Insert? then 1 else 0
  {
    hide OldSide;
    assert (edits + [e])[..|edits|] == edits;
  }

  /** One more edit, at base line `baseIx`. */
  lemma CountedStep<L>(base: seq<L>, edits: seq<Edit<L>>, i: nat, baseIx: nat)
    requires OldSide(edits) == base && i < |edits| && baseIx <= |base| && OldSide(edits[i..]) == base[baseIx..]
    ensures DeletedAt(edits[..i + 1]) == DeletedAt(edits[..i]) + if edits[i].Delete? then {baseIx} else {}
    ensures Insertions(edits[..i + 1]) == Insertions(edits[..i]) + if edits[i].Insert? then 1 else 0
  {
    hide DeletedAt, Insertions, OldSide;
    assert edits[..i + 1] == edits[..i] + [edits[i]];
    CountedPush(edits[..i], edits[i]);
    assert edits == edits[..i] + edits[i..];
    SidesConcat(edits[..i], edits[i..]);
    assert |OldSide(edits[..i])| == baseIx;
  }

  /** The edits from `i0` up to `i` delete the base lines from `baseIx0` on and add `added` lines. */
  ghost predicate Counted<L>(edits: seq<Edit<L>>, i0: nat, i: nat, baseIx0: nat, baseIx: nat, added: nat) {
    && i0 <= i <= |edits| && baseIx0 <= baseIx
    && DeletedAt(edits[..i]) == DeletedAt(edits[..i0]) + Interval(baseIx0, baseIx)
    && Insertions(edits[..i]) == Insertions(edits[..i0]) + added
  }

  lemma CountedStart<L>(edits: seq<Edit<L>>, i: nat, baseIx: nat)
    requires i <= |edits|
    ensures Counted(edits, i, i, baseIx, baseIx, 0)
  {
  }

  lemma OneLonger(s: set<nat>, lo: nat, hi: nat)
    requires lo <= hi
    ensures s + Interval(lo, hi) + {hi} == s + Interval(lo, hi + 1)
  {
  }

  lemma CountedNext<L>(base: seq<L>, edits: seq<Edit<L>>, i0: nat, i: nat, baseIx0: nat, baseIx: nat, added: nat)
    requires OldSide(edits) == base && i < |edits| && baseIx <= |base| && OldSide(edits[i..]) == base[baseIx..]
    requires Counted(edits, i0, i, baseIx0, baseIx, added) && !edits[i].Equal?
    ensures edits[i].Delete? ==> Counted(edits, i0, i + 1, baseIx0, baseIx + 1, added)
    ensures edits[i].Insert? ==> Counted(edits, i0, i + 1, baseIx0, baseIx, added + 1)
  {
    hide DeletedAt, Insertions, OldSide, Interval;
    CountedStep(base, edits, i, baseIx);
    OneLonger(DeletedAt(edits[..i0]), baseIx0, baseIx);
  }

  /** The hunks so far replace exactly the lines deleted so far, and bring as many as were inserted. */
  ghost predicate ChangesOnly<L, H>(edits: seq<Edit<L>>, i: nat, hunks: seq<Hunk<H>>) {
    i <= |edits| && HunkLines(hunks) == DeletedAt(edits[..i]) && HunkAdds(hunks) == Insertions(edits[..i])
  }

  lemma ChangesStart<L, H>(edits: seq<Edit<L>>)
    ensures ChangesOnly<L, H>(edits, 0, [])
  {
  }

  lemma ChangesEqual<L, H>(base: seq<L>, edits: seq<Edit<L>>, i: nat, baseIx: nat, hunks: seq<Hunk<H>>,
                           mapInsert: L -> H, mapBase: L -> H)
    requires OldSide(edits) == base && Made(base, edits, i, baseIx, hunks, mapInsert, mapBase)
    requires ChangesOnly(edits, i, hunks) && i < |edits| && edits[i].Equal?
    ensures ChangesOnly(edits, i + 1, hunks)
  {
    hide HunksOk, Applied, Rendered, OldSide, DeletedAt, Insertions, HunkLines, HunkAdds;
    CountedStep(base, edits, i, baseIx);
  }

  lemma ChangesHunk<L, H>(edits: seq<Edit<L>>, i: nat, i': nat, hunks: seq<Hunk<H>>, h: Hunk<H>)
    requires ChangesOnly(edits, i, hunks) && Counted(edits, i, i', h.baseStart, h.baseEnd, |h.newLines|)
    ensures ChangesOnly(edits, i', hunks + [h])
  {
    hide DeletedAt, Insertions;
    assert (hunks + [h])[..|hunks|] == hunks;
  }

  lemma ChangesEnd<L, H>(edits: seq<Edit<L>>, hunks: seq<Hunk<H>>)
    requires ChangesOnly(edits, |edits|, hunks)
    ensures HunkLines(hunks) == DeletedAt(edits) && HunkAdds(hunks) == Insertions(edits)
  {
    hide HunkLines, HunkAdds, DeletedAt, Insertions;
    assert edits[..|edits|] == edits;
  }

  // ----- cutting the base between hunks -----

  /** The first `c` hunks end by base line `m` and the others start there or later: no hunk straddles it. */
  ghost predicate Cut<H>(hunks: seq<Hunk<H>>, c: nat, m: nat) {
    && c <= |hunks|
    && (forall k :: 0 <= k < c ==> hunks[k].baseEnd <= m)
    && (forall k :: c <= k < |hunks| ==> m <= hunks[k].baseStart)
  }

  /** The first `c` hunks give for the first `m` base lines what the first `i` edits render. */
  ghost predicate ReachedBy<L, H>(base: seq<L>, edits: seq<Edit<L>>, hunks: seq<Hunk<H>>, c: nat, m: nat, i: nat,
                                  mapInsert: L -> H, mapBase: L -> H) {
    && m <= |base| && c <= |hunks| && i <= |edits| && OldSide(edits[..i]) == base[..m]
    && Applied(base, 0, m, hunks[..c], mapBase) == Rendered(edits[..i], mapInsert, mapBase)
  }

  ghost predicate Reached<L, H>(base: seq<L>, edits: seq<Edit<L>>, hunks: seq<Hunk<H>>, c: nat, m: nat,
                                mapInsert: L -> H, mapBase: L -> H) {
    exists i: nat :: ReachedBy(base, edits, hunks, c, m, i, mapInsert, mapBase)
  }

  /** Cutting the base where no hunk straddles cuts the script in two as well. */
  ghost predicate Cuttable<L, H>(base: seq<L>, edits: seq<Edit<L>>, baseIx: nat, hunks: seq<Hunk<H>>,
                                 mapInsert: L -> H, mapBase: L -> H) {
    forall c: nat, m: nat :: m <= baseIx && Cut(hunks, c, m) ==> Reached(base, edits, hunks, c, m, mapInsert, mapBase)
  }

  /** Everything made so far is such a cut. */
  lemma MadeReaches<L, H>(base: seq<L>, edits: seq<Edit<L>>, i: nat, baseIx: nat, hunks: seq<Hunk<H>>,
                          mapInsert: L -> H, mapBase: L -> H)
    requires OldSide(edits) == base && Made(base, edits, i, baseIx, hunks, mapInsert, mapBase)
    ensures Reached(base, edits, hunks, |hunks|, baseIx, mapInsert, mapBase)
  {
    hide Applied, Rendered, OldSide, HunksOk;
    assert edits == edits[..i] + edits[i..] && hunks[..|hunks|] == hunks;
    SidesConcat(edits[..i], edits[i..]);
    assert base[..|base| - |base[baseIx..]|] == base[..baseIx];
    assert OldSide(edits[..i]) == base[..baseIx] by {
      SameFront(OldSide(edits[..i]), base[..baseIx], base[baseIx..]);
    }
    assert ReachedBy(base, edits, hunks, |hunks|, baseIx, i, mapInsert, mapBase);
  }

  lemma SameFront<T>(x: seq<T>, y: seq<T>, z: seq<T>)
    requires x + z == y + z
    ensures x == y
  {
    assert x == (x + z)[..|x|] && y == (y + z)[..|y|];
  }

  lemma CuttableStart<L, H>(base: seq<L>, edits: seq<Edit<L>>, mapInsert: L -> H, mapBase: L -> H)
    requires OldSide(edits) == base
    ensures Cuttable(base, edits, 0, [], mapInsert, mapBase)
  {
    MadeStart<L, H>(base, edits, mapInsert, mapBase);
    MadeReaches<L, H>(base, edits, 0, 0, [], mapInsert, mapBase);
    hide Reached;
  }

  lemma CuttableEqual<L, H>(base: seq<L>, edits: seq<Edit<L>>, i: nat, baseIx: nat, hunks: seq<Hunk<H>>,
                            mapInsert: L -> H, mapBase: L -> H)
    requires OldSide(edits) == base && Cuttable(base, edits, baseIx, hunks, mapInsert, mapBase)
    requires Made(base, edits, i, baseIx + 1, hunks, mapInsert, mapBase) && HunksOk(hunks, baseIx)
    ensures Cuttable(base, edits, baseIx + 1, hunks, mapInsert, mapBase)
  {
    MadeReaches(base, edits, i, baseIx + 1, hunks, mapInsert, mapBase);
    hide Reached, Made, OldSide;
    forall c: nat, m: nat | m <= baseIx + 1 && Cut(hunks, c, m)
      ensures Reached(base, edits, hunks, c, m, mapInsert, mapBase)
    {
      if c < |hunks| {
        CutWithin(hunks, baseIx, c, m);
      }
    }
  }

  lemma CutWithin<H>(hunks: seq<Hunk<H>>, end: nat, c: nat, m: nat)
    requires HunksOk(hunks, end) && Cut(hunks, c, m) && c < |hunks|
    ensures m <= end
  {
    assert m <= hunks[c].baseStart <= hunks[c].baseEnd;
  }

  lemma CuttableHunk<L, H>(base: seq<L>, edits: seq<Edit<L>>, i: nat, baseIx0: nat, baseIx: nat, hunks: seq<Hunk<H>>,
                           h: Hunk<H>, mapInsert: L -> H, mapBase: L -> H)
    requires OldSide(edits) == base && Cuttable(base, edits, baseIx0, hunks, mapInsert, mapBase)
    requires h.baseStart == baseIx0 && h.baseEnd == baseIx
             && Made(base, edits, i, baseIx, hunks + [h], mapInsert, mapBase)
    ensures Cuttable(base, edits, baseIx, hunks + [h], mapInsert, mapBase)
  {
    MadeReaches(base, edits, i, baseIx, hunks + [h], mapInsert, mapBase);
    hide Reached, Made, OldSide;
    forall c: nat, m: nat | m <= baseIx && Cut(hunks + [h], c, m)
      ensures Reached(base, edits, hunks + [h], c, m, mapInsert, mapBase)
    {
      if c <= |hunks| {
        CutBefore(hunks, h, c, m);
        ReachedBefore(base, edits, hunks, h, c, m, mapInsert, mapBase);
      } else {
        assert (hunks + [h])[c - 1].baseEnd <= m;
      }
    }
  }

  lemma CutBefore<H>(hunks: seq<Hunk<H>>, h: Hunk<H>, c: nat, m: nat)
    requires Cut(hunks + [h], c, m) && c <= |hunks|
    ensures Cut(hunks, c, m) && m <= h.baseStart
  {
    var longer := hunks + [h];
    assert longer[|hunks|] == h;
    assert forall k :: 0 <= k < |hunks| ==> hunks[k] == longer[k];
  }

  lemma ReachedBefore<L, H>(base: seq<L>, edits: seq<Edit<L>>, hunks: seq<Hunk<H>>, h: Hunk<H>, c: nat, m: nat,
                            mapInsert: L -> H, mapBase: L -> H)
    requires Reached(base, edits, hunks, c, m, mapInsert, mapBase)
    ensures Reached(base, edits, hunks + [h], c, m, mapInsert, mapBase)
  {
    hide Applied, Rendered, OldSide;
    var i: nat :| ReachedBy(base, edits, hunks, c, m, i, mapInsert, mapBase);
    assert (hunks + [h])[..c] == hunks[..c];
    assert ReachedBy(base, edits, hunks + [h], c, m, i, mapInsert, mapBase);
  }

  lemma AppliedLater<L, H>(base: seq<L>, lo: nat, m: nat, hi: nat, hunks: seq<Hunk<H>>, mapBase: L -> H)
    requires lo <= m <= hi <= |base| && HunksOk(hunks, hi) && From(hunks, m)
    ensures Applied(base, lo, hi, hunks, mapBase) == Mapped(base[lo..m], mapBase) + Applied(base, m, hi, hunks, mapBase)
  {
    hide *;
    if hunks == [] {
      AppliedNone(base, lo, hi, mapBase);
      AppliedNone(base, m, hi, mapBase);
      MappedConcat(base, lo, m, hi, mapBase);
    } else {
      TailHunks(hunks, m, hi);
      var h := hunks[0];
      AppliedStep(base, lo, hi, hunks, mapBase);
      AppliedStep(base, m, hi, hunks, mapBase);
      MappedConcat(base, lo, m, h.baseStart, mapBase);
      JoinFour(Mapped(base[lo..m], mapBase), Mapped(base[m..h.baseStart], mapBase), h.newLines,
               Applied(base, h.baseEnd, hi, hunks[1..], mapBase));
    }
  }

  lemma JoinFour<H>(w: seq<H>, x: seq<H>, y: seq<H>, z: seq<H>)
    ensures ((w + x) + y) + z == w + ((x + y) + z)
  {
  }

  /** Adjacent parts concatenate: the hunks before a cut applied before it, and those after it after it. */
  lemma {:induction false} AppliedSplit<L, H>(base: seq<L>, lo: nat, m: nat, hi: nat, before: seq<Hunk<H>>,
                                              after: seq<Hunk<H>>, mapBase: L -> H)
    requires lo <= m <= hi <= |base| && HunksOk(before, m) && From(before, lo) && HunksOk(after, hi) && From(after, m)
    ensures Applied(base, lo, hi, before + after, mapBase)
         == Applied(base, lo, m, before, mapBase) + Applied(base, m, hi, after, mapBase)
    decreases |before|
  {
    hide *;
    if before == [] {
      assert before + after == after;
      AppliedNone(base, lo, m, mapBase);
      AppliedLater(base, lo, m, hi, after, mapBase);
    } else {
      var h := before[0];
      TailHunks(before, lo, m);
      assert (before + after)[0] == h && (before + after)[1..] == before[1..] + after;
      AppliedSplit(base, h.baseEnd, m, hi, before[1..], after, mapBase);
      AppliedStep(base, lo, m, before, mapBase);
      AppliedStep(base, lo, hi, before + after, mapBase);
      ConcatAssoc(Mapped(base[lo..h.baseStart], mapBase) + h.newLines,
                  Applied(base, h.baseEnd, m, before[1..], mapBase), Applied(base, m, hi, after, mapBase));
    }
  }

  /** Between two cuts lie hunks of their own. */
  lemma CutHunks<H>(hunks: seq<Hunk<H>>, end: nat, c: nat, lo: nat, c': nat, hi: nat)
    requires HunksOk(hunks, end) && Cut(hunks, c, lo) && Cut(hunks, c', hi) && c <= c' && lo <= hi <= end
    ensures HunksOk(hunks[..c], lo) && From(hunks[..c], 0)
    ensures HunksOk(hunks[c..c'], hi) && From(hunks[c..c'], lo)
    ensures hunks[..c'] == hunks[..c] + hunks[c..c']
  {
    var first, inner := hunks[..c], hunks[c..c'];
    assert forall k :: 0 <= k < c ==> first[k] == hunks[k];
    assert forall k :: 0 <= k < c' - c ==> inner[k] == hunks[c + k];
  }

  /** The edits `i..i'` replace base lines `lo..hi`, and render as `part`. */
  ghost predicate PartOf<L, H>(base: seq<L>, edits: seq<Edit<L>>, lo: nat, hi: nat, i: nat, i': nat, part: seq<H>,
                               mapInsert: L -> H, mapBase: L -> H) {
    && lo <= hi <= |base| && i <= i' <= |edits|
    && OldSide(edits[..i]) == base[..lo] && OldSide(edits[i..i']) == base[lo..hi]
    && part == Rendered(edits[i..i'], mapInsert, mapBase)
  }

  lemma PartBetween<L, H>(base: seq<L>, edits: seq<Edit<L>>, lo: nat, hi: nat, i: nat, i': nat, part: seq<H>,
                          mapInsert: L -> H, mapBase: L -> H)
    requires lo <= hi <= |base| && i <= i' <= |edits|
    requires OldSide(edits[..i]) == base[..lo] && OldSide(edits[..i']) == base[..hi]
    requires Rendered(edits[..i'], mapInsert, mapBase) == Rendered(edits[..i], mapInsert, mapBase) + part
    ensures PartOf(base, edits, lo, hi, i, i', part, mapInsert, mapBase)
  {
    hide OldSide, Rendered;
    assert edits[..i'] == edits[..i] + edits[i..i'];
    SidesConcat(edits[..i], edits[i..i']);
    RenderedConcat(edits[..i], edits[i..i'], mapInsert, mapBase);
    assert base[..hi] == base[..lo] + base[lo..hi];
    SameBack(base[..lo], OldSide(edits[i..i']), base[lo..hi]);
    SameBack(Rendered(edits[..i], mapInsert, mapBase), Rendered(edits[i..i'], mapInsert, mapBase), part);
  }

  lemma SameBack<T>(x: seq<T>, y: seq<T>, z: seq<T>)
    requires x + y == x + z
    ensures y == z
  {
    assert y == (x + y)[|x|..] && z == (x + z)[|x|..];
  }

  /** Where the later cut is reached by fewer edits the two parts of the script are the same. */
  lemma NothingBetween<L, H>(base: seq<L>, edits: seq<Edit<L>>, lo: nat, hi: nat, i: nat, i': nat, part: seq<H>,
                             mapInsert: L -> H, mapBase: L -> H)
    requires lo <= hi <= |base| && i' < i <= |edits|
    requires OldSide(edits[..i]) == base[..lo] && OldSide(edits[..i']) == base[..hi]
    requires Rendered(edits[..i'], mapInsert, mapBase) == Rendered(edits[..i], mapInsert, mapBase) + part
    ensures lo == hi && part == []
  {
    hide OldSide, Rendered;
    assert edits[..i] == edits[..i'] + edits[i'..i];
    SidesConcat(edits[..i'], edits[i'..i]);
    RenderedConcat(edits[..i'], edits[i'..i], mapInsert, mapBase);
    assert |base[..lo]| == lo && |base[..hi]| == hi;
  }

  /** Applying the hunks inside a base range that no hunk straddles gives what the script makes of
      exactly those base lines. */
  lemma PartRendered<L, H>(base: seq<L>, edits: seq<Edit<L>>, hunks: seq<Hunk<H>>, c: nat, lo: nat, c': nat, hi: nat,
                           mapInsert: L -> H, mapBase: L -> H)
    requires HunksOk(hunks, |base|) && Cuttable(base, edits, |base|, hunks, mapInsert, mapBase)
    requires Cut(hunks, c, lo) && Cut(hunks, c', hi) && c <= c' && lo <= hi <= |base|
    ensures exists i: nat, i': nat ::
              PartOf(base, edits, lo, hi, i, i', Applied(base, lo, hi, hunks[c..c'], mapBase), mapInsert, mapBase)
  {
    CutHunks(hunks, |base|, c, lo, c', hi);
    var i: nat :| ReachedBy(base, edits, hunks, c, lo, i, mapInsert, mapBase);
    assert Reached(base, edits, hunks, c', hi, mapInsert, mapBase);
    var i': nat :| ReachedBy(base, edits, hunks, c', hi, i', mapInsert, mapBase);
    hide Applied, Rendered, OldSide, HunksOk, Cut, Cuttable, From, PartOf;
    AppliedSplit(base, 0, lo, hi, hunks[..c], hunks[c..c'], mapBase);
    var part := Applied(base, lo, hi, hunks[c..c'], mapBase);
    if i <= i' {
      PartBetween(base, edits, lo, hi, i, i', part, mapInsert, mapBase);
    } else {
      NothingBetween(base, edits, lo, hi, i, i', part, mapInsert, mapBase);
      assert Rendered(edits[..i], mapInsert, mapBase) + part == Rendered(edits[..i], mapInsert, mapBase);
      PartBetween(base, edits, lo, hi, i, i, part, mapInsert, mapBase);
    }
  }

  /** For a correct script and one map that is the new side of those base lines. */
  lemma PartOfNewSide<L, H>(base: seq<L>, newLines: seq<L>, edits: seq<Edit<L>>, hunks: seq<Hunk<H>>, c: nat, lo: nat,
                            c': nat, hi: nat, f: L -> H)
    requires ValidScript(edits, base, newLines)
    requires HunksOk(hunks, |base|) && Cuttable(base, edits, |base|, hunks, f, f)
    requires Cut(hunks, c, lo) && Cut(hunks, c', hi) && c <= c' && lo <= hi <= |base|
    ensures exists i: nat, i': nat :: i <= i' <= |edits| && OldSide(edits[i..i']) == base[lo..hi]
              && Applied(base, lo, hi, hunks[c..c'], f) == Mapped(NewSide(edits[i..i']), f)
  {
    hide Applied, Rendered, OldSide, NewSide, Cuttable, HunksOk, PartOf, ValidScript, Mapped;
    PartRendered(base, edits, hunks, c, lo, c', hi, f, f);
    var i: nat, i': nat :| PartOf(base, edits, lo, hi, i, i', Applied(base, lo, hi, hunks[c..c'], f), f, f);
    PartMapped(base, newLines, edits, lo, hi, i, i', Applied(base, lo, hi, hunks[c..c'], f), f);
  }

  lemma PartMapped<L, H>(base: seq<L>, newLines: seq<L>, edits: seq<Edit<L>>, lo: nat, hi: nat, i: nat, i': nat,
                         part: seq<H>, f: L -> H)
    requires ValidScript(edits, base, newLines) && PartOf(base, edits, lo, hi, i, i', part, f, f)
    ensures i <= i' <= |edits| && lo <= hi <= |base| && OldSide(edits[i..i']) == base[lo..hi]
    ensures part == Mapped(NewSide(edits[i..i']), f)
  {
    hide OldSide, NewSide, Rendered, Mapped;
    RenderedNewSide(edits[i..i'], f);
  }

  /** Base-relative hunks of an edit script; applying them to the whole base renders the script. */
  method EditsToHunks<L, H>(ghost base: seq<L>, edits: seq<Edit<L>>, mapInsert: L -> H, ghost mapBase: L -> H)
    returns (hunks: seq<Hunk<H>>)
    requires OldSide(edits) == base
    ensures HunksOk(hunks, |base|)
    ensures Applied(base, 0, |base|, hunks, mapBase) == Rendered(edits, mapInsert, mapBase)
    ensures Cuttable(base, edits, |base|, hunks, mapInsert, mapBase)
    ensures HunkLines(hunks) == DeletedAt(edits) && HunkAdds(hunks) == Insertions(edits)
  {
    hunks := [];
    var baseIx: nat, i: nat := 0, 0;
    MadeStart(base, edits, mapInsert, mapBase);
    CuttableStart<L, H>(base, edits, mapInsert, mapBase);
    ChangesStart<L, H>(edits);
    while i < |edits|
      invariant Made(base, edits, i, baseIx, hunks, mapInsert, mapBase)
      invariant Cuttable(base, edits, baseIx, hunks, mapInsert, mapBase)
      invariant ChangesOnly(edits, i, hunks)
      invariant i <= |edits| && (i == |edits| || edits[i].Equal? || Separated(hunks, baseIx))
      decreases |edits| - i
    {
      hide *;
      if edits[i].Equal? {
        ChangesEqual(base, edits, i, baseIx, hunks, mapInsert, mapBase);
        MadeEqual(base, edits, i, baseIx, hunks, mapInsert, mapBase);
        EqualSeparates(base, edits, i, baseIx, hunks, mapInsert, mapBase);
        MadeOk(base, edits, i, baseIx, hunks, mapInsert, mapBase);
        CuttableEqual(base, edits, i + 1, baseIx, hunks, mapInsert, mapBase);
        baseIx, i := baseIx + 1, i + 1;
      } else {
        var h, i' := OneHunk(base, edits, i, baseIx, mapInsert, mapBase);
        MadeHunk(base, edits, i, i', baseIx, h.baseEnd, hunks, h.newLines, mapInsert, mapBase);
        CuttableHunk(base, edits, i', baseIx, h.baseEnd, hunks, h, mapInsert, mapBase);
        ChangesHunk(edits, i, i', hunks, h);
        hunks := hunks + [h];
        baseIx, i := h.baseEnd, i';
      }
    }
    MadeEnd(base, edits, baseIx, hunks, mapInsert, mapBase);
    ChangesEnd(edits, hunks);
  }

  lemma MadeOk<L, H>(base: seq<L>, edits: seq<Edit<L>>, i: nat, baseIx: nat, hunks: seq<Hunk<H>>, mapInsert: L -> H,
                     mapBase: L -> H)
    requires Made(base, edits, i, baseIx, hunks, mapInsert, mapBase)
    ensures HunksOk(hunks, baseIx)
  {
  }

  lemma EqualSeparates<L, H>(base: seq<L>, edits: seq<Edit<L>>, i: nat, baseIx: nat, hunks: seq<Hunk<H>>,
                             mapInsert: L -> H, mapBase: L -> H)
    requires Made(base, edits, i, baseIx, hunks, mapInsert, mapBase)
    ensures Separated(hunks, baseIx + 1)
  {
    hide Applied, Rendered, OldSide;
  }

  lemma MadeEnd<L, H>(base: seq<L>, edits: seq<Edit<L>>, baseIx: nat, hunks: seq<Hunk<H>>, mapInsert: L -> H,
                      mapBase: L -> H)
    requires Made(base, edits, |edits|, baseIx, hunks, mapInsert, mapBase)
    ensures HunksOk(hunks, |base|)
    ensures Applied(base, 0, |base|, hunks, mapBase) == Rendered(edits, mapInsert, mapBase)
    ensures baseIx == |base|
  {
    hide Applied, Rendered;
    assert edits[|edits|..] == [] && edits[..|edits|] == edits;
    assert |base[baseIx..]| == 0;
  }

  /** The maximal group of deletions and insertions that starts at `i`. */
  method OneHunk<L, H>(ghost base: seq<L>, edits: seq<Edit<L>>, i0: nat, baseIx0: nat, mapInsert: L -> H,
                       ghost mapBase: L -> H)
    returns (h: Hunk<H>, i: nat)
    requires OldSide(edits) == base
    requires i0 < |edits| && !edits[i0].Equal? && baseIx0 <= |base| && OldSide(edits[i0..]) == base[baseIx0..]
    ensures h.baseStart == baseIx0 && i0 < i <= |edits| && (i == |edits| || edits[i].Equal?)
    ensures Changing(base, edits, i0, i, baseIx0, h.baseEnd, h.newLines, mapInsert, mapBase)
    ensures Counted(edits, i0, i, h.baseStart, h.baseEnd, |h.newLines|)
  {
    hide OldSide, Rendered;
    var baseIx, newLines: seq<H> := baseIx0, [];
    i := i0;
    assert Changing(base, edits, i0, i, baseIx0, baseIx, newLines, mapInsert, mapBase);
    hide Changing, Counted;
    CountedStart(edits, i0, baseIx0);
    while i < |edits| && !edits[i].Equal?
      invariant i0 <= i <= |edits| && (i == i0 ==> !edits[i0].Equal?)
      invariant Changing(base, edits, i0, i, baseIx0, baseIx, newLines, mapInsert, mapBase)
      invariant Counted(edits, i0, i, baseIx0, baseIx, |newLines|)
    {
      ChangingBounds(base, edits, i0, i, baseIx0, baseIx, newLines, mapInsert, mapBase);
      CountedNext(base, edits, i0, i, baseIx0, baseIx, |newLines|);
      ChangingStep(base, edits, i0, i, baseIx0, baseIx, newLines, mapInsert, mapBase);
      match edits[i] {
        case Delete(_) => baseIx := baseIx + 1;
        case Insert(y) => newLines := newLines + [mapInsert(y)];
      }
      i := i + 1;
    }
    h := Hunk(baseIx0, baseIx, newLines);
  }

  /** One side of a base range that no hunk straddles, from the hunks inside it: the new side of exactly
      those base lines. */
  method SideContent<L, H>(base: seq<L>, lo: nat, hi: nat, hunks: seq<Hunk<H>>, c: nat, c': nat, f: L -> H,
                           ghost newLines: seq<L>, ghost edits: seq<Edit<L>>) returns (output: seq<H>)
    requires ValidScript(edits, base, newLines)
    requires HunksOk(hunks, |base|) && Cuttable(base, edits, |base|, hunks, f, f)
    requires Cut(hunks, c, lo) && Cut(hunks, c', hi) && c <= c' && lo <= hi <= |base|
    ensures exists i: nat, i': nat :: i <= i' <= |edits| && OldSide(edits[i..i']) == base[lo..hi]
              && output == Mapped(NewSide(edits[i..i']), f)
  {
    hide Applied, OldSide, NewSide, Cuttable, HunksOk, ValidScript, Mapped;
    output := ReconstructSide(base, lo, hi, hunks[c..c'], [], f);
    PartOfNewSide(base, newLines, edits, hunks, c, lo, c', hi, f);
  }

  /** Round trip: hunks of a correct script, applied to the whole base, rebuild the new side. */
  method RebuildNewSide<L, H>(base: seq<L>, newLines: seq<L>, edits: seq<Edit<L>>, f: L -> H) returns (output: seq<H>)
    requires ValidScript(edits, base, newLines)
    ensures output == Mapped(newLines, f)
  {
    var hunks := EditsToHunks(base, edits, f, f);
    RenderedNewSide(edits, f);
    hide Applied, Rendered, OldSide, NewSide;
    output := ReconstructSide(base, 0, |base|, hunks, [], f);
  }
}
