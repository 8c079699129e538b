/** The single-row dynamic program for edit distance, and the choice between it and the
    bit-parallel one. */
module Scratch {
  import opened Machine
  import opened Levenshtein
  import opened BitParallel

  /** The scratch row kept between calls. */
  class LevenshteinScratch {
    var cache: seq<nat>

    constructor ()
      ensures cache == []
    {
      cache := [];
    }

    /** One row per unit of the shorter side; the row lives in `cache` and is overwritten in place. */
    method DistanceNonEmptyUnequal<T(==)>(a0: seq<T>, b0: seq<T>) returns (result: nat)
      requires a0 != [] && b0 != []
      modifies this
      ensures result == Distance(a0, b0)
    {
      var a, b := if |b0| > |a0| then a0 else b0, if |b0| > |a0| then b0 else a0;
      LevSymmetric(a0, b0);
      cache := seq(|b|, ix requires 0 <= ix < |b| => ix + 1);
      result := |b|;
      for i := 0 to |a|
        invariant |cache| == |b|
        invariant forall j :: 0 <= j < |b| ==> cache[j] == Lev(a, b, i, j + 1)
        invariant result == Lev(a, b, i, |b|)
      {
        result := FillRow(a, b, i);
      }
    }

    /** Turn row `i` of the table into row `i + 1`. */
    method FillRow<T(==)>(a: seq<T>, b: seq<T>, i: nat) returns (result: nat)
      requires i < |a| && |cache| == |b|
      requires forall j :: 0 <= j < |b| ==> cache[j] == Lev(a, b, i, j + 1)
      modifies this
      ensures |cache| == |b|
      ensures forall j :: 0 <= j < |b| ==> cache[j] == Lev(a, b, i + 1, j + 1)
      ensures result == Lev(a, b, i + 1, |b|)
    {
      Edges(a, b);
      hide Lev;
      result := i + 1;
      var distanceB := i;
      for j := 0 to |b|
        invariant |cache| == |b|
        invariant forall t :: 0 <= t < j ==> cache[t] == Lev(a, b, i + 1, t + 1)
        invariant forall t :: j <= t < |b| ==> cache[t] == Lev(a, b, i, t + 1)
        invariant result == Lev(a, b, i + 1, j) && distanceB == Lev(a, b, i, j)
      {
        var cost := if a[i] != b[j] then 1 else 0;
        var distanceA := distanceB + cost;
        distanceB := cache[j];
        result := Min(Min(result + 1, distanceA), distanceB + 1);
        Cell(a, b, i, j);
        cache := cache[j := result];
      }
    }

    /** The general distance: equal and empty sides are answered without the table. */
    method DistanceOf<T(==)>(a: seq<T>, b: seq<T>) returns (d: nat)
      modifies this
      ensures d == Distance(a, b)
    {
      if a == b {
        DropLast(a, b, |a|, |b|, |a|);
        return 0;
      }
      if a == [] {
        return |b|;
      }
      if b == [] {
        return |a|;
      }
      d := DistanceNonEmptyUnequal(a, b);
    }

    /** Byte strings take the bit-parallel route when the shorter side fits in a word. */
    method DistanceBytes(a: seq<byte>, b: seq<byte>) returns (d: nat)
      modifies this
      ensures d == Distance(a, b)
    {
      if a == b {
        DropLast(a, b, |a|, |b|, |a|);
        return 0;
      }
      if a == [] {
        return |b|;
      }
      if b == [] {
        return |a|;
      }
      var fast := BitParallelLevenshtein(a, b);
      if fast.Some? {
        return fast.value;
      }
      d := DistanceNonEmptyUnequal(a, b);
    }
  }
}
