/** The price of showing an old line beside a new one: their edit distance scaled to the longer
    line, computed on trimmed lines in 32-bit arithmetic. */
module PairCost {
  import opened Machine
  import opened Wrappers
  import opened Levenshtein
  import opened Boundaries
  import opened Scratch

  const ALIGN_CELL_BUDGET: nat := 50_000
  const BASE_COST: u32 := 80
  const SCALE_COST: u32 := 120
  const PENALTY_COST: u32 := 40
  const PENALTY_MIN_LEN: nat := 4

  function SaturatingMul(a: u32, b: u32): u32 {
    if a as int * b as int <= U32_MAX then (a as int * b as int) as u32 else 0xFFFF_FFFF
  }

  /** The distance a price is based on: exact, unless the differing middles of the two lines are
      too large for the table, when it is the longer middle. */
  function PricedDistance<T(==)>(a: seq<T>, b: seq<T>, prefix: nat, suffix: nat): nat
    requires IsCommonPrefix(a, b, prefix) && IsCommonSuffix(a, b, prefix, suffix)
  {
    Capped(|a| - prefix - suffix, |b| - prefix - suffix, Distance(a, b))
  }

  function Capped(n: nat, m: nat, distance: nat): nat {
    if n * m > ALIGN_CELL_BUDGET then Max(n, m) else distance
  }

  /** The price formula: the distance scaled to the longer line, plus a penalty for lines of some
      length that share neither end. */
  function Formula(longer: nat, distance: nat, sharesAnEnd: bool): (r: u32)
    ensures distance <= Max(longer, 1) ==> 80 <= r <= 240
  {
    var maxLen := Max(longer, 1);
    var d := Min(distance, maxLen);
    ScaledAtMost(d, maxLen);
    BASE_COST + (Min(d * 120, U32_MAX) / maxLen) as u32
    + if !sharesAnEnd && maxLen >= PENALTY_MIN_LEN then PENALTY_COST else 0
  }

  /** The price, stated on the whole, untrimmed lines. */
  function Price<T(==)>(a: seq<T>, b: seq<T>): u32 {
    if a == b then 0 else
    BoundaryIs(a, b);
    var (prefix, suffix) := Boundary(a, b);
    Formula(Max(|a|, |b|), PricedDistance(a, b, prefix, suffix), prefix > 0 || suffix > 0)
  }

  /** A pair is never dearer than 240, so it can beat two gaps only when the lines are similar. */
  lemma PriceAtMost<T>(a: seq<T>, b: seq<T>)
    ensures Price(a, b) <= 240
  {
    hide PricedDistance, Boundary;
    BoundaryIs(a, b);
    PricedAtMost(a, b, Boundary(a, b).0, Boundary(a, b).1);
  }

  lemma ScaledAtMost(d: nat, maxLen: nat)
    requires 0 < maxLen && d <= maxLen
    ensures 0 <= Min(d * 120, U32_MAX) / maxLen <= 120
  {
    var q := Min(d * 120, U32_MAX);
    assert q <= 120 * maxLen;
    QuotientAtMost(q, maxLen, 120);
  }

  lemma QuotientAtMost(q: nat, p: nat, k: nat)
    requires p > 0 && q <= k * p
    ensures q / p <= k
  {
    if k < q / p {
      TimesMonotone(k + 1, q / p, p);
    }
  }

  lemma TimesMonotone(x: nat, y: nat, p: nat)
    requires x <= y
    ensures x * p <= y * p
  {}

  /** Trimming never hides a difference: the priced distance is the true one or an upper bound of
      it, and at most the longer line. */
  lemma PricedAtMost<T>(a: seq<T>, b: seq<T>, prefix: nat, suffix: nat)
    requires IsCommonPrefix(a, b, prefix) && IsCommonSuffix(a, b, prefix, suffix)
    ensures Distance(a, b) <= PricedDistance(a, b, prefix, suffix) <= Max(|a|, |b|)
  {
    hide Lev;
    TrimKeepsDistance(a, b, prefix, suffix);
    var a', b' := a[prefix..|a| - suffix], b[prefix..|b| - suffix];
    LevBounds(a', b', |a'|, |b'|);
    LevBounds(a, b, |a|, |b|);
  }

  /** The answers that need no table: one middle empty, or both too large. */
  method QuickDistance<T(==)>(a: seq<T>, b: seq<T>, prefix: nat, suffix: nat) returns (r: Option<nat>)
    requires IsCommonPrefix(a, b, prefix) && IsCommonSuffix(a, b, prefix, suffix)
    ensures r.Some? ==> r.value == PricedDistance(a, b, prefix, suffix)
    ensures r.None? ==>
              PricedDistance(a, b, prefix, suffix) == Distance(a[prefix..|a| - suffix], b[prefix..|b| - suffix])
  {
    TrimKeepsDistance(a, b, prefix, suffix);
    var a', b' := a[prefix..|a| - suffix], b[prefix..|b| - suffix];
    Edges(a', b');
    hide Lev;
    if a' == [] || b' == [] {
      assert |a'| * |b'| == 0;
      return Some(|a'| + |b'|);
    }
    if |a'| * |b'| > ALIGN_CELL_BUDGET {
      return Some(Max(|a'|, |b'|));
    }
    r := None;
  }

  /** The price for a known distance. */
  method PriceOf<T(==)>(a: seq<T>, b: seq<T>, prefix: nat, suffix: nat, distance: nat) returns (cost: u32)
    requires a != b && |a| <= U32_MAX && |b| <= U32_MAX
    requires IsCommonPrefix(a, b, prefix) && IsCommonSuffix(a, b, prefix, suffix)
    requires distance == PricedDistance(a, b, prefix, suffix)
    ensures cost == Price(a, b)
  {
    BoundaryIs(a, b);
    assert Boundary(a, b) == (prefix, suffix);
    PricedAtMost(a, b, prefix, suffix);
    hide *;
    cost := FormulaOf(Max(|a|, |b|), distance, prefix, suffix);
  }

  /** The formula in 32-bit arithmetic. */
  method FormulaOf(longer: nat, distance: nat, prefix: nat, suffix: nat) returns (cost: u32)
    requires longer <= U32_MAX
    ensures cost == Formula(longer, distance, prefix > 0 || suffix > 0)
  {
    var maxLenUsize := Max(longer, 1);
    ScaledAtMost(Min(distance, maxLenUsize), maxLenUsize);
    var maxLen := maxLenUsize as u32;
    var d := Min(distance, maxLen as int) as u32;
    cost := BASE_COST + SaturatingMul(d, SCALE_COST) / maxLen;
    if prefix == 0 && suffix == 0 && maxLenUsize >= PENALTY_MIN_LEN {
      cost := cost + PENALTY_COST;
    }
  }

  // ----- ASCII lines are priced on their bytes -----

  predicate IsAscii(s: string) {
    forall i :: 0 <= i < |s| ==> s[i] as int < 128
  }

  function AsciiBytes(s: string): (r: seq<byte>)
    requires IsAscii(s)
    ensures |r| == |s| && forall i :: 0 <= i < |s| ==> r[i] as int == s[i] as int
  {
    seq(|s|, i requires 0 <= i < |s| => (s[i] as int) as byte)
  }

  lemma {:induction false} BytesKeepLev(a: string, b: string, i: nat, j: nat)
    requires IsAscii(a) && IsAscii(b) && i <= |a| && j <= |b|
    ensures Lev(AsciiBytes(a), AsciiBytes(b), i, j) == Lev(a, b, i, j)
    decreases i + j
  {
    hide Lev;
    var x, y := AsciiBytes(a), AsciiBytes(b);
    if i == 0 || j == 0 {
      Edges(a, b);
      Edges(x, y);
    } else {
      BytesKeepLev(a, b, i - 1, j - 1);
      BytesKeepLev(a, b, i - 1, j);
      BytesKeepLev(a, b, i, j - 1);
      Cell(a, b, i - 1, j - 1);
      Cell(x, y, i - 1, j - 1);
    }
  }

  lemma BytesEqual(a: string, b: string)
    requires IsAscii(a) && IsAscii(b)
    ensures AsciiBytes(a) == AsciiBytes(b) <==> a == b
  {
    if AsciiBytes(a) == AsciiBytes(b) {
      forall i | 0 <= i < |a|
        ensures a[i] == b[i]
      {
        assert AsciiBytes(a)[i] == AsciiBytes(b)[i];
      }
    }
  }

  lemma BytesKeepBoundary(a: string, b: string, p: nat, s: nat)
    requires IsAscii(a) && IsAscii(b)
    requires IsCommonPrefix(AsciiBytes(a), AsciiBytes(b), p) && IsCommonSuffix(AsciiBytes(a), AsciiBytes(b), p, s)
    ensures IsCommonPrefix(a, b, p) && IsCommonSuffix(a, b, p, s)
  {
    hide AsciiBytes;
    BytesAgree(a, b);
    BytesKeepPrefix(a, b, p);
    BytesKeepSuffix(a, b, s);
  }

  lemma BytesAgree(a: string, b: string)
    requires IsAscii(a) && IsAscii(b)
    ensures |AsciiBytes(a)| == |a| && |AsciiBytes(b)| == |b|
    ensures forall i, j :: 0 <= i < |a| && 0 <= j < |b| ==> (AsciiBytes(a)[i] == AsciiBytes(b)[j] <==> a[i] == b[j])
  {
  }

  lemma BytesKeepPrefix(a: string, b: string, p: nat)
    requires IsAscii(a) && IsAscii(b) && p <= |a| && p <= |b|
    requires |AsciiBytes(a)| == |a| && |AsciiBytes(b)| == |b| && AsciiBytes(a)[..p] == AsciiBytes(b)[..p]
    ensures a[..p] == b[..p]
  {
    BytesAgree(a, b);
    hide AsciiBytes, IsAscii;
    forall i | 0 <= i < p
      ensures a[i] == b[i]
    {
      PrefixUnit(AsciiBytes(a), AsciiBytes(b), p, i);
    }
  }

  lemma BytesKeepSuffix(a: string, b: string, s: nat)
    requires IsAscii(a) && IsAscii(b) && s <= |a| && s <= |b|
    requires |AsciiBytes(a)| == |a| && |AsciiBytes(b)| == |b|
    requires AsciiBytes(a)[|a| - s..] == AsciiBytes(b)[|b| - s..]
    ensures a[|a| - s..] == b[|b| - s..]
  {
    BytesAgree(a, b);
    hide AsciiBytes, IsAscii;
    var endA, endB := a[|a| - s..], b[|b| - s..];
    forall i | 0 <= i < s
      ensures endA[i] == endB[i]
    {
      SuffixUnit(AsciiBytes(a), AsciiBytes(b), s, s - i - 1);
    }
  }

  /** Bytes and characters of ASCII lines have the same price. */
  lemma BytesKeepPrice(a: string, b: string)
    requires IsAscii(a) && IsAscii(b)
    ensures Price(AsciiBytes(a), AsciiBytes(b)) == Price(a, b)
  {
    hide Lev, Boundary, Capped, Formula;
    var x, y := AsciiBytes(a), AsciiBytes(b);
    BytesEqual(a, b);
    BytesKeepLev(a, b, |a|, |b|);
    BoundaryIs(x, y);
    BoundaryIs(a, b);
    BytesKeepBoundary(a, b, Boundary(x, y).0, Boundary(x, y).1);
  }

  /** The price of two lines of text. */
  method ReplacementPairCost(a: string, b: string, scratch: LevenshteinScratch) returns (cost: u32)
    requires |a| <= U32_MAX && |b| <= U32_MAX
    modifies scratch
    ensures cost == Price(a, b)
  {
    if a == b {
      return 0;
    }
    if IsAscii(a) && IsAscii(b) {
      BytesEqual(a, b);
      BytesKeepPrice(a, b);
      var x, y := AsciiBytes(a), AsciiBytes(b);
      var prefix, suffix := SharedBoundaryBytes(x, y);
      var quick := QuickDistance(x, y, prefix, suffix);
      var distance;
      if quick.Some? {
        distance := quick.value;
      } else {
        distance := scratch.DistanceBytes(x[prefix..|x| - suffix], y[prefix..|y| - suffix]);
      }
      cost := PriceOf(x, y, prefix, suffix, distance);
    } else {
      var prefix, suffix := SharedBoundaryUnits(a, b);
      var quick := QuickDistance(a, b, prefix, suffix);
      var distance;
      if quick.Some? {
        distance := quick.value;
      } else {
        distance := scratch.DistanceOf(a[prefix..|a| - suffix], b[prefix..|b| - suffix]);
      }
      cost := PriceOf(a, b, prefix, suffix, distance);
    }
  }

  /** For unequal lines whose middles fit the budget, the price is the stated formula on the plain
      edit distance of the two lines, its product with the scale saturating at 32 bits. */
  lemma PriceWithinBudget<T>(a: seq<T>, b: seq<T>, p: nat, s: nat)
    requires a != b && IsCommonPrefix(a, b, p) && IsCommonSuffix(a, b, p, s)
    requires (|a| - p - s) * (|b| - p - s) <= 50_000
    ensures var maxLen := Max(|a|, |b|);
            && maxLen > 0
            && Price(a, b) as int == 80 + Min(Distance(a, b) * 120, U32_MAX) / maxLen
                                     + if p == 0 && s == 0 && maxLen >= 4 then 40 else 0
  {
    hide Lev, Boundary;
    BoundaryIs(a, b);
    assert Boundary(a, b) == (p, s);
    PricedAtMost(a, b, p, s);
    hide IsCommonPrefix, IsCommonSuffix;
  }

  /** Beyond the budget it is the same formula on the longer of the two middles. */
  lemma PriceOverBudget<T>(a: seq<T>, b: seq<T>, p: nat, s: nat)
    requires a != b && IsCommonPrefix(a, b, p) && IsCommonSuffix(a, b, p, s)
    requires (|a| - p - s) * (|b| - p - s) > 50_000
    ensures var maxLen, d := Max(|a|, |b|), Max(|a| - p - s, |b| - p - s);
            && maxLen > 0
            && Price(a, b) as int == 80 + Min(d * 120, U32_MAX) / maxLen
                                     + if p == 0 && s == 0 && maxLen >= 4 then 40 else 0
  {
    hide Lev, Boundary;
    BoundaryIs(a, b);
    assert Boundary(a, b) == (p, s);
    PricedAtMost(a, b, p, s);
    hide IsCommonPrefix, IsCommonSuffix;
  }

  /** Only equal lines cost nothing to show beside each other, and others at least 80. */
  lemma PriceOfEqual<T>(a: seq<T>, b: seq<T>)
    ensures if a == b then Price(a, b) == 0 else Price(a, b) >= 80
  {
    hide PricedDistance, Boundary;
    BoundaryIs(a, b);
    PricedAtMost(a, b, Boundary(a, b).0, Boundary(a, b).1);
    hide IsCommonPrefix, IsCommonSuffix;
  }
}
