module BitParallel {
  // Levenshtein distance of byte strings, one text byte per step: two 128-bit words hold a whole
  // column of the distance table as its vertical +1 and -1 differences.

  import opened Machine
  import opened Wrappers
  import opened Words
  import opened Levenshtein

  const MAX_PATTERN_LEN: nat := 128

  /** The words encode column `j`: bit i tells how cell (i + 1, j) differs from cell (i, j). */
  ghost predicate VerticalAt(p: seq<byte>, t: seq<byte>, j: nat, positive: u128, negative: u128, i: nat)
    requires j <= |t| && i < |p|
  {
    && (Bit(positive, i) <==> Lev(p, t, i + 1, j) - Lev(p, t, i, j) == 1)
    && (Bit(negative, i) <==> Lev(p, t, i + 1, j) - Lev(p, t, i, j) == -1)
  }

  ghost predicate Column(p: seq<byte>, t: seq<byte>, j: nat, positive: u128, negative: u128)
    requires j <= |t|
  {
    forall i: nat :: i < |p| ==> VerticalAt(p, t, j, positive, negative, i)
  }

  /** The words encode the step from column `j` to `j + 1`: bit i tells how row i + 1 changes. */
  ghost predicate HorizontalAt(p: seq<byte>, t: seq<byte>, j: nat, positiveH: u128, negativeH: u128, i: nat)
    requires j < |t| && i < |p|
  {
    && (Bit(positiveH, i) <==> Lev(p, t, i + 1, j + 1) - Lev(p, t, i + 1, j) == 1)
    && (Bit(negativeH, i) <==> Lev(p, t, i + 1, j + 1) - Lev(p, t, i + 1, j) == -1)
  }

  /** `eq` marks the pattern positions that hold `c`. */
  ghost predicate Marks(p: seq<byte>, c: int, eq: u128) {
    forall i: nat :: i < |p| && i < WIDTH ==> (Bit(eq, i) <==> p[i] as int == c)
  }

  // ----- the words of one step -----

  function HorizontalUp(positive: u128, negative: u128, xh: u128): u128 {
    Or(negative, Not(Or(xh, positive)))
  }

  function HorizontalDown(positive: u128, xh: u128): u128 {
    And(positive, xh)
  }

  function ShiftedUp(positive: u128, negative: u128, xh: u128, mask: u128): u128 {
    And(Or(ShiftLeft(HorizontalUp(positive, negative, xh)), OneHot(0)), mask)
  }

  function ShiftedDown(positive: u128, xh: u128, mask: u128): u128 {
    And(ShiftLeft(HorizontalDown(positive, xh)), mask)
  }

  function StepPositive(eq: u128, positive: u128, negative: u128, xh: u128, mask: u128): u128 {
    And(Or(ShiftedDown(positive, xh, mask), Not(Or(Or(eq, negative), ShiftedUp(positive, negative, xh, mask)))), mask)
  }

  function StepNegative(eq: u128, positive: u128, negative: u128, xh: u128, mask: u128): u128 {
    And(ShiftedUp(positive, negative, xh, mask), Or(eq, negative))
  }

  // ----- one cell of the table -----

  /** A cell from its left, upper and upper-left neighbours, as differences. */
  lemma CellDifferences(p: seq<byte>, t: seq<byte>, i: nat, j: nat)
    requires i < |p| && j < |t|
    ensures var dv := Lev(p, t, i + 1, j) - Lev(p, t, i, j);
            var dh := Lev(p, t, i, j + 1) - Lev(p, t, i, j);
            var step := if p[i] == t[j] || dv == -1 || dh == -1 then 0 else 1;
            && -1 <= dv <= 1 && -1 <= dh <= 1
            && Lev(p, t, i + 1, j + 1) - Lev(p, t, i + 1, j) == step - dv
            && Lev(p, t, i + 1, j + 1) - Lev(p, t, i, j + 1) == step - dh
  {
    hide Lev;
    Neighbours(p, t, i, j);
    Cell(p, t, i, j);
  }

  lemma HorizontalBits(positive: u128, negative: u128, xh: u128, i: nat)
    requires i < WIDTH
    ensures Bit(HorizontalUp(positive, negative, xh), i) <==> Bit(negative, i) || !(Bit(xh, i) || Bit(positive, i))
    ensures Bit(HorizontalDown(positive, xh), i) <==> Bit(positive, i) && Bit(xh, i)
  {
    hide Bit, And, Or, Not;
    BitOr(negative, Not(Or(xh, positive)), i);
    BitNot(Or(xh, positive), i);
    BitOr(xh, positive, i);
    BitAnd(positive, xh, i);
  }

  /** Rows of the horizontal words, top to bottom. */
  lemma {:induction false} HorizontalRow(p: seq<byte>, t: seq<byte>, j: nat, eq: u128, positive: u128, negative: u128,
                                         i: nat)
    requires |p| <= WIDTH && j < |t| && i < |p|
    requires Column(p, t, j, positive, negative) && Marks(p, t[j] as int, eq)
    ensures var xh := Spread(eq, positive);
            HorizontalAt(p, t, j, HorizontalUp(positive, negative, xh), HorizontalDown(positive, xh), i)
    decreases i
  {
    hide Lev, Bit, Spread, HorizontalUp, HorizontalDown;
    var xh := Spread(eq, positive);
    assert VerticalAt(p, t, j, positive, negative, i);
    SpreadBits(eq, positive, i);
    HorizontalBits(positive, negative, xh, i);
    CellDifferences(p, t, i, j);
    if i > 0 {
      HorizontalRow(p, t, j, eq, positive, negative, i - 1);
      HorizontalBits(positive, negative, xh, i - 1);
    } else {
      Edges(p, t);
    }
  }

  /** The new vertical difference of row i + 1, given the horizontal one of row i. */
  lemma VerticalRow(p: seq<byte>, t: seq<byte>, j: nat, eq: u128, positive: u128, negative: u128, i: nat)
    requires 0 < |p| <= WIDTH && j < |t| && i < |p|
    requires Column(p, t, j, positive, negative) && Marks(p, t[j] as int, eq)
    ensures var xh := Spread(eq, positive);
            VerticalAt(p, t, j + 1,
              StepPositive(eq, positive, negative, xh, LowBits(|p|)),
              StepNegative(eq, positive, negative, xh, LowBits(|p|)), i)
  {
    hide Lev, Bit, Spread, LowBits, Or, HorizontalUp, HorizontalDown, StepPositive, StepNegative;
    var xh := Spread(eq, positive);
    StepBits(eq, positive, negative, xh, |p|, i);
    assert VerticalAt(p, t, j, positive, negative, i);
    CellDifferences(p, t, i, j);
    if i > 0 {
      HorizontalRow(p, t, j, eq, positive, negative, i - 1);
    } else {
      Edges(p, t);
    }
  }

  lemma ShiftedBits(positive: u128, negative: u128, xh: u128, mask: u128, i: nat)
    requires i < WIDTH && Bit(mask, i)
    ensures Bit(ShiftedUp(positive, negative, xh, mask), i) <==>
              i == 0 || Bit(HorizontalUp(positive, negative, xh), i - 1)
    ensures Bit(ShiftedDown(positive, xh, mask), i) <==> i > 0 && Bit(HorizontalDown(positive, xh), i - 1)
  {
    hide Bit, And, Or, ShiftLeft, HorizontalUp, HorizontalDown, OneHot;
    var up, down := HorizontalUp(positive, negative, xh), HorizontalDown(positive, xh);
    BitShiftLeft(up, i);
    BitShiftLeft(down, i);
    BitOneHot(0, i);
    BitOr(ShiftLeft(up), OneHot(0), i);
    BitAnd(Or(ShiftLeft(up), OneHot(0)), mask, i);
    BitAnd(ShiftLeft(down), mask, i);
  }

  lemma StepBits(eq: u128, positive: u128, negative: u128, xh: u128, len: nat, i: nat)
    requires i < len <= WIDTH
    ensures var up := i == 0 || Bit(HorizontalUp(positive, negative, xh), i - 1);
            var down := i > 0 && Bit(HorizontalDown(positive, xh), i - 1);
            var xv := Bit(eq, i) || Bit(negative, i);
            && (Bit(StepPositive(eq, positive, negative, xh, LowBits(len)), i) <==> down || !(xv || up))
            && (Bit(StepNegative(eq, positive, negative, xh, LowBits(len)), i) <==> up && xv)
  {
    hide Bit, And, Or, Not, ShiftedUp, ShiftedDown, HorizontalUp, HorizontalDown, LowBits;
    var mask := LowBits(len);
    LowBitSet(len, i);
    var ph, nh := ShiftedUp(positive, negative, xh, mask), ShiftedDown(positive, xh, mask);
    ShiftedBits(positive, negative, xh, mask, i);
    var xv := Or(eq, negative);
    BitOr(eq, negative, i);
    BitOr(xv, ph, i);
    BitNot(Or(xv, ph), i);
    BitOr(nh, Not(Or(xv, ph)), i);
    BitAnd(Or(nh, Not(Or(xv, ph))), mask, i);
    BitAnd(ph, xv, i);
  }

  // ----- the algorithm -----

  /** For every byte, a word with a one at each of its pattern positions. */
  method EqMasks(pattern: seq<byte>) returns (masks: array<u128>)
    requires |pattern| <= WIDTH
    ensures fresh(masks) && masks.Length == 256
    ensures forall c :: 0 <= c < 256 ==> Marks(pattern, c, masks[c])
  {
    masks := new u128[256](_ => 0);
    EmptyMarks(pattern, masks[..]);
    for ix := 0 to |pattern|
      invariant MarkedUpTo(pattern, ix, masks[..])
    {
      var b := pattern[ix] as int;
      ghost var before := masks[..];
      masks[b] := Or(masks[b], OneHot(ix));
      assert masks[..] == before[b := Or(before[b], OneHot(ix))];
      AddMark(pattern, ix, before, masks[..]);
    }
  }

  /** The words hold exactly the first `ix` pattern positions. */
  ghost predicate MarkedUpTo(pattern: seq<byte>, ix: nat, masks: seq<u128>) {
    && ix <= |pattern| <= WIDTH && |masks| == 256
    && forall c, i: nat {:trigger Bit(masks[c], i)} :: 0 <= c < 256 && i < WIDTH ==>
         (Bit(masks[c], i) <==> i < ix && pattern[i] as int == c)
  }

  lemma EmptyMarks(pattern: seq<byte>, masks: seq<u128>)
    requires |pattern| <= WIDTH && |masks| == 256 && forall c :: 0 <= c < 256 ==> masks[c] == 0
    ensures MarkedUpTo(pattern, 0, masks)
  {
    forall c, i: nat {:trigger Bit(masks[c], i)} | 0 <= c < 256 && i < WIDTH
      ensures !Bit(masks[c], i)
    {
      BitZero(i);
    }
  }

  lemma AddMark(pattern: seq<byte>, ix: nat, masks: seq<u128>, masks': seq<u128>)
    requires MarkedUpTo(pattern, ix, masks) && ix < |pattern|
    requires var b := pattern[ix] as int; masks' == masks[b := Or(masks[b], OneHot(ix))]
    ensures MarkedUpTo(pattern, ix + 1, masks')
  {
    hide Bit, Or, OneHot;
    var b := pattern[ix] as int;
    forall c, i: nat {:trigger Bit(masks'[c], i)} | 0 <= c < 256 && i < WIDTH
      ensures Bit(masks'[c], i) <==> i < ix + 1 && pattern[i] as int == c
    {
      assert Bit(masks[c], i) <==> i < ix && pattern[i] as int == c;
      BitOr(masks[b], OneHot(ix), i);
      BitOneHot(ix, i);
    }
  }

  /** The column before the first text byte: every row is one more than the row above. */
  lemma FirstColumn(p: seq<byte>, t: seq<byte>)
    requires 0 < |p| <= WIDTH
    ensures Column(p, t, 0, LowBits(|p|), 0) && Lev(p, t, |p|, 0) == |p|
  {
    Edges(p, t);
    hide Lev, Bit, LowBits;
    forall i: nat | i < |p|
      ensures VerticalAt(p, t, 0, LowBits(|p|), 0, i)
    {
      LowBitSet(|p|, i);
      BitZero(i);
    }
  }

  /** Process one text byte. */
  method Step(pattern: seq<byte>, text: seq<byte>, ghost j: nat, eq: u128, positive: u128, negative: u128,
              distance: nat)
    returns (positive': u128, negative': u128, distance': nat)
    requires 0 < |pattern| <= MAX_PATTERN_LEN && j < |text|
    requires Marks(pattern, text[j] as int, eq)
    requires Column(pattern, text, j, positive, negative)
    requires distance == Lev(pattern, text, |pattern|, j)
    ensures Column(pattern, text, j + 1, positive', negative')
    ensures distance' == Lev(pattern, text, |pattern|, j + 1)
  {
    hide Lev, Bit, Or, And, Not, ShiftLeft, Xor, WrappingAdd, VerticalAt, OneHot, LowBits, Marks;
    var m := |pattern|;
    var mask := LowBits(m);
    var highBit := OneHot(m - 1);
    var xv := Or(eq, negative);
    var xh := Or(Xor(WrappingAdd(And(eq, positive), positive), positive), eq);
    var positiveH := Or(negative, Not(Or(xh, positive)));
    var negativeH := And(positive, xh);
    HorizontalRow(pattern, text, j, eq, positive, negative, m - 1);
    BitTest(positiveH, m - 1);
    BitTest(negativeH, m - 1);
    Neighbours(pattern, text, m, j);
    distance' := distance;
    if And(positiveH, highBit) != 0 {
      distance' := distance + 1;
    } else if And(negativeH, highBit) != 0 {
      distance' := distance - 1;
    }
    positiveH := And(Or(ShiftLeft(positiveH), OneHot(0)), mask);
    negativeH := And(ShiftLeft(negativeH), mask);
    positive' := And(Or(negativeH, Not(Or(xv, positiveH))), mask);
    negative' := And(positiveH, xv);
    ghost var next := j + 1;
    forall i: nat | i < m
      ensures VerticalAt(pattern, text, next, positive', negative', i)
    {
      VerticalRow(pattern, text, j, eq, positive, negative, i);
    }
  }

  /** The distance, unless the shorter side does not fit in one word. */
  method BitParallelLevenshtein(a: seq<byte>, b: seq<byte>) returns (r: Option<nat>)
    ensures r == if Min(|a|, |b|) <= 128 then Some(Distance(a, b)) else None
  {
    var pattern, text := if |a| <= |b| then a else b, if |a| <= |b| then b else a;
    LevSymmetric(a, b);
    if pattern == [] {
      return Some(|text|);
    }
    if |pattern| > MAX_PATTERN_LEN {
      return None;
    }
    var eqMasks := EqMasks(pattern);
    var positive: u128 := LowBits(|pattern|);
    var negative: u128 := 0;
    var distance := |pattern|;
    FirstColumn(pattern, text);
    hide Lev, LowBits, Column;
    for j := 0 to |text|
      invariant forall c :: 0 <= c < 256 ==> Marks(pattern, c, eqMasks[c])
      invariant Column(pattern, text, j, positive, negative)
      invariant distance == Lev(pattern, text, |pattern|, j)
    {
      positive, negative, distance := Step(pattern, text, j, eqMasks[text[j] as int], positive, negative, distance);
    }
    r := Some(distance);
  }
}
