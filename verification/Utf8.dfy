/** UTF-8 byte sequences (section 4 of RFC 3629) and where their characters begin. */
module Utf8 {
  import opened Machine

  predicate Continuation(c: byte) {
    0x80 <= c < 0xC0
  }

  predicate TailAt(b: seq<byte>, i: nat) {
    i < |b| && Continuation(b[i])
  }

  predicate SecondIn(b: seq<byte>, i: nat, low: byte, high: byte) {
    i < |b| && low <= b[i] <= high
  }

  /** The length of the well-formed character at `i`, zero if there is none. */
  function Width(b: seq<byte>, i: nat): (w: nat)
    requires i < |b|
    ensures w <= 4 && i + w <= |b|
    ensures w > 0 ==> !Continuation(b[i]) && forall k :: i < k < i + w ==> Continuation(b[k])
  {
    var c := b[i];
    if c < 0x80 then 1
    else if 0xC2 <= c <= 0xDF then (if TailAt(b, i + 1) then 2 else 0)
    else if c == 0xE0 then (if SecondIn(b, i + 1, 0xA0, 0xBF) && TailAt(b, i + 2) then 3 else 0)
    else if 0xE1 <= c <= 0xEC || 0xEE <= c <= 0xEF then (if TailAt(b, i + 1) && TailAt(b, i + 2) then 3 else 0)
    else if c == 0xED then (if SecondIn(b, i + 1, 0x80, 0x9F) && TailAt(b, i + 2) then 3 else 0)
    else if c == 0xF0 then
      (if SecondIn(b, i + 1, 0x90, 0xBF) && TailAt(b, i + 2) && TailAt(b, i + 3) then 4 else 0)
    else if 0xF1 <= c <= 0xF3 then
      (if TailAt(b, i + 1) && TailAt(b, i + 2) && TailAt(b, i + 3) then 4 else 0)
    else if c == 0xF4 then
      (if SecondIn(b, i + 1, 0x80, 0x8F) && TailAt(b, i + 2) && TailAt(b, i + 3) then 4 else 0)
    else 0
  }

  /** The bytes from `i` up to `j` are whole characters. */
  predicate Whole(b: seq<byte>, i: nat, j: nat)
    requires i <= j <= |b|
    decreases j - i
  {
    i == j || (Width(b, i) > 0 && i + Width(b, i) <= j && Whole(b, i + Width(b, i), j))
  }

  predicate IsUtf8(b: seq<byte>) {
    Whole(b, 0, |b|)
  }

  predicate Boundary(text: seq<byte>, k: nat) {
    k == 0 || k == |text| || (k < |text| && !Continuation(text[k]))
  }

  // ----- whole characters and boundaries -----

  /** Text splits into text exactly at its boundaries. */
  lemma {:induction false} SplitsAtBoundaries(b: seq<byte>, i: nat, k: nat)
    requires i <= k <= |b| && Whole(b, i, |b|)
    ensures Whole(b, i, k) <==> k == i || k == |b| || !Continuation(b[k])
    ensures Whole(b, i, k) ==> Whole(b, k, |b|)
    decreases k - i
  {
    hide Width;
    if i < k {
      var w := Width(b, i);
      WidthEnds(b, i);
      if i + w <= k {
        SplitsAtBoundaries(b, i + w, k);
      } else {
        assert k < |b| && Continuation(b[k]);
      }
    }
  }

  lemma WidthEnds(b: seq<byte>, i: nat)
    requires i < |b| && Whole(b, i, |b|)
    ensures var w := Width(b, i);
            && 0 < w <= 4 && i + w <= |b| && Whole(b, i + w, |b|) && !Continuation(b[i])
            && (forall k :: i < k < i + w ==> Continuation(b[k]))
            && (i + w < |b| ==> !Continuation(b[i + w]))
  {
    var w := Width(b, i);
    if i + w < |b| {
      assert Width(b, i + w) > 0;
    }
  }

  /** At most three continuation bytes stand in a row: a boundary follows every position closely. */
  lemma {:induction false} BoundaryNear(b: seq<byte>, i: nat, p: nat) returns (k: nat)
    requires i <= p <= |b| && Whole(b, i, |b|)
    ensures p <= k <= p + 3 && k <= |b| && (k == |b| || !Continuation(b[k]))
    decreases |b| - i
  {
    hide Width, Whole;
    if i == p {
      k := p;
      if p < |b| {
        WidthEnds(b, p);
      }
    } else {
      WidthEnds(b, i);
      var next := i + Width(b, i);
      if next <= p {
        k := BoundaryNear(b, next, p);
      } else {
        k := next;
      }
    }
  }

  lemma WidthShift(b: seq<byte>, lo: nat, hi: nat, i: nat)
    requires lo <= i < hi <= |b|
    ensures Width(b[lo..hi], i - lo) == if i + Width(b, i) <= hi then Width(b, i) else 0
  {
    var s := b[lo..hi];
    assert forall k :: i <= k < hi ==> s[k - lo] == b[k];
    assert forall k: nat :: i <= k < |b| && TailAt(b, k) && k < hi ==> TailAt(s, k - lo);
  }

  /** Being whole characters does not depend on what surrounds the bytes. */
  lemma {:induction false} WholeShift(b: seq<byte>, lo: nat, hi: nat, i: nat, j: nat)
    requires lo <= i <= j <= hi <= |b|
    ensures Whole(b[lo..hi], i - lo, j - lo) <==> Whole(b, i, j)
    decreases j - i
  {
    hide Width;
    if i < j {
      WidthShift(b, lo, hi, i);
      var w := Width(b, i);
      if w > 0 && i + w <= j {
        WholeShift(b, lo, hi, i + w, j);
      }
    }
  }

  ghost predicate Ascii(b: seq<byte>) {
    forall i :: 0 <= i < |b| ==> b[i] < 0x80
  }

  lemma {:induction false} AsciiIsWhole(b: seq<byte>, i: nat)
    requires i <= |b| && Ascii(b)
    ensures Whole(b, i, |b|)
    decreases |b| - i
  {
    if i < |b| {
      AsciiIsWhole(b, i + 1);
    }
  }
}
