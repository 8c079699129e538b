module Utf8Slices {
  // Resolving a byte range of a text to whole characters: in memory, and from a file by reading
  // little more than the range.

  import opened Machine
  import opened Wrappers
  import opened Utf8

  /** How far beyond the requested range the file is read. */
  const LOOKAROUND: nat := 3

  datatype Span = Span(start: nat, end: nat)

  function Min(x: nat, y: nat): nat {
    if x < y then x else y
  }

  function Max(x: nat, y: nat): nat {
    if x < y then y else x
  }

  function Minus(x: nat, y: nat): nat {
    if x < y then 0 else x - y
  }

  // ----- in memory -----

  /** `k` is the first boundary at or after `offset`. */
  ghost predicate FirstBoundary(text: seq<byte>, offset: nat, k: nat) {
    && Min(offset, |text|) <= k <= |text| && Boundary(text, k)
    && forall p :: Min(offset, |text|) <= p < k ==> !Boundary(text, p)
  }

  /** `k` is the last boundary at or before `offset`. */
  ghost predicate LastBoundary(text: seq<byte>, offset: nat, k: nat) {
    && k <= Min(offset, |text|) && Boundary(text, k)
    && forall p :: k < p <= Min(offset, |text|) ==> !Boundary(text, p)
  }

  method ClampUp(text: seq<byte>, offset: nat) returns (k: nat)
    ensures FirstBoundary(text, offset, k)
  {
    k := Min(offset, |text|);
    while k < |text| && !Boundary(text, k)
      invariant Min(offset, |text|) <= k <= |text|
      invariant forall p :: Min(offset, |text|) <= p < k ==> !Boundary(text, p)
    {
      k := k + 1;
    }
  }

  method ClampDown(text: seq<byte>, offset: nat) returns (k: nat)
    ensures LastBoundary(text, offset, k)
  {
    k := Min(offset, |text|);
    while k > 0 && !Boundary(text, k)
      invariant k <= Min(offset, |text|)
      invariant forall p :: k < p <= Min(offset, |text|) ==> !Boundary(text, p)
    {
      k := k - 1;
    }
  }

  /** What a range inside the text resolves to: it shrinks to boundaries on both ends, and to the
      empty range at its start when no whole character fits. */
  ghost predicate Resolves(text: seq<byte>, range: Span, to: Span) {
    && FirstBoundary(text, range.start, to.start)
    && if to.start <= range.end then LastBoundary(text, range.end, to.end) else to.end == to.start
  }

  method ResolvedTextSubslice(text: seq<byte>, range: Span) returns (r: Option<Span>)
    ensures r.None? <==> range.start > range.end || range.end > |text|
    ensures r.Some? ==> r.value.start <= r.value.end <= |text| && Resolves(text, range, r.value)
  {
    if range.start > range.end || range.end > |text| {
      return None;
    }
    var start := ClampUp(text, range.start);
    var end := ClampDown(text, range.end);
    r := Some(Span(start, Max(end, start)));
  }

  lemma ResolutionIsUnique(text: seq<byte>, range: Span, x: Span, y: Span)
    requires Resolves(text, range, x) && Resolves(text, range, y)
    ensures x == y
  {
    hide Boundary;
  }

  // ----- from a file -----

  /** Reading outside the file fails, unless nothing is read. */
  function ReadFileBytes(file: seq<byte>, start: nat, end: nat): Option<seq<byte>> {
    if start > end then None
    else if start == end then Some([])
    else if end > |file| then None
    else Some(file[start..end])
  }

  method SkipContinuation(bytes: seq<byte>, from: nat) returns (k: nat)
    requires from <= |bytes|
    ensures from <= k <= |bytes| && (k < |bytes| ==> !Continuation(bytes[k]))
    ensures forall p :: from <= p < k ==> Continuation(bytes[p])
  {
    k := from;
    while k < |bytes| && Continuation(bytes[k])
      invariant from <= k <= |bytes|
      invariant forall p :: from <= p < k ==> Continuation(bytes[p])
    {
      k := k + 1;
    }
  }

  method LongestUtf8(bytes: seq<byte>, start: nat, from: nat) returns (end: nat)
    requires start <= from <= |bytes|
    ensures start <= end <= from && IsUtf8(bytes[start..end])
    ensures forall p :: end < p <= from ==> !IsUtf8(bytes[start..p])
  {
    end := from;
    while end > start && !IsUtf8(bytes[start..end])
      invariant start <= end <= from
      invariant forall p :: end < p <= from ==> !IsUtf8(bytes[start..p])
    {
      end := end - 1;
    }
  }

  datatype Slice = Slice(text: seq<byte>, range: Span)

  /** The local range found in the bytes read: from the first byte that is no continuation to the
      last position up to which they are text. */
  ghost predicate WindowResolved(bytes: seq<byte>, wanted: Span, local: Span) {
    && wanted.start <= local.start <= |bytes| && (local.start < |bytes| ==> !Continuation(bytes[local.start]))
    && (forall p :: wanted.start <= p < local.start ==> Continuation(bytes[p]))
    && local.start <= local.end <= Max(wanted.end, local.start) && local.end <= |bytes|
    && IsUtf8(bytes[local.start..local.end])
    && (forall p :: local.end < p <= Max(wanted.end, local.start) && p <= |bytes| ==> !IsUtf8(bytes[local.start..p]))
  }

  method ResolveWindow(bytes: seq<byte>, wanted: Span) returns (local: Span)
    requires wanted.start <= wanted.end <= |bytes|
    ensures WindowResolved(bytes, wanted, local)
  {
    hide IsUtf8, Continuation;
    var localStart := SkipContinuation(bytes, wanted.start);
    var localEnd := LongestUtf8(bytes, localStart, Max(wanted.end, localStart));
    local := Span(localStart, localEnd);
  }

  /** The bytes of the base range that the file still has, as the text a caller sees. */
  function BaseText(file: seq<byte>, base: Span): seq<byte> {
    var end := Min(base.end, |file|);
    if base.start <= end then file[base.start..end] else []
  }

  /** The range lies in the base range. */
  ghost predicate Within(base: Span, sub: Span) {
    sub.start <= sub.end <= Minus(base.end, base.start)
  }

  /** And the base range lies in the file. */
  ghost predicate Inside(file: seq<byte>, base: Span, sub: Span) {
    base.start <= base.end <= |file| && Within(base, sub)
  }

  /** The bytes that are read around a range. */
  function ReadStart(base: Span, sub: Span): nat {
    Max(Minus(base.start + sub.start, LOOKAROUND), base.start)
  }

  function ReadEnd(base: Span, sub: Span): nat {
    Min(base.start + sub.end + LOOKAROUND, base.end)
  }

  /** All bytes around the range are still in the file; an empty base range needs none. */
  ghost predicate StillThere(file: seq<byte>, base: Span, sub: Span) {
    base.start == base.end || (base.start < base.end && ReadEnd(base, sub) <= |file|)
  }

  lemma ReadSucceeds(file: seq<byte>, base: Span, sub: Span)
    requires Within(base, sub)
    ensures ReadFileBytes(file, ReadStart(base, sub), ReadEnd(base, sub)).Some? <==> StillThere(file, base, sub)
  {
  }

  /** What is read is the window of the text around the range. */
  lemma ReadIsWindow(file: seq<byte>, base: Span, sub: Span)
    requires Within(base, sub) && StillThere(file, base, sub)
    ensures var text := BaseText(file, base);
            var window := Span(ReadStart(base, sub) - base.start, ReadEnd(base, sub) - base.start);
            && sub.end <= |text|
            && window == Span(Minus(sub.start, LOOKAROUND), Min(sub.end + LOOKAROUND, |text|))
            && ReadFileBytes(file, ReadStart(base, sub), ReadEnd(base, sub)) == Some(text[window.start..window.end])
  {
    if base.start < base.end {
      SliceOfSlice(file, Span(base.start, Min(base.end, |file|)),
                   Span(ReadStart(base, sub) - base.start, ReadEnd(base, sub) - base.start));
    }
  }

  /** The flag of a slice that promises ASCII content. */
  ghost predicate FlagHolds(text: seq<byte>, asciiOnly: bool) {
    asciiOnly ==> Ascii(text)
  }

  /** A slice holds the text its range says, and that is text. */
  ghost predicate SliceOk(text: seq<byte>, s: Slice) {
    s.range.start <= s.range.end <= |text| && s.text == text[s.range.start..s.range.end] && IsUtf8(s.text)
  }

  /** Reads the bytes around the range, but nothing outside the base range. */
  method ReadAround(file: seq<byte>, base: Span, sub: Span) returns (r: Option<Slice>)
    requires Within(base, sub)
    ensures r.Some? <==> StillThere(file, base, sub)
    ensures r.Some? ==> SliceOk(BaseText(file, base), r.value)
    ensures r.Some? && IsUtf8(BaseText(file, base)) ==> Resolves(BaseText(file, base), sub, r.value.range)
  {
    hide Resolves, IsUtf8, ReadFileBytes, BaseText, StillThere;
    var start, end := base.start + sub.start, base.start + sub.end;
    var readStart := Max(Minus(start, LOOKAROUND), base.start);
    var readEnd := Min(end + LOOKAROUND, base.end);
    var read := ReadFileBytes(file, readStart, readEnd);
    ReadSucceeds(file, base, sub);
    if read.None? {
      return None;
    }
    ReadIsWindow(file, base, sub);
    var bytes := read.value;
    ghost var text, window := BaseText(file, base), Span(readStart - base.start, readEnd - base.start);
    var requested := Span(Min(Minus(start, readStart), |bytes|), Min(Minus(end, readStart), |bytes|));
    assert requested == Span(sub.start - window.start, sub.end - window.start);
    hide *;
    var slice := SliceOfWindow(bytes, requested, base.start, readStart, text, sub, window);
    r := Some(slice);
  }

  method SliceOfWindow(bytes: seq<byte>, requested: Span, baseStart: nat, readStart: nat,
                       ghost text: seq<byte>, ghost sub: Span, ghost window: Span) returns (s: Slice)
    requires sub.start <= sub.end <= |text| && baseStart <= readStart && window.start == readStart - baseStart
    requires window == Span(Minus(sub.start, LOOKAROUND), Min(sub.end + LOOKAROUND, |text|))
    requires window.start <= sub.start && window.start <= window.end <= |text|
             && bytes == text[window.start..window.end]
    requires requested == Span(sub.start - window.start, sub.end - window.start) && requested.end <= |bytes|
    ensures SliceOk(text, s) && (IsUtf8(text) ==> Resolves(text, sub, s.range))
  {
    hide *;
    var local := ResolveWindow(bytes, requested);
    WindowText(text, window, requested, local);
    if IsUtf8(text) {
      WindowResolves(text, sub, window, local);
    }
    var resolved := Resolved(baseStart, readStart, local);
    if local.end <= local.start {
      s := Slice([], resolved);
    } else {
      s := Slice(bytes[local.start..local.end], resolved);
    }
    SliceIsOk(text, s);
  }

  lemma SliceIsOk(text: seq<byte>, s: Slice)
    requires s.range.start <= s.range.end <= |text| && s.text == text[s.range.start..s.range.end] && IsUtf8(s.text)
    ensures SliceOk(text, s)
  {
  }

  function Resolved(baseStart: nat, readStart: nat, local: Span): (r: Span)
    ensures readStart >= baseStart ==> r == Span(readStart - baseStart + local.start, readStart - baseStart + local.end)
  {
    Span(Minus(readStart + local.start, baseStart), Minus(readStart + local.end, baseStart))
  }

  /** From the file, whether or not it still has the whole base range. */
  method ReadUtf8FileSubslice(file: seq<byte>, base: Span, sub: Span, asciiOnly: bool) returns (r: Option<Slice>)
    ensures !Within(base, sub) ==> r.None?
    ensures Within(base, sub) && !asciiOnly ==> (r.Some? <==> StillThere(file, base, sub))
    ensures Within(base, sub) && asciiOnly ==>
              (r.Some? <==> IsText(ReadFileBytes(file, base.start + sub.start, base.start + sub.end)))
    ensures r.Some? ==>
              SliceOk(BaseText(file, base), r.value)
              || (asciiOnly && sub.start == sub.end && r.value == Slice([], sub))
    ensures Within(base, sub) && r.Some? && !asciiOnly && IsUtf8(BaseText(file, base)) ==>
              Resolves(BaseText(file, base), sub, r.value.range)
    ensures Inside(file, base, sub) && IsUtf8(BaseText(file, base)) && FlagHolds(BaseText(file, base), asciiOnly) ==>
              r.Some? && Resolves(BaseText(file, base), sub, r.value.range)
  {
    hide Resolves, IsUtf8, Ascii, BaseText, ReadFileBytes, StillThere, ReadEnd;
    InsideIsThere(file, base, sub);
    if sub.start > sub.end || sub.end > Minus(base.end, base.start) {
      return None;
    }
    if !asciiOnly {
      r := ReadAround(file, base, sub);
      return;
    }
    var read := ReadFileBytes(file, base.start + sub.start, base.start + sub.end);
    ReadSlice(file, base, sub);
    if read.Some? && IsUtf8(read.value) {
      return Some(Slice(read.value, sub));
    }
    r := None;
  }

  ghost predicate IsText(read: Option<seq<byte>>) {
    read.Some? && IsUtf8(read.value)
  }

  lemma InsideIsThere(file: seq<byte>, base: Span, sub: Span)
    ensures Inside(file, base, sub) ==> StillThere(file, base, sub)
  {
  }

  /** Reading just the range gives that part of the text, or nothing when that is all there is to read. */
  lemma ReadSlice(file: seq<byte>, base: Span, sub: Span)
    requires Within(base, sub)
    ensures var text, read := BaseText(file, base), ReadFileBytes(file, base.start + sub.start, base.start + sub.end);
            && (read.Some? ==>
                  (sub.end <= |text| && read.value == text[sub.start..sub.end])
                  || (sub.start == sub.end && read.value == []))
            && (Inside(file, base, sub) ==> sub.end <= |text| && read == Some(text[sub.start..sub.end]))
            && (Inside(file, base, sub) && Ascii(text) ==> Resolves(text, sub, sub) && IsUtf8(text[sub.start..sub.end]))
  {
    hide Resolves, IsUtf8, Ascii;
    var text := BaseText(file, base);
    if base.start <= base.end && base.start + sub.end <= |file| {
      SliceOfSlice(file, Span(base.start, Min(base.end, |file|)), sub);
      AsciiResolves(text, sub);
    }
  }

  lemma WindowText(text: seq<byte>, window: Span, wanted: Span, local: Span)
    requires window.start <= window.end <= |text| && WindowResolved(text[window.start..window.end], wanted, local)
    ensures var bytes := text[window.start..window.end];
            && local.start <= local.end <= |bytes| && IsUtf8(bytes[local.start..local.end])
            && bytes[local.start..local.end] == text[window.start + local.start..window.start + local.end]
            && IsUtf8([])
  {
    SliceOfSlice(text, window, local);
  }

  lemma SliceOfSlice(s: seq<byte>, outer: Span, inner: Span)
    requires outer.start <= outer.end <= |s| && inner.start <= inner.end <= outer.end - outer.start
    ensures s[outer.start..outer.end][inner.start..inner.end] == s[outer.start + inner.start..outer.start + inner.end]
  {
    var x := s[outer.start..outer.end][inner.start..inner.end];
    var y := s[outer.start + inner.start..outer.start + inner.end];
    forall k | 0 <= k < |x|
      ensures x[k] == y[k]
    {
      assert x[k] == s[outer.start..outer.end][inner.start + k] == s[outer.start + inner.start + k];
    }
  }

  lemma AsciiResolves(text: seq<byte>, sub: Span)
    requires sub.start <= sub.end <= |text|
    ensures Ascii(text) ==> Resolves(text, sub, sub) && IsUtf8(text[sub.start..sub.end])
  {
    if Ascii(text) {
      AsciiIsWhole(text[sub.start..sub.end], 0);
    }
  }

  /** What the window of a valid text is resolved to is what the whole text resolves the range to. */
  lemma WindowResolves(text: seq<byte>, sub: Span, window: Span, local: Span)
    requires IsUtf8(text) && sub.start <= sub.end <= |text|
    requires window == Span(Minus(sub.start, LOOKAROUND), Min(sub.end + LOOKAROUND, |text|))
    requires WindowResolved(text[window.start..window.end], Span(sub.start - window.start, sub.end - window.start),
                            local)
    ensures Resolves(text, sub, Span(window.start + local.start, window.start + local.end))
  {
    hide Whole, IsUtf8, Continuation, FirstBoundary, LastBoundary;
    var bytes := text[window.start..window.end];
    var start := window.start + local.start;
    WindowStart(text, sub.start, window.start, window.end, local.start);
    FirstIsBoundary(text, sub.start, start);
    hide Boundary;
    if start <= sub.end {
      LongestInText(text, window, local, sub.end - window.start);
      forall k | start <= k <= sub.end
        ensures IsUtf8(text[start..k]) <==> k == start || Boundary(text, k)
      {
        WholeBetween(text, start, k);
      }
      LastWhole(text, start, sub.end, window.start + local.end);
    }
  }

  /** What is the longest text in the window is so in the whole text. */
  lemma LongestInText(text: seq<byte>, window: Span, local: Span, to: nat)
    requires window.start <= window.end <= |text| && local.start <= local.end <= to <= window.end - window.start
    requires var bytes := text[window.start..window.end];
             && IsUtf8(bytes[local.start..local.end])
             && forall p :: local.end < p <= to ==> !IsUtf8(bytes[local.start..p])
    ensures var start := window.start + local.start;
            && IsUtf8(text[start..window.start + local.end])
            && forall k :: window.start + local.end < k <= window.start + to ==> !IsUtf8(text[start..k])
  {
    hide IsUtf8;
    var bytes, start := text[window.start..window.end], window.start + local.start;
    SliceOfSlice(text, window, local);
    forall k | window.start + local.end < k <= window.start + to
      ensures !IsUtf8(text[start..k])
    {
      SliceOfSlice(text, window, Span(local.start, k - window.start));
      assert bytes[local.start..k - window.start] == text[start..k];
    }
  }

  lemma FirstIsBoundary(text: seq<byte>, offset: nat, k: nat)
    requires FirstBoundary(text, offset, k)
    ensures Boundary(text, k) && k <= |text|
  {
  }

  lemma LastWhole(text: seq<byte>, start: nat, end: nat, k: nat)
    requires start <= k <= end <= |text| && Boundary(text, start)
    requires forall p :: start <= p <= end ==> (IsUtf8(text[start..p]) <==> p == start || Boundary(text, p))
    requires IsUtf8(text[start..k]) && forall p :: k < p <= end ==> !IsUtf8(text[start..p])
    ensures LastBoundary(text, end, k)
  {
    hide IsUtf8;
    forall p | k < p <= end
      ensures !Boundary(text, p)
    {
      assert !IsUtf8(text[start..p]);
    }
  }

  lemma WindowStart(text: seq<byte>, offset: nat, from: nat, to: nat, localStart: nat)
    requires IsUtf8(text) && offset <= |text| && from <= offset && Min(offset + LOOKAROUND, |text|) <= to <= |text|
    requires var bytes := text[from..to];
             && offset - from <= localStart <= |bytes| && (localStart < |bytes| ==> !Continuation(bytes[localStart]))
             && (forall p :: offset - from <= p < localStart ==> Continuation(bytes[p]))
    ensures FirstBoundary(text, offset, from + localStart)
  {
    hide Whole, Continuation;
    var bytes := text[from..to];
    var start := from + localStart;
    forall p | offset <= p < start
      ensures Continuation(text[p])
    {
      assert bytes[p - from] == text[p];
    }
    var near := BoundaryNear(text, 0, offset);
    FirstByte(text);
    assert localStart < |bytes| ==> text[start] == bytes[localStart];
  }

  /** A valid text does not begin inside a character. */
  lemma FirstByte(text: seq<byte>)
    requires IsUtf8(text)
    ensures text != [] ==> !Continuation(text[0])
  {
  }

  /** Between a boundary of a valid text and a later position there is text exactly when that
      position is a boundary too. */
  lemma WholeBetween(text: seq<byte>, start: nat, k: nat)
    requires IsUtf8(text) && start <= k <= |text| && Boundary(text, start)
    ensures IsUtf8(text[start..k]) <==> k == start || Boundary(text, k)
  {
    hide Whole;
    SplitsAtBoundaries(text, 0, start);
    SplitsAtBoundaries(text, start, k);
    WholeShift(text, start, k, start, k);
  }
}
