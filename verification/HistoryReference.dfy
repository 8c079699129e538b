/** Resolving a full or abbreviated hexadecimal commit reference. */
module HistoryReference {
  import opened Machine
  import opened Wrappers
  import opened Sorting
  import opened ByteOrder
  import opened HistoryTables
  import opened HistoryLookup
  import opened HistoryText

  const MIN_PREFIX: nat := 7

  /** `(byte as char).to_digit(16)`. */
  function Digit(b: byte): (d: Option<nat>)
    ensures d.Some? ==> d.value < 16
  {
    var c := b as int;
    if 48 <= c <= 57 then Some(c - 48)
    else if 97 <= c <= 102 then Some(c - 97 + 10)
    else if 65 <= c <= 70 then Some(c - 65 + 10)
    else None
  }

  predicate IsHex(text: seq<byte>) {
    forall k :: 0 <= k < |text| ==> Digit(text[k]).Some?
  }

  function DigitAt(text: seq<byte>, k: nat): (d: nat)
    requires IsHex(text) && k < |text|
    ensures d < 16
  {
    Digit(text[k]).value
  }

  /** The k-th hexadecimal digit of an identifier. */
  function Nibble(id: Id, k: nat): nat
    requires k / 2 < |id|
  {
    if k % 2 == 0 then id[k / 2] as int / 16 else id[k / 2] as int % 16
  }

  ghost predicate StartsWith(id: Id, text: seq<byte>)
    requires IsHex(text)
  {
    |text| <= 2 * |id| && forall k: nat :: k < |text| ==> Nibble(id, k) == DigitAt(text, k)
  }

  // ----- digits and letters -----

  /** A character has digit `v` exactly when it is the letter for it, small or capital. */
  lemma DigitIsLetter(c: byte, v: nat)
    requires v < 16
    ensures Digit(c) == Some(v) <==> SameLetter(c, LETTERS[v])
  {
    SameLetterIs(c, v);
    LettersAre(v);
    hide SameLetter;
  }

  lemma HexByLetters(text: seq<byte>)
    ensures IsHex(text) <==> forall k: nat :: k < |text| ==> IsHexLetter(text[k])
  {
  }

  /** An identifier starts with the digits of a text exactly when the text spells it that far. */
  lemma StartsWithIsSpelling(id: Id, text: seq<byte>)
    requires IsHex(text)
    ensures StartsWith(id, text) <==> Spells(text, id)
  {
    hide Digit, SameLetter, Nibble;
    if |text| <= 2 * |id| {
      forall k: nat | k < |text|
        ensures Nibble(id, k) == DigitAt(text, k) <==> SameLetter(text[k], IdText(id)[k])
      {
        NibbleIsLetter(id, k);
        DigitIsLetter(text[k], Nibble(id, k));
      }
    }
  }

  lemma NibbleIsLetter(id: Id, k: nat)
    requires k < 2 * |id|
    ensures Nibble(id, k) < 16 && IdText(id)[k] == LETTERS[Nibble(id, k)]
  {
    IdTextAt(id, k);
  }

  lemma SpelledIsHex(id: Id, text: seq<byte>)
    requires Spells(text, id)
    ensures IsHex(text)
  {
    hide Digit, SameLetter, Nibble;
    forall k | 0 <= k < |text|
      ensures Digit(text[k]).Some?
    {
      NibbleIsLetter(id, k);
      DigitIsLetter(text[k], Nibble(id, k));
    }
  }

  /** The one row whose identifier the text spells that far. */
  ghost predicate OnlyRow(commits: seq<Commit>, text: seq<byte>, row: nat) {
    && row < |commits| && Spells(text, commits[row].id)
    && forall s: nat :: s < |commits| && s != row ==> !Spells(text, commits[s].id)
  }

  /** A row whose identifier the text spells, or nothing when there is none. */
  ghost predicate SpelledRow(commits: seq<Commit>, text: seq<byte>, r: Option<nat>) {
    match r
    case Some(row) => row < |commits| && Spells(text, commits[row].id)
    case None => forall row: nat :: row < |commits| ==> !Spells(text, commits[row].id)
  }

  lemma NothingSpelled(commits: seq<Commit>, text: seq<byte>)
    requires !IsHex(text)
    ensures forall row: nat :: row < |commits| ==> !Spells(text, commits[row].id)
  {
    hide IsHex, Spells;
    forall row: nat | row < |commits|
      ensures !Spells(text, commits[row].id)
    {
      if Spells(text, commits[row].id) {
        SpelledIsHex(commits[row].id, text);
      }
    }
  }

  // ----- bounds -----

  /** Byte `k` of the least identifier with the given digits. */
  function LowerAt(text: seq<byte>, k: nat): (b: byte)
    requires IsHex(text)
  {
    if 2 * k + 1 < |text| then (DigitAt(text, 2 * k) * 16 + DigitAt(text, 2 * k + 1)) as byte
    else if 2 * k < |text| then (DigitAt(text, 2 * k) * 16) as byte
    else 0
  }

  /** Byte `k` of the greatest one. */
  function UpperAt(text: seq<byte>, k: nat): (b: byte)
    requires IsHex(text)
  {
    if 2 * k + 1 < |text| then (DigitAt(text, 2 * k) * 16 + DigitAt(text, 2 * k + 1)) as byte
    else if 2 * k < |text| then (DigitAt(text, 2 * k) * 16 + 15) as byte
    else 255
  }

  ghost predicate IsLower(bytes: seq<byte>, text: seq<byte>)
    requires IsHex(text)
  {
    forall k: nat :: k < |bytes| ==> bytes[k] == LowerAt(text, k)
  }

  ghost predicate IsUpper(bytes: seq<byte>, text: seq<byte>)
    requires IsHex(text)
  {
    forall k: nat :: k < |bytes| ==> bytes[k] == UpperAt(text, k)
  }

  /** One byte: between the bounds exactly when its digits are the given ones; and once past the
      given digits the bounds exclude nothing. */
  lemma ByteBetween(id: Id, text: seq<byte>, k: nat)
    requires IsHex(text) && k < |id|
    ensures (2 * k < |text| ==> Nibble(id, 2 * k) == DigitAt(text, 2 * k))
         && (2 * k + 1 < |text| ==> Nibble(id, 2 * k + 1) == DigitAt(text, 2 * k + 1))
       <==> LowerAt(text, k) <= id[k] <= UpperAt(text, k)
    ensures |text| <= 2 * k + 2 || LowerAt(text, k) == UpperAt(text, k)
    ensures 2 * k + 1 < |text| ==> LowerAt(text, k) == UpperAt(text, k)
  {
    var d := id[k] as int;
    assert 2 * k / 2 == k && (2 * k + 1) / 2 == k && (2 * k + 1) % 2 == 1 && 2 * k % 2 == 0;
    assert d == 16 * (d / 16) + d % 16;
    hide Digit;
  }

  /** The digits from byte `k` on agree. */
  ghost predicate AgreesFrom(id: Id, text: seq<byte>, k: nat)
    requires IsHex(text)
  {
    |text| <= 2 * |id| && forall n: nat :: 2 * k <= n < |text| ==> Nibble(id, n) == DigitAt(text, n)
  }

  lemma AgreesStep(id: Id, text: seq<byte>, k: nat)
    requires IsHex(text) && k < |id| && |text| <= 2 * |id|
    ensures AgreesFrom(id, text, k) <==>
              && (2 * k < |text| ==> Nibble(id, 2 * k) == DigitAt(text, 2 * k))
              && (2 * k + 1 < |text| ==> Nibble(id, 2 * k + 1) == DigitAt(text, 2 * k + 1))
              && AgreesFrom(id, text, k + 1)
  {
    hide Nibble, Digit;
  }

  lemma LessStep(a: seq<byte>, b: seq<byte>, k: nat)
    requires k < |a| == |b|
    ensures Less(a[k..], b[k..]) <==> a[k] < b[k] || (a[k] == b[k] && Less(a[k + 1..], b[k + 1..]))
    ensures !Less(a[|a|..], b[|b|..])
  {
    assert a[k..][1..] == a[k + 1..] && b[k..][1..] == b[k + 1..];
  }

  /** Past the given digits every identifier lies between the bounds. */
  lemma {:induction false} BoundsOpen(id: Id, text: seq<byte>, lower: seq<byte>, upper: seq<byte>, k: nat)
    requires IsHex(text) && |lower| == |upper| == |id| && IsLower(lower, text) && IsUpper(upper, text)
    requires k <= |id| && |text| <= 2 * k
    ensures !Less(id[k..], lower[k..]) && !Less(upper[k..], id[k..])
    decreases |id| - k
  {
    if k < |id| {
      BoundsOpen(id, text, lower, upper, k + 1);
      LessStep(id, lower, k);
      LessStep(upper, id, k);
      hide Less;
      assert lower[k] == LowerAt(text, k) == 0 && upper[k] == UpperAt(text, k) == 255;
    }
  }

  /** Having the digits is the same as lying between the bounds. */
  lemma {:induction false} BetweenFrom(id: Id, text: seq<byte>, lower: seq<byte>, upper: seq<byte>, k: nat)
    requires IsHex(text) && |lower| == |upper| == |id| && IsLower(lower, text) && IsUpper(upper, text)
    requires k <= |id| && |text| <= 2 * |id|
    ensures AgreesFrom(id, text, k) <==> !Less(id[k..], lower[k..]) && !Less(upper[k..], id[k..])
    decreases |id| - k
  {
    if k == |id| {
      NothingLess(id, lower);
      NothingLess(upper, id);
      hide Less, Nibble, Digit;
    } else {
      BetweenFrom(id, text, lower, upper, k + 1);
      ByteBetween(id, text, k);
      AgreesStep(id, text, k);
      LessStep(id, lower, k);
      LessStep(upper, id, k);
      if |text| <= 2 * k + 2 {
        BoundsOpen(id, text, lower, upper, k + 1);
      }
      assert lower[k] == LowerAt(text, k) && upper[k] == UpperAt(text, k);
      hide Less, Nibble, Digit, LowerAt, UpperAt, AgreesFrom, IsLower, IsUpper;
    }
  }

  lemma NothingLess(a: seq<byte>, b: seq<byte>)
    requires |a| == |b|
    ensures !Less(a[|a|..], b[|b|..])
  {
  }

  lemma PrefixIsInterval(id: Id, text: seq<byte>, lower: seq<byte>, upper: seq<byte>)
    requires IsHex(text) && |lower| == |upper| == |id| && IsLower(lower, text) && IsUpper(upper, text)
             && |text| <= 2 * |id|
    ensures StartsWith(id, text) <==> Value(lower) <= Value(id) <= Value(upper)
  {
    BetweenFrom(id, text, lower, upper, 0);
    assert id[0..] == id && lower[0..] == lower && upper[0..] == upper;
    LessIsValue(id, lower);
    LessIsValue(upper, id);
    hide Less, Value, IsLower, IsUpper, Nibble, Digit;
  }

  // ----- full identifiers -----

  /** A row whose identifier starts with the digits, if any. */
  ghost predicate LocatedByDigits(commits: seq<Commit>, text: seq<byte>, r: Option<nat>) {
    match r
    case Some(row) => row < |commits| && IsHex(text) && StartsWith(commits[row].id, text)
    case None => IsHex(text) ==> forall row: nat :: row < |commits| ==> !StartsWith(commits[row].id, text)
  }

  /** The full text of an identifier spells that identifier and no other. */
  lemma FullTextIsId(id: Id, text: seq<byte>, bytes: seq<byte>)
    requires IsHex(text) && |text| == 2 * |id| == 2 * |bytes| && IsLower(bytes, text)
    ensures StartsWith(id, text) <==> id == bytes
  {
    forall k: nat | k < |bytes|
      ensures bytes[k] == UpperAt(text, k)
    {
    }
    PrefixIsInterval(id, text, bytes, bytes);
    LessIsValue(id, bytes);
    hide Less, Value, StartsWith, IsLower, IsUpper;
  }

  /** Look a full hexadecimal identifier up: in small letters or in capitals, it is found by its text. */
  method Position(ix: HistoryIndex, ghost commits: seq<Commit>, text: seq<byte>) returns (r: Option<nat>)
    requires Searchable(ix, commits)
    ensures |text| != ix.hashLen * 2 ==> r == None
    ensures |text| == ix.hashLen * 2 ==> SpelledRow(commits, text, r)
  {
    hide Searchable, LocatedByDigits, SpelledRow;
    r := PositionDigits(ix, commits, text);
    if |text| == ix.hashLen * 2 {
      LocatedIsSpelled(commits, text, r);
    }
  }

  lemma LocatedIsSpelled(commits: seq<Commit>, text: seq<byte>, r: Option<nat>)
    requires LocatedByDigits(commits, text, r)
    ensures SpelledRow(commits, text, r)
  {
    hide IsHex, StartsWith, Spells;
    if IsHex(text) {
      forall row: nat | row < |commits|
        ensures StartsWith(commits[row].id, text) <==> Spells(text, commits[row].id)
      {
        StartsWithIsSpelling(commits[row].id, text);
      }
    } else {
      NothingSpelled(commits, text);
    }
  }

  /** Looking up the text of a row's own identifier finds a row with that identifier. */
  lemma OwnTextIsFound(commits: seq<Commit>, row: nat, text: seq<byte>, r: Option<nat>)
    requires row < |commits| && forall s: nat :: s < |commits| ==> |commits[s].id| == |commits[row].id|
    requires |text| == 2 * |commits[row].id| && SpelledRow(commits, text, r)
    requires forall k: nat :: k < |text| ==> text[k] as int == IdText(commits[row].id)[k] as int
    ensures r.Some? && r.value < |commits| && commits[r.value].id == commits[row].id
  {
    hide Spells, IdText;
    IdTextSpells(commits[row].id, commits[row].id, text);
    if r.Some? {
      IdTextSpells(commits[row].id, commits[r.value].id, text);
    }
  }

  method PositionDigits(ix: HistoryIndex, ghost commits: seq<Commit>, text: seq<byte>) returns (r: Option<nat>)
    requires Searchable(ix, commits)
    ensures |text| != ix.hashLen * 2 ==> r == None
    ensures |text| == ix.hashLen * 2 ==> LocatedByDigits(commits, text, r)
  {
    hide Searchable;
    if |text| != ix.hashLen * 2 {
      return None;
    }
    HashFits(ix, commits);
    var bytes := new byte[32](_ => 0);
    var k := 0;
    while k < ix.hashLen
      invariant k <= ix.hashLen
      invariant forall i :: 0 <= i < 2 * k ==> Digit(text[i]).Some?
      invariant forall i :: 0 <= i < k ==>
                  bytes[i] as int == Digit(text[2 * i]).value * 16 + Digit(text[2 * i + 1]).value
    {
      var hi, lo := Digit(text[2 * k]), Digit(text[2 * k + 1]);
      if hi.None? || lo.None? {
        return None;
      }
      bytes[k] := (hi.value * 16 + lo.value) as byte;
      k := k + 1;
    }
    assert IsHex(text);
    var id := bytes[..ix.hashLen];
    assert IsLower(id, text);
    r := PositionBytes(ix, commits, id);
    SpelledOut(ix, commits, text, id, r);
  }

  lemma HashFits(ix: HistoryIndex, commits: seq<Commit>)
    requires Searchable(ix, commits)
    ensures ix.hashLen == 20 || ix.hashLen == 32
    ensures Lengths(ix.hashLen, commits)
  {
  }

  lemma SpelledOut(ix: HistoryIndex, commits: seq<Commit>, text: seq<byte>, id: Id, r: Option<nat>)
    requires Searchable(ix, commits) && IsHex(text) && |text| == ix.hashLen * 2 == 2 * |id| && IsLower(id, text)
    requires Located(commits, id, r)
    ensures LocatedByDigits(commits, text, r)
  {
    HashFits(ix, commits);
    hide Searchable;
    forall row: nat | row < |commits|
      ensures StartsWith(commits[row].id, text) <==> commits[row].id == id
    {
      FullTextIsId(commits[row].id, text, id);
    }
    hide StartsWith, IsLower;
  }

  // ----- abbreviations -----

  /** A row is the answer exactly when it is the only one whose identifier has the digits. */
  ghost predicate ResolvesTo(commits: seq<Commit>, text: seq<byte>, r: Option<nat>)
    requires IsHex(text)
  {
    match r
    case Some(row) =>
      && row < |commits| && StartsWith(commits[row].id, text)
      && forall s: nat :: s < |commits| && s != row ==> !StartsWith(commits[s].id, text)
    case None =>
      forall row: nat :: row < |commits| && StartsWith(commits[row].id, text) ==>
        exists s: nat :: s < |commits| && s != row && StartsWith(commits[s].id, text)
  }

  /** The least and greatest identifiers with the given digits, or nothing for a non-digit. */
  method Bounds(text: seq<byte>, h: nat) returns (ok: bool, lower: seq<byte>, upper: seq<byte>)
    requires h <= 32 && |text| <= 2 * h
    ensures ok <==> IsHex(text)
    ensures ok ==> |lower| == |upper| == h && IsLower(lower, text) && IsUpper(upper, text)
  {
    var lo := new byte[32](_ => 0);
    var hi := new byte[32](_ => 255);
    for ix := 0 to |text|
      invariant IsHex(text[..ix])
      invariant forall k: nat :: k < 32 ==> lo[k] == LowerAt(text[..ix], k) && hi[k] == UpperAt(text[..ix], k)
    {
      var digit := Digit(text[ix]);
      if digit.None? {
        return false, [], [];
      }
      assert IsHex(text[..ix + 1]);
      BoundsStep(text, ix);
      if ix % 2 == 0 {
        lo[ix / 2] := (digit.value * 16) as byte;
        hi[ix / 2] := (digit.value * 16 + 15) as byte;
      } else {
        lo[ix / 2] := lo[ix / 2] + digit.value as byte;
        hi[ix / 2] := lo[ix / 2];
      }
    }
    assert text[..|text|] == text;
    ok, lower, upper := true, lo[..h], hi[..h];
  }

  /** What one more digit changes: only the byte it belongs to. */
  lemma BoundsStep(text: seq<byte>, ix: nat)
    requires ix < |text| && IsHex(text[..ix]) && IsHex(text[..ix + 1])
    ensures forall k: nat :: k != ix / 2 ==>
              LowerAt(text[..ix + 1], k) == LowerAt(text[..ix], k)
              && UpperAt(text[..ix + 1], k) == UpperAt(text[..ix], k)
    ensures var d := Digit(text[ix]).value;
            if ix % 2 == 0 then
              LowerAt(text[..ix + 1], ix / 2) as int == d * 16 && UpperAt(text[..ix + 1], ix / 2) as int == d * 16 + 15
            else
              && LowerAt(text[..ix + 1], ix / 2) as int == LowerAt(text[..ix], ix / 2) as int + d
              && LowerAt(text[..ix], ix / 2) as int + d < 256
              && UpperAt(text[..ix + 1], ix / 2) == LowerAt(text[..ix + 1], ix / 2)
  {
    var before, after := text[..ix], text[..ix + 1];
    forall k: nat | k < ix
      ensures DigitAt(after, k) == DigitAt(before, k)
    {
      assert after[k] == before[k];
    }
    assert after[ix] == text[ix] && Digit(after[ix]).Some?;
    hide Digit;
  }

  /** The values of the sorted rows relative to a bound. */
  method FirstAtLeast(ix: HistoryIndex, ghost commits: seq<Commit>, bound: Id) returns (start: nat)
    requires Searchable(ix, commits) && |bound| == ix.hashLen
    ensures start <= |ix.sortedRows| && RowsInRange(ix.sortedRows, commits)
    ensures forall i: nat :: i < start ==> RowValue(commits, ix.sortedRows, i) < Value(bound)
    ensures forall i: nat :: start <= i < |ix.sortedRows| ==> RowValue(commits, ix.sortedRows, i) >= Value(bound)
  {
    SortedKnown(ix, commits);
    hide Searchable, Value;
    var rows := ix.sortedRows;
    var below := (i: nat) requires i < |rows| && Searchable(ix, commits) && rows[i] as int < |commits| =>
        Less(RowId(ix, commits, rows[i]), bound);
    forall i: nat | i < |rows|
      ensures below(i) <==> RowValue(commits, rows, i) < Value(bound)
    {
      LessIsValue(RowId(ix, commits, rows[i]), bound);
    }
    start := PartitionPoint(|rows|, below);
    forall i: nat | i < start
      ensures RowValue(commits, rows, i) < Value(bound)
    {
      assert below(i);
    }
    forall i: nat | start <= i < |rows|
      ensures RowValue(commits, rows, i) >= Value(bound)
    {
      assert !below(i);
    }
  }

  lemma SortedKnown(ix: HistoryIndex, commits: seq<Commit>)
    requires Searchable(ix, commits)
    ensures SortedRows(ix.sortedRows, commits) && Lengths(ix.hashLen, commits)
  {
  }

  /** Resolve a full identifier, or an abbreviation of at least seven digits that only one commit has. */
  method ResolveReference(ix: HistoryIndex, ghost commits: seq<Commit>, text: seq<byte>) returns (r: Option<nat>)
    requires Searchable(ix, commits)
    ensures |text| < 7 || |text| > 2 * ix.hashLen ==> r == None
    ensures (exists k: nat :: k < |text| && !IsHexLetter(text[k])) ==> r == None
    ensures 7 <= |text| < 2 * ix.hashLen ==> forall row: nat :: r == Some(row) <==> OnlyRow(commits, text, row)
    ensures |text| == 2 * ix.hashLen ==> SpelledRow(commits, text, r)
  {
    hide Searchable, IsLower, IsUpper, IsHexLetter, IsHex, OnlyRow, SpelledRow, Spells, ResolvesTo, LocatedByDigits;
    r := ResolveDigits(ix, commits, text);
    HexByLetters(text);
    if |text| == 2 * ix.hashLen {
      LocatedIsSpelled(commits, text, r);
    } else if IsHex(text) {
      ResolvedByLetters(commits, text, r);
    } else {
      NothingNamed(commits, text);
    }
  }

  lemma NothingNamed(commits: seq<Commit>, text: seq<byte>)
    requires !IsHex(text)
    ensures forall row: nat :: !OnlyRow(commits, text, row)
  {
    hide IsHex, Spells;
    NothingSpelled(commits, text);
  }

  lemma ResolvedByLetters(commits: seq<Commit>, text: seq<byte>, r: Option<nat>)
    requires IsHex(text)
    ensures ResolvesTo(commits, text, r) ==> forall row: nat :: r == Some(row) <==> OnlyRow(commits, text, row)
  {
    hide IsHex, StartsWith, Spells;
    forall row: nat | row < |commits|
      ensures StartsWith(commits[row].id, text) <==> Spells(text, commits[row].id)
    {
      StartsWithIsSpelling(commits[row].id, text);
    }
  }

  method ResolveDigits(ix: HistoryIndex, ghost commits: seq<Commit>, text: seq<byte>) returns (r: Option<nat>)
    requires Searchable(ix, commits)
    ensures |text| == 2 * ix.hashLen ==> LocatedByDigits(commits, text, r)
    ensures |text| < MIN_PREFIX || |text| > 2 * ix.hashLen || !IsHex(text) ==> r == None
    ensures MIN_PREFIX <= |text| < 2 * ix.hashLen && IsHex(text) ==> ResolvesTo(commits, text, r)
  {
    hide Searchable, IsLower, IsUpper;
    HashFits(ix, commits);
    if |text| == ix.hashLen * 2 {
      r := PositionDigits(ix, commits, text);
      return;
    }
    if !(MIN_PREFIX <= |text| < ix.hashLen * 2) {
      return None;
    }
    var ok, lower, upper := Bounds(text, ix.hashLen);
    if !ok {
      return None;
    }
    r := OnlyBetween(ix, commits, text, lower, upper);
  }

  /** The one row between the bounds, if there is exactly one. */
  method OnlyBetween(ix: HistoryIndex, ghost commits: seq<Commit>, ghost text: seq<byte>, lower: Id, upper: Id)
    returns (r: Option<nat>)
    requires Searchable(ix, commits) && IsHex(text) && |text| <= 2 * ix.hashLen
    requires |lower| == |upper| == ix.hashLen && IsLower(lower, text) && IsUpper(upper, text)
    ensures ResolvesTo(commits, text, r)
  {
    hide *;
    var start, end := FirstMatch(ix, commits, text, lower, upper);
    if start >= |ix.sortedRows| {
      NoMatch(commits, ix.sortedRows, text, start, end);
      return None;
    }
    var row := RowKnown(ix, commits, start);
    AboveUpper(ix, commits, upper, start, start, end);
    if Less(upper, RowId(ix, commits, row)) {
      NoMatch(commits, ix.sortedRows, text, start, end);
      return None;
    }
    if start + 1 < |ix.sortedRows| {
      var next := RowKnown(ix, commits, start + 1);
      AboveUpper(ix, commits, upper, start, start + 1, end);
      if !Less(upper, RowId(ix, commits, next)) {
        TwoMatches(commits, ix.sortedRows, text, start, end);
        return None;
      }
    }
    OneMatch(commits, ix.sortedRows, text, start, end);
    r := Some(row as int);
  }

  /** Up to `end` the sorted identifiers are at most `upper`. */
  ghost predicate AtMostUpper(ix: HistoryIndex, commits: seq<Commit>, upper: Id, start: nat, end: nat) {
    && RowsInRange(ix.sortedRows, commits)
    && forall i: nat :: start <= i < |ix.sortedRows| ==>
         (RowValue(commits, ix.sortedRows, i) <= Value(upper) <==> i < end)
  }

  method FirstMatch(ix: HistoryIndex, ghost commits: seq<Commit>, ghost text: seq<byte>, lower: Id, ghost upper: Id)
    returns (start: nat, ghost end: nat)
    requires Searchable(ix, commits) && IsHex(text) && |text| <= 2 * ix.hashLen
    requires |lower| == |upper| == ix.hashLen && IsLower(lower, text) && IsUpper(upper, text)
    ensures Matching(commits, ix.sortedRows, text, start, end) && start <= end <= |ix.sortedRows|
    ensures AtMostUpper(ix, commits, upper, start, end)
  {
    hide Searchable, Value, RowValue, IsLower, IsUpper, IsHex;
    start := FirstAtLeast(ix, commits, lower);
    end := MatchRange(ix, commits, text, lower, upper, start);
  }

  method RowKnown(ix: HistoryIndex, ghost commits: seq<Commit>, at: nat) returns (row: u32)
    requires Searchable(ix, commits) && at < |ix.sortedRows|
    ensures row == ix.sortedRows[at] && row as int < |commits|
  {
    row := ix.sortedRows[at];
  }

  /** The sorted entries that have the digits are exactly those from `start` up to `end`. */
  ghost predicate Matching(commits: seq<Commit>, rows: seq<u32>, text: seq<byte>, start: nat, end: nat) {
    && IsHex(text) && SortedRows(rows, commits) && start <= end <= |rows|
    && forall i: nat :: i < |rows| ==> (StartsWith(commits[rows[i] as int].id, text) <==> start <= i < end)
  }

  lemma {:induction false} UpperEnd(rows: seq<u32>, commits: seq<Commit>, bound: nat, n: nat) returns (end: nat)
    requires SortedRows(rows, commits) && n <= |rows|
    ensures end <= n && forall i: nat :: i < n ==> (RowValue(commits, rows, i) <= bound <==> i < end)
    decreases n
  {
    hide RowValue, Listed;
    if n == 0 {
      end := 0;
    } else {
      end := UpperEnd(rows, commits, bound, n - 1);
      if RowValue(commits, rows, n - 1) <= bound {
        end := n;
      }
    }
  }

  lemma MatchRange(ix: HistoryIndex, commits: seq<Commit>, text: seq<byte>, lower: Id, upper: Id, start: nat)
    returns (end: nat)
    requires Searchable(ix, commits) && IsHex(text) && |text| <= 2 * ix.hashLen
    requires |lower| == |upper| == ix.hashLen && IsLower(lower, text) && IsUpper(upper, text)
    requires start <= |ix.sortedRows| && RowsInRange(ix.sortedRows, commits)
    requires forall i: nat :: i < start ==> RowValue(commits, ix.sortedRows, i) < Value(lower)
    requires forall i: nat :: start <= i < |ix.sortedRows| ==> RowValue(commits, ix.sortedRows, i) >= Value(lower)
    ensures Matching(commits, ix.sortedRows, text, start, end)
    ensures start <= end && forall i: nat :: start <= i < |ix.sortedRows| ==>
              (RowValue(commits, ix.sortedRows, i) <= Value(upper) <==> i < end)
  {
    SortedKnown(ix, commits);
    var rows := ix.sortedRows;
    var below := UpperEnd(rows, commits, Value(upper), |rows|);
    end := if below < start then start else below;
    hide Searchable, Value, IsLower, IsUpper, StartsWith, SortedRows, Less;
    forall i: nat | i < |rows|
      ensures StartsWith(commits[rows[i] as int].id, text) <==> start <= i < end
    {
      var id := commits[rows[i] as int].id;
      assert RowValue(commits, rows, i) == Value(id);
      PrefixIsInterval(id, text, lower, upper);
    }
  }

  lemma AboveUpper(ix: HistoryIndex, commits: seq<Commit>, upper: Id, start: nat, at: nat, end: nat)
    requires Searchable(ix, commits) && |upper| == ix.hashLen && start <= at < |ix.sortedRows|
    requires AtMostUpper(ix, commits, upper, start, end)
    ensures ix.sortedRows[at] as int < |commits|
    ensures Less(upper, RowId(ix, commits, ix.sortedRows[at])) <==> at >= end
  {
    hide Searchable, Value;
    assert RowValue(commits, ix.sortedRows, at) <= Value(upper) <==> at < end;
    LessIsValue(upper, RowId(ix, commits, ix.sortedRows[at]));
  }

  lemma RowAt(commits: seq<Commit>, rows: seq<u32>, row: nat) returns (i: nat)
    requires SortedRows(rows, commits) && row < |commits|
    ensures i < |rows| && rows[i] as int == row
  {
    assert Listed(rows, row);
    i :| i < |rows| && rows[i] as int == row;
  }

  lemma NoMatch(commits: seq<Commit>, rows: seq<u32>, text: seq<byte>, start: nat, end: nat)
    requires Matching(commits, rows, text, start, end) && start == end
    ensures ResolvesTo(commits, text, None)
  {
    hide StartsWith;
    forall row: nat | row < |commits|
      ensures !StartsWith(commits[row].id, text)
    {
      var i := RowAt(commits, rows, row);
    }
  }

  lemma TwoMatches(commits: seq<Commit>, rows: seq<u32>, text: seq<byte>, start: nat, end: nat)
    requires Matching(commits, rows, text, start, end) && start + 1 < end
    ensures ResolvesTo(commits, text, None)
  {
    hide StartsWith;
    var r, s := rows[start] as int, rows[start + 1] as int;
    assert StartsWith(commits[r].id, text) && StartsWith(commits[s].id, text) && r != s;
  }

  lemma OneMatch(commits: seq<Commit>, rows: seq<u32>, text: seq<byte>, start: nat, end: nat)
    requires Matching(commits, rows, text, start, end) && start + 1 == end
    ensures ResolvesTo(commits, text, Some(rows[start] as int))
  {
    hide StartsWith;
    forall s: nat | s < |commits| && s != rows[start] as int
      ensures !StartsWith(commits[s].id, text)
    {
      var i := RowAt(commits, rows, s);
    }
  }
}
