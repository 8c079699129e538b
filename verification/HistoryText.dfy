/** Identifiers as hexadecimal text. */
module HistoryText {
  import opened Machine
  import opened Wrappers
  import opened HistoryTables
  import opened HistoryLookup

  const LETTERS: string := "0123456789abcdef"
  const CAPITALS: string := "0123456789ABCDEF"

  /** Two letters for every byte, the higher half first. */
  function IdText(id: Id): (t: string)
    ensures |t| == 2 * |id|
  {
    if id == [] then "" else [LETTERS[id[0] as int / 16], LETTERS[id[0] as int % 16]] + IdText(id[1..])
  }

  /** The encoder's loop. */
  method EncodeObjectId(bytes: Id) returns (t: string)
    ensures t == IdText(bytes)
  {
    t := "";
    for k := 0 to |bytes|
      invariant t + IdText(bytes[k..]) == IdText(bytes)
    {
      var b := bytes[k] as int;
      ghost var pair := [LETTERS[b / 16], LETTERS[b % 16]];
      assert bytes[k..][0] == bytes[k] && bytes[k..][1..] == bytes[k + 1..];
      assert IdText(bytes[k..]) == pair + IdText(bytes[k + 1..]);
      t := t + [LETTERS[b / 16], LETTERS[b % 16]];
    }
  }

  /** The text of a row's identifier. */
  method CommitText(ix: HistoryIndex, ghost commits: seq<Commit>, row: nat) returns (t: Option<string>)
    requires Searchable(ix, commits)
    ensures t == if row < |commits| then Some(IdText(commits[row].id)) else None
  {
    hide Searchable;
    var bytes := IdBytes(ix, commits, row);
    if bytes.None? {
      return None;
    }
    var text := EncodeObjectId(bytes.value);
    t := Some(text);
  }

  /** Character `c` stands for the letter `t`, in lower or upper case. */
  predicate SameLetter(c: byte, t: char) {
    exists v: nat :: v < 16 && LETTERS[v] == t && (c as int == LETTERS[v] as int || c as int == CAPITALS[v] as int)
  }

  /** The text is the beginning of the identifier's, in lower or upper case. */
  ghost predicate Spells(text: seq<byte>, id: Id) {
    |text| <= 2 * |id| && forall k: nat :: k < |text| ==> SameLetter(text[k], IdText(id)[k])
  }

  predicate IsHexLetter(c: byte) {
    || '0' as int <= c as int <= '9' as int
    || 'a' as int <= c as int <= 'f' as int
    || 'A' as int <= c as int <= 'F' as int
  }

  /** Letter for letter, the k-th half byte of the identifier. */
  lemma {:induction false} IdTextAt(id: Id, k: nat)
    requires k < 2 * |id|
    ensures IdText(id)[k] == LETTERS[if k % 2 == 0 then id[k / 2] as int / 16 else id[k / 2] as int % 16]
  {
    if k >= 2 {
      IdTextAt(id[1..], k - 2);
      assert id[1..][(k - 2) / 2] == id[k / 2];
    }
  }

  /** The letters are where they should be, and all different. */
  lemma LettersAre(v: nat)
    requires v < 16
    ensures LETTERS[v] as int == if v < 10 then 48 + v else 87 + v
    ensures CAPITALS[v] as int == if v < 10 then 48 + v else 55 + v
  {
    assert v == 0 || v == 1 || v == 2 || v == 3 || v == 4 || v == 5 || v == 6 || v == 7
           || v == 8 || v == 9 || v == 10 || v == 11 || v == 12 || v == 13 || v == 14 || v == 15;
  }

  lemma SameLetterIs(c: byte, v: nat)
    requires v < 16
    ensures SameLetter(c, LETTERS[v]) <==> c as int == LETTERS[v] as int || c as int == CAPITALS[v] as int
  {
    LettersAre(v);
    if SameLetter(c, LETTERS[v]) {
      var w: nat :|
        w < 16 && LETTERS[w] == LETTERS[v] && (c as int == LETTERS[w] as int || c as int == CAPITALS[w] as int);
      LettersAre(w);
    }
  }

  /** An identifier's own text spells it, and no other of the same length. */
  lemma IdTextSpells(id: Id, other: Id, text: seq<byte>)
    requires |id| == |other| && |text| == 2 * |id|
    requires forall k: nat :: k < |text| ==> text[k] as int == IdText(id)[k] as int
    ensures Spells(text, other) <==> other == id
  {
    forall k: nat | k < |text|
      ensures SameLetter(text[k], IdText(id)[k])
    {
      IdTextAt(id, k);
    }
    if Spells(text, other) {
      forall n | 0 <= n < |id|
        ensures id[n] == other[n]
      {
        SameByte(id, other, text, n);
      }
    }
  }

  lemma Halves(n: nat)
    ensures 2 * n / 2 == n && (2 * n + 1) / 2 == n && 2 * n % 2 == 0 && (2 * n + 1) % 2 == 1
  {
  }

  lemma SameByte(id: Id, other: Id, text: seq<byte>, n: nat)
    requires |id| == |other| && |text| == 2 * |id| && n < |id| && Spells(text, other)
    requires forall k: nat :: k < |text| ==> text[k] as int == IdText(id)[k] as int
    ensures id[n] == other[n]
  {
    hide IdText, Spells;
    Halves(n);
    SameHalf(id, other, text, 2 * n);
    SameHalf(id, other, text, 2 * n + 1);
  }

  lemma SameHalf(id: Id, other: Id, text: seq<byte>, k: nat)
    requires |id| == |other| && |text| == 2 * |id| && k < |text| && Spells(text, other)
    requires text[k] as int == IdText(id)[k] as int
    ensures if k % 2 == 0 then id[k / 2] as int / 16 == other[k / 2] as int / 16
            else id[k / 2] as int % 16 == other[k / 2] as int % 16
  {
    IdTextAt(id, k);
    IdTextAt(other, k);
    var v := if k % 2 == 0 then id[k / 2] as int / 16 else id[k / 2] as int % 16;
    var w := if k % 2 == 0 then other[k / 2] as int / 16 else other[k / 2] as int % 16;
    assert SameLetter(text[k], IdText(other)[k]);
    hide IdText, Spells, SameLetter;
    SameLetterIs(text[k], w);
    LettersAre(v);
    LettersAre(w);
  }
}
