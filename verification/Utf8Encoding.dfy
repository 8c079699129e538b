/** Well-formed byte sequences are the encodings of character numbers (section 3 of RFC 3629). */
module Utf8Encoding {
  import opened Machine
  import opened Utf8

  /** The numbers characters have: all up to 0x10FFFF but the surrogates. */
  predicate Scalar(c: nat) {
    c < 0xD800 || 0xE000 <= c < 0x11_0000
  }

  function Encoded(c: nat): seq<byte>
    requires Scalar(c)
  {
    if c < 0x80 then [c as byte]
    else if c < 0x800 then [(0xC0 + c / 64) as byte, (0x80 + c % 64) as byte]
    else if c < 0x1_0000 then
      [(0xE0 + c / 64 / 64) as byte, (0x80 + c / 64 % 64) as byte, (0x80 + c % 64) as byte]
    else
      [(0xF0 + c / 64 / 64 / 64) as byte, (0x80 + c / 64 / 64 % 64) as byte, (0x80 + c / 64 % 64) as byte,
       (0x80 + c % 64) as byte]
  }

  /** What a leading byte and the bytes after it contribute, six bits each. */
  function Six(high: nat, b: byte): nat
    requires b >= 0x80
  {
    high * 64 + (b as int - 0x80)
  }

  /** The number of the character at `i`, whose width is known. */
  function NumberAt(b: seq<byte>, i: nat): nat
    requires i < |b| && Width(b, i) > 0
  {
    var w := Width(b, i);
    if w == 1 then b[i] as int
    else if w == 2 then Six(b[i] as int - 0xC0, b[i + 1])
    else if w == 3 then Six(Six(b[i] as int - 0xE0, b[i + 1]), b[i + 2])
    else Six(Six(Six(b[i] as int - 0xF0, b[i + 1]), b[i + 2]), b[i + 3])
  }

  lemma SixSplits(high: nat, b: byte)
    requires 0x80 <= b < 0xC0
    ensures Six(high, b) / 64 == high && Six(high, b) % 64 == b as int - 0x80
  {
  }

  lemma Slices(b: seq<byte>, i: nat)
    ensures i + 1 <= |b| ==> b[i..i + 1] == [b[i]]
    ensures i + 2 <= |b| ==> b[i..i + 2] == [b[i], b[i + 1]]
    ensures i + 3 <= |b| ==> b[i..i + 3] == [b[i], b[i + 1], b[i + 2]]
    ensures i + 4 <= |b| ==> b[i..i + 4] == [b[i], b[i + 1], b[i + 2], b[i + 3]]
  {
  }

  lemma TwoEncode(x: byte, y: byte)
    requires 0xC2 <= x <= 0xDF && 0x80 <= y < 0xC0
    ensures var c := Six(x as int - 0xC0, y); Scalar(c) && Encoded(c) == [x, y]
  {
    SixSplits(x as int - 0xC0, y);
  }

  lemma ThreeEncode(x: byte, y: byte, z: byte)
    requires 0xE0 <= x <= 0xEF && 0x80 <= y < 0xC0 && 0x80 <= z < 0xC0
    requires (x == 0xE0 ==> y >= 0xA0) && (x == 0xED ==> y < 0xA0)
    ensures var c := Six(Six(x as int - 0xE0, y), z); Scalar(c) && Encoded(c) == [x, y, z]
  {
    var high := Six(x as int - 0xE0, y);
    SixSplits(x as int - 0xE0, y);
    SixSplits(high, z);
    var c := Six(high, z);
    assert c < 0xD800 || 0xE000 <= c < 0x1_0000;
    assert c / 64 == high && c / 64 / 64 == x as int - 0xE0;
  }

  lemma FourEncode(x: byte, y: byte, z: byte, u: byte)
    requires 0xF0 <= x <= 0xF4 && 0x80 <= y < 0xC0 && 0x80 <= z < 0xC0 && 0x80 <= u < 0xC0
    requires (x == 0xF0 ==> y >= 0x90) && (x == 0xF4 ==> y < 0x90)
    ensures var c := Six(Six(Six(x as int - 0xF0, y), z), u); Scalar(c) && Encoded(c) == [x, y, z, u]
  {
    var high := Six(x as int - 0xF0, y);
    var middle := Six(high, z);
    SixSplits(x as int - 0xF0, y);
    SixSplits(high, z);
    SixSplits(middle, u);
    var c := Six(middle, u);
    assert 0x1_0000 <= c < 0x11_0000;
    assert c / 64 == middle && c / 64 / 64 == high && c / 64 / 64 / 64 == x as int - 0xF0;
  }

  /** A character of some width is the encoding of its number. */
  lemma NumberEncodes(b: seq<byte>, i: nat)
    requires i < |b| && Width(b, i) > 0
    ensures Scalar(NumberAt(b, i)) && Encoded(NumberAt(b, i)) == b[i..i + Width(b, i)]
  {
    Slices(b, i);
    var w := Width(b, i);
    if w == 2 {
      TwoEncode(b[i], b[i + 1]);
    } else if w == 3 {
      ThreeEncode(b[i], b[i + 1], b[i + 2]);
    } else if w == 4 {
      FourEncode(b[i], b[i + 1], b[i + 2], b[i + 3]);
    }
    hide Six;
  }

  /** The bytes of an encoding are in the ranges that make them a character. */
  lemma EncodedRanges(c: nat)
    requires Scalar(c)
    ensures var e := Encoded(c);
            && |e| in {1, 2, 3, 4}
            && (forall k :: 0 < k < |e| ==> Continuation(e[k]))
            && (|e| == 1 ==> e[0] < 0x80)
            && (|e| == 2 ==> 0xC2 <= e[0] <= 0xDF)
            && (|e| == 3 ==> 0xE0 <= e[0] <= 0xEF && (e[0] == 0xE0 ==> e[1] >= 0xA0) && (e[0] == 0xED ==> e[1] < 0xA0))
            && (|e| == 4 ==> 0xF0 <= e[0] <= 0xF4 && (e[0] == 0xF0 ==> e[1] >= 0x90) && (e[0] == 0xF4 ==> e[1] < 0x90))
  {
  }

  lemma RangesMakeWidth(b: seq<byte>, i: nat, n: nat)
    requires 1 <= n <= 4 && i + n <= |b| && forall k :: i < k < i + n ==> Continuation(b[k])
    requires n == 1 ==> b[i] < 0x80
    requires n == 2 ==> 0xC2 <= b[i] <= 0xDF
    requires n == 3 ==>
               0xE0 <= b[i] <= 0xEF && (b[i] == 0xE0 ==> b[i + 1] >= 0xA0) && (b[i] == 0xED ==> b[i + 1] < 0xA0)
    requires n == 4 ==>
               0xF0 <= b[i] <= 0xF4 && (b[i] == 0xF0 ==> b[i + 1] >= 0x90) && (b[i] == 0xF4 ==> b[i + 1] < 0x90)
    ensures Width(b, i) == n
  {
  }

  /** And an encoding is a character of that width. */
  lemma EncodedHasWidth(c: nat, b: seq<byte>, i: nat)
    requires Scalar(c) && i + |Encoded(c)| <= |b| && b[i..i + |Encoded(c)|] == Encoded(c)
    ensures Width(b, i) == |Encoded(c)| && |Encoded(c)| > 0
  {
    EncodedRanges(c);
    hide Encoded, Width;
    var e := Encoded(c);
    forall k | 0 <= k < |e|
      ensures b[i + k] == e[k]
    {
      assert b[i + k] == b[i..i + |e|][k];
    }
    forall k | i < k < i + |e|
      ensures Continuation(b[k])
    {
      assert b[k] == b[i..i + |e|][k - i];
    }
    assert |e| > 1 ==> b[i + 1] == e[1];
    assert b[i + 0] == e[0];
    RangesMakeWidth(b, i, |e|);
  }

  ghost predicate Scalars(text: seq<nat>) {
    forall k :: 0 <= k < |text| ==> Scalar(text[k])
  }

  function EncodedAll(text: seq<nat>): seq<byte>
    requires forall k :: 0 <= k < |text| ==> Scalar(text[k])
  {
    if text == [] then [] else Encoded(text[0]) + EncodedAll(text[1..])
  }

  lemma {:induction false} WholeDecodes(b: seq<byte>, i: nat) returns (text: seq<nat>)
    requires i <= |b| && Whole(b, i, |b|)
    ensures Scalars(text) && EncodedAll(text) == b[i..]
    decreases |b| - i
  {
    hide Width, Scalar, Encoded, NumberAt;
    if i == |b| {
      text := [];
    } else {
      var rest := WholeDecodes(b, i + Width(b, i));
      NumberEncodes(b, i);
      text := [NumberAt(b, i)] + rest;
      assert text[1..] == rest;
      assert b[i..] == b[i..i + Width(b, i)] + b[i + Width(b, i)..];
    }
  }

  lemma {:induction false} EncodedIsWhole(text: seq<nat>, b: seq<byte>, i: nat)
    requires Scalars(text) && i <= |b| && b[i..] == EncodedAll(text)
    ensures Whole(b, i, |b|)
    decreases |text|
  {
    hide Width, Scalar, Encoded;
    if text != [] {
      var e := Encoded(text[0]);
      assert b[i..][..|e|] == e && b[i..][|e|..] == EncodedAll(text[1..]);
      assert b[i..i + |e|] == b[i..][..|e|] && b[i + |e|..] == b[i..][|e|..];
      EncodedHasWidth(text[0], b, i);
      EncodedIsWhole(text[1..], b, i + |e|);
    }
  }

  /** The bytes are well-formed exactly when they are the encoding of some characters. */
  lemma Utf8IsEncoding(b: seq<byte>)
    ensures IsUtf8(b) <==> exists text: seq<nat> :: Scalars(text) && EncodedAll(text) == b
  {
    hide Whole, EncodedAll, Scalar;
    assert b[0..] == b;
    if IsUtf8(b) {
      var text := WholeDecodes(b, 0);
    }
    if exists text: seq<nat> :: Scalars(text) && EncodedAll(text) == b {
      var text: seq<nat> :| Scalars(text) && EncodedAll(text) == b;
      EncodedIsWhole(text, b, 0);
    }
  }
}
