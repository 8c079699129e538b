/** The longest prefix and suffix two sequences share. */
module Boundaries {
  import opened Machine

  /** The first `p` units agree, and no longer prefix does. */
  predicate IsCommonPrefix<T(==)>(a: seq<T>, b: seq<T>, p: nat) {
    && p <= |a| && p <= |b| && a[..p] == b[..p]
    && (p < |a| && p < |b| ==> a[p] != b[p])
  }

  /** The last `s` units agree, the suffix does not reach into the prefix, and no longer one does so. */
  predicate IsCommonSuffix<T(==)>(a: seq<T>, b: seq<T>, p: nat, s: nat) {
    && p + s <= |a| && p + s <= |b| && a[|a| - s..] == b[|b| - s..]
    && (p + s < |a| && p + s < |b| ==> a[|a| - s - 1] != b[|b| - s - 1])
  }

  method CommonPrefix<T(==)>(a: seq<T>, b: seq<T>) returns (p: nat)
    ensures IsCommonPrefix(a, b, p)
  {
    p := 0;
    while p < |a| && p < |b| && a[p] == b[p]
      invariant p <= |a| && p <= |b| && a[..p] == b[..p]
    {
      p := p + 1;
    }
  }

  method CommonSuffix<T(==)>(a: seq<T>, b: seq<T>, p: nat) returns (s: nat)
    requires p <= |a| && p <= |b|
    ensures IsCommonSuffix(a, b, p, s)
  {
    s := 0;
    while p + s < |a| && p + s < |b| && a[|a| - 1 - s] == b[|b| - 1 - s]
      invariant p + s <= |a| && p + s <= |b| && a[|a| - s..] == b[|b| - s..]
    {
      assert a[|a| - (s + 1)..] == [a[|a| - 1 - s]] + a[|a| - s..];
      assert b[|b| - (s + 1)..] == [b[|b| - 1 - s]] + b[|b| - s..];
      s := s + 1;
    }
  }

  /** Prefix and suffix are determined by the two sequences, so any two scans agree. */
  lemma BoundaryUnique<T>(a: seq<T>, b: seq<T>, p: nat, s: nat, p': nat, s': nat)
    requires IsCommonPrefix(a, b, p) && IsCommonSuffix(a, b, p, s)
    requires IsCommonPrefix(a, b, p') && IsCommonSuffix(a, b, p', s')
    ensures p == p' && s == s'
  {
    if p < p' {
      PrefixUnit(a, b, p', p);
    } else if p' < p {
      PrefixUnit(a, b, p, p');
    }
    if s < s' {
      SuffixUnit(a, b, s', s);
    } else if s' < s {
      SuffixUnit(a, b, s, s');
    }
  }

  lemma PrefixUnit<T>(a: seq<T>, b: seq<T>, p: nat, k: nat)
    requires p <= |a| && p <= |b| && a[..p] == b[..p] && k < p
    ensures a[k] == b[k]
  {
    assert a[k] == a[..p][k] == b[..p][k] == b[k];
  }

  lemma SuffixUnit<T>(a: seq<T>, b: seq<T>, s: nat, k: nat)
    requires s <= |a| && s <= |b| && a[|a| - s..] == b[|b| - s..] && k < s
    ensures a[|a| - k - 1] == b[|b| - k - 1]
  {
    assert a[|a| - k - 1] == a[|a| - s..][s - k - 1];
    assert b[|b| - k - 1] == b[|b| - s..][s - k - 1];
  }

  /** The scans as functions. */
  function PrefixLen<T(==)>(a: seq<T>, b: seq<T>): (p: nat)
    ensures IsCommonPrefix(a, b, p)
  {
    if a != [] && b != [] && a[0] == b[0] then
      var p := PrefixLen(a[1..], b[1..]);
      assert a[..p + 1] == [a[0]] + a[1..][..p] && b[..p + 1] == [b[0]] + b[1..][..p];
      p + 1
    else 0
  }

  lemma SuffixGrows<T>(a: seq<T>, b: seq<T>, p: nat, s: nat)
    requires a != [] && b != [] && a[|a| - 1] == b[|b| - 1]
    requires IsCommonSuffix(a[..|a| - 1], b[..|b| - 1], p, s)
    ensures IsCommonSuffix(a, b, p, s + 1)
  {
    var a', b' := a[..|a| - 1], b[..|b| - 1];
    assert a[|a| - (s + 1)..] == a'[|a'| - s..] + [a[|a| - 1]];
    assert b[|b| - (s + 1)..] == b'[|b'| - s..] + [b[|b| - 1]];
  }

  function SuffixLen<T(==)>(a: seq<T>, b: seq<T>, p: nat): (s: nat)
    requires p <= |a| && p <= |b|
    ensures IsCommonSuffix(a, b, p, s)
  {
    if p < |a| && p < |b| && a[|a| - 1] == b[|b| - 1] then
      var s := SuffixLen(a[..|a| - 1], b[..|b| - 1], p);
      SuffixGrows(a, b, p, s);
      s + 1
    else 0
  }

  function Boundary<T(==)>(a: seq<T>, b: seq<T>): (nat, nat) {
    var p := PrefixLen(a, b);
    (p, SuffixLen(a, b, p))
  }

  /** `Boundary` is the one and only boundary. */
  lemma BoundaryIs<T>(a: seq<T>, b: seq<T>)
    ensures IsCommonPrefix(a, b, Boundary(a, b).0) && IsCommonSuffix(a, b, Boundary(a, b).0, Boundary(a, b).1)
    ensures forall p: nat, s: nat :: IsCommonPrefix(a, b, p) && IsCommonSuffix(a, b, p, s) ==> Boundary(a, b) == (p, s)
  {
    var (p, s) := Boundary(a, b);
    forall p': nat, s': nat | IsCommonPrefix(a, b, p') && IsCommonSuffix(a, b, p', s')
      ensures p == p' && s == s'
    {
      BoundaryUnique(a, b, p, s, p', s');
    }
  }

  const WORD_BYTES: nat := 8

  /** Byte strings: compare a machine word at a time, then finish byte by byte. */
  method SharedBoundaryBytes(a: seq<byte>, b: seq<byte>) returns (prefix: nat, suffix: nat)
    ensures IsCommonPrefix(a, b, prefix) && IsCommonSuffix(a, b, prefix, suffix)
  {
    var minLen := if |a| <= |b| then |a| else |b|;
    prefix := 0;
    while prefix + WORD_BYTES <= minLen && a[prefix..prefix + WORD_BYTES] == b[prefix..prefix + WORD_BYTES]
      invariant prefix <= minLen && a[..prefix] == b[..prefix]
    {
      assert a[..prefix + WORD_BYTES] == a[..prefix] + a[prefix..prefix + WORD_BYTES];
      assert b[..prefix + WORD_BYTES] == b[..prefix] + b[prefix..prefix + WORD_BYTES];
      prefix := prefix + WORD_BYTES;
    }
    while prefix < minLen && a[prefix] == b[prefix]
      invariant prefix <= minLen && a[..prefix] == b[..prefix]
    {
      prefix := prefix + 1;
    }
    suffix := CommonSuffix(a, b, prefix);
  }

  /** Any units: one at a time. */
  method SharedBoundaryUnits<T(==)>(a: seq<T>, b: seq<T>) returns (prefix: nat, suffix: nat)
    ensures IsCommonPrefix(a, b, prefix) && IsCommonSuffix(a, b, prefix, suffix)
  {
    prefix := CommonPrefix(a, b);
    suffix := CommonSuffix(a, b, prefix);
  }
}
