/** Byte strings in lexicographic order and as big-endian numbers: on strings of one length the two
    orders agree, and leading parts of the strings decide first. */
module ByteOrder {
  import opened Machine

  function Pow256(n: nat): (p: nat)
    ensures p > 0
  {
    if n == 0 then 1 else 256 * Pow256(n - 1)
  }

  /** A leading part times the weight of what follows, plus what follows. */
  function Compose(lead: nat, weight: nat, rest: nat): nat {
    lead * weight + rest
  }

  /** The big-endian value. */
  function Value(a: seq<byte>): (v: nat)
    ensures v < Pow256(|a|)
  {
    if a == [] then 0
    else
      DigitFits(a[0] as int, Pow256(|a| - 1), Value(a[1..]));
      Compose(a[0] as int, Pow256(|a| - 1), Value(a[1..]))
  }

  lemma DigitFits(d: nat, p: nat, v: nat)
    requires d < 256 && v < p
    ensures Compose(d, p, v) < 256 * p
  {
    TimesAtMost(d, 255, p);
  }

  lemma TimesAtMost(x: nat, y: nat, p: nat)
    requires x <= y
    ensures x * p <= y * p
  {}

  /** Lexicographic order, as slices compare. */
  predicate Less(a: seq<byte>, b: seq<byte>) {
    if b == [] then false
    else if a == [] then true
    else a[0] < b[0] || (a[0] == b[0] && Less(a[1..], b[1..]))
  }

  predicate AtMost(a: seq<byte>, b: seq<byte>) {
    !Less(b, a)
  }

  /** The order is total on strings of any lengths. */
  lemma {:induction false} LessTotal(a: seq<byte>, b: seq<byte>)
    ensures Less(a, b) || Less(b, a) || a == b
    ensures !(Less(a, b) && Less(b, a))
  {
    if a != [] && b != [] {
      LessTotal(a[1..], b[1..]);
      assert a == [a[0]] + a[1..] && b == [b[0]] + b[1..];
    }
  }

  lemma {:induction false} LessTransitive(a: seq<byte>, b: seq<byte>, c: seq<byte>)
    requires Less(a, b) && Less(b, c)
    ensures Less(a, c)
  {
    if a != [] && b != [] && c != [] && a[0] == b[0] == c[0] {
      LessTransitive(a[1..], b[1..], c[1..]);
    }
  }

  lemma AtMostTransitive(a: seq<byte>, b: seq<byte>, c: seq<byte>)
    requires AtMost(a, b) && AtMost(b, c)
    ensures AtMost(a, c)
  {
    LessTotal(a, b);
    LessTotal(b, c);
    LessTotal(a, c);
    if Less(c, a) {
      if Less(a, b) {
        LessTransitive(c, a, b);
      }
    }
    hide Less;
  }

  /** On strings of one length the two orders agree, and the value determines the string. */
  lemma {:induction false} LessIsValue(a: seq<byte>, b: seq<byte>)
    requires |a| == |b|
    ensures Less(a, b) <==> Value(a) < Value(b)
    ensures a == b <==> Value(a) == Value(b)
  {
    if a != [] {
      LessIsValue(a[1..], b[1..]);
      assert a == [a[0]] + a[1..] && b == [b[0]] + b[1..];
      var p := Pow256(|a| - 1);
      if a[0] < b[0] {
        HigherDigit(a[0] as int, Value(a[1..]), b[0] as int, Value(b[1..]), p);
      } else if b[0] < a[0] {
        HigherDigit(b[0] as int, Value(b[1..]), a[0] as int, Value(a[1..]), p);
      }
      hide Less, Compose;
    }
  }

  lemma HigherDigit(d: nat, v: nat, e: nat, w: nat, p: nat)
    requires d < e && v < p
    ensures Compose(d, p, v) < Compose(e, p, w)
  {
    TimesAtMost(d + 1, e, p);
  }

  lemma {:induction false} PowAdd(n: nat, m: nat)
    ensures Pow256(n + m) == Pow256(n) * Pow256(m)
  {
    if n > 0 {
      PowAdd(n - 1, m);
      Factor(256, Pow256(n - 1), Pow256(m));
    }
  }

  lemma Factor(x: nat, y: nat, z: nat)
    ensures (x * y) * z == x * (y * z)
  {}

  lemma ComposeNested(d: nat, p: nat, m: nat, q: nat, r: nat)
    ensures Compose(d, p * q, Compose(m, q, r)) == Compose(Compose(d, p, m), q, r)
  {
    Factor(d, p, q);
    Distribute(d * p, m, q);
  }

  lemma Distribute(x: nat, y: nat, z: nat)
    ensures (x + y) * z == x * z + y * z
  {}

  lemma ValueStep(a: seq<byte>)
    requires a != []
    ensures Value(a) == Compose(a[0] as int, Pow256(|a| - 1), Value(a[1..]))
  {
  }

  /** Leading digits weigh more: a value splits at any position. */
  lemma {:induction false} SplitValue(a: seq<byte>, k: nat)
    requires k <= |a|
    ensures Value(a) == Compose(Value(a[..k]), Pow256(|a| - k), Value(a[k..]))
    decreases k
  {
    hide Value, Pow256, Compose;
    if k == 0 {
      NoLead(a);
    } else {
      var rest := a[1..];
      SplitValue(rest, k - 1);
      assert a[..k][1..] == rest[..k - 1] && a[k..] == rest[k - 1..];
      PowAdd(k - 1, |a| - k);
      ValueStep(a);
      ValueStep(a[..k]);
      ComposeNested(a[0] as int, Pow256(k - 1), Value(rest[..k - 1]), Pow256(|a| - k), Value(a[k..]));
    }
  }

  lemma NoLead(a: seq<byte>)
    ensures Value(a) == Compose(Value(a[..0]), Pow256(|a|), Value(a[0..]))
  {
    assert a[..0] == [] && a[0..] == a;
  }

  /** Dividing off the trailing digits leaves the value of the leading ones. */
  lemma LeadingDigits(a: seq<byte>, k: nat)
    requires k <= |a|
    ensures Value(a) / Pow256(|a| - k) == Value(a[..k])
  {
    SplitValue(a, k);
    ValueFits(a[k..]);
    hide *;
    var p := Pow256(|a| - k);
    Quotient(Value(a), p, Value(a[..k]), Value(a[k..]));
  }

  lemma Quotient(x: nat, p: nat, q: nat, r: nat)
    requires p > 0 && r < p && x == Compose(q, p, r)
    ensures x / p == q
  {
    var q', r' := x / p, x % p;
    if q < q' {
      TimesAtMost(q + 1, q', p);
    } else if q' < q {
      TimesAtMost(q' + 1, q, p);
    }
  }

  /** Strings are ordered first by any leading part. */
  lemma LeadingOrder(a: seq<byte>, b: seq<byte>, k: nat)
    requires |a| == |b| && k <= |a|
    ensures Value(a[..k]) < Value(b[..k]) ==> Value(a) < Value(b)
    ensures Value(a) <= Value(b) ==> Value(a[..k]) <= Value(b[..k])
  {
    hide *;
    SplitValue(a, k);
    SplitValue(b, k);
    ValueFits(a[k..]);
    ValueFits(b[k..]);
    var p := Pow256(|a| - k);
    if Value(a[..k]) < Value(b[..k]) {
      HigherDigit(Value(a[..k]), Value(a[k..]), Value(b[..k]), Value(b[k..]), p);
    } else if Value(b[..k]) < Value(a[..k]) {
      HigherDigit(Value(b[..k]), Value(b[k..]), Value(a[..k]), Value(a[k..]), p);
    }
  }

  lemma ValueFits(a: seq<byte>)
    ensures Value(a) < Pow256(|a|)
  {
  }
}
