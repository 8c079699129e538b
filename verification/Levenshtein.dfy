module Levenshtein {
  // Edit distance with substitutions: its recursive definition, what trimming shared ends does to
  // it, and the single-row dynamic program that computes it.

  function Min(x: int, y: int): int {
    if x <= y then x else y
  }

  function Max(x: int, y: int): int {
    if x <= y then y else x
  }

  /** Distance between the first `i` units of `a` and the first `j` units of `b`. */
  function Lev<T(==)>(a: seq<T>, b: seq<T>, i: nat, j: nat): nat
    requires i <= |a| && j <= |b|
  {
    if i == 0 then j
    else if j == 0 then i
    else Min(Lev(a, b, i - 1, j - 1) + (if a[i - 1] == b[j - 1] then 0 else 1),
             Min(Lev(a, b, i - 1, j), Lev(a, b, i, j - 1)) + 1)
  }

  function Distance<T(==)>(a: seq<T>, b: seq<T>): nat {
    Lev(a, b, |a|, |b|)
  }

  /** One cell of the table, for proofs that keep the recursion folded. */
  lemma Cell<T>(a: seq<T>, b: seq<T>, i: nat, j: nat)
    requires i < |a| && j < |b|
    ensures Lev(a, b, i + 1, j + 1)
         == Min(Lev(a, b, i, j) + (if a[i] == b[j] then 0 else 1), Min(Lev(a, b, i, j + 1), Lev(a, b, i + 1, j)) + 1)
  {
  }

  lemma Edges<T>(a: seq<T>, b: seq<T>)
    ensures forall i {:trigger Lev(a, b, i, 0)} :: 0 <= i <= |a| ==> Lev(a, b, i, 0) == i
    ensures forall j {:trigger Lev(a, b, 0, j)} :: 0 <= j <= |b| ==> Lev(a, b, 0, j) == j
  {
  }

  lemma {:induction false} Symmetric<T>(a: seq<T>, b: seq<T>, i: nat, j: nat)
    requires i <= |a| && j <= |b|
    ensures Lev(a, b, i, j) == Lev(b, a, j, i)
    decreases i + j
  {
    hide Lev;
    if i == 0 || j == 0 {
      Edges(a, b);
      Edges(b, a);
    } else {
      Symmetric(a, b, i - 1, j - 1);
      Symmetric(a, b, i - 1, j);
      Symmetric(a, b, i, j - 1);
      Cell(a, b, i - 1, j - 1);
      Cell(b, a, j - 1, i - 1);
    }
  }

  /** The differences around the square below cell (i, j). */
  lemma {:induction false} Square<T>(a: seq<T>, b: seq<T>, i: nat, j: nat)
    requires i < |a| && j < |b|
    ensures -1 <= Lev(a, b, i + 1, j) - Lev(a, b, i, j) <= 1
    ensures -1 <= Lev(a, b, i, j + 1) - Lev(a, b, i, j) <= 1
    ensures -1 <= Lev(a, b, i + 1, j + 1) - Lev(a, b, i, j + 1) <= 1
    ensures -1 <= Lev(a, b, i + 1, j + 1) - Lev(a, b, i + 1, j) <= 1
    ensures 0 <= Lev(a, b, i + 1, j + 1) - Lev(a, b, i, j) <= 1
    decreases i + j
  {
    hide Lev;
    Edges(a, b);
    if j > 0 {
      Square(a, b, i, j - 1);
    }
    if i > 0 {
      Square(a, b, i - 1, j);
    }
    Cell(a, b, i, j);
  }

  /** Neighbouring cells differ by at most one, and the diagonal never decreases. */
  lemma Neighbours<T>(a: seq<T>, b: seq<T>, i: nat, j: nat)
    requires i <= |a| && j <= |b|
    ensures i < |a| ==> -1 <= Lev(a, b, i + 1, j) - Lev(a, b, i, j) <= 1
    ensures j < |b| ==> -1 <= Lev(a, b, i, j + 1) - Lev(a, b, i, j) <= 1
    ensures i < |a| && j < |b| ==> 0 <= Lev(a, b, i + 1, j + 1) - Lev(a, b, i, j) <= 1
  {
    hide Lev;
    Edges(a, b);
    if i < |a| && j < |b| {
      Square(a, b, i, j);
    } else if i < |a| && j > 0 {
      Square(a, b, i, j - 1);
    } else if j < |b| && i > 0 {
      Square(a, b, i - 1, j);
    }
  }

  /** The distance depends only on the two prefixes. */
  lemma {:induction false} PrefixOnly<T>(a: seq<T>, b: seq<T>, a': seq<T>, b': seq<T>, i: nat, j: nat)
    requires i <= |a| && j <= |b| && i <= |a'| && j <= |b'|
    requires a[..i] == a'[..i] && b[..j] == b'[..j]
    ensures Lev(a, b, i, j) == Lev(a', b', i, j)
    decreases i + j
  {
    if i > 0 && j > 0 {
      assert a[i - 1] == a[..i][i - 1] == a'[i - 1] && b[j - 1] == b[..j][j - 1] == b'[j - 1];
      assert a[..i - 1] == a[..i][..i - 1] == a'[..i - 1] && b[..j - 1] == b[..j][..j - 1] == b'[..j - 1];
      PrefixOnly(a, b, a', b', i - 1, j - 1);
      PrefixOnly(a, b, a', b', i - 1, j);
      PrefixOnly(a, b, a', b', i, j - 1);
    }
  }

  /** The distance is zero only between equal prefixes, and no more than the longer side. */
  lemma {:induction false} LevBounds<T>(a: seq<T>, b: seq<T>, i: nat, j: nat)
    requires i <= |a| && j <= |b|
    ensures Lev(a, b, i, j) <= Max(i, j)
    ensures i - j <= Lev(a, b, i, j) && j - i <= Lev(a, b, i, j)
    decreases i + j
  {
    hide Lev;
    Edges(a, b);
    if i > 0 && j > 0 {
      Cell(a, b, i - 1, j - 1);
      LevBounds(a, b, i - 1, j - 1);
      LevBounds(a, b, i - 1, j);
      LevBounds(a, b, i, j - 1);
    }
  }

  // ----- trimming -----

  lemma SameEnds<T>(a: seq<T>, b: seq<T>, i: nat, j: nat, k: nat)
    requires 0 < k && i + k <= |a| && j + k <= |b| && a[i..i + k] == b[j..j + k]
    ensures a[i + k - 1] == b[j + k - 1] && a[i..i + k - 1] == b[j..j + k - 1]
  {
    var x, y := a[i..i + k], b[j..j + k];
    var u, v := a[i..i + k - 1], b[j..j + k - 1];
    assert a[i + (k - 1)] == x[k - 1] == y[k - 1] == b[j + (k - 1)];
    forall n | 0 <= n < k - 1
      ensures u[n] == v[n]
    {
      assert u[n] == x[n] && v[n] == y[n];
    }
  }

  /** `k` shared last units can be dropped. */
  lemma {:induction false} DropLast<T>(a: seq<T>, b: seq<T>, i: nat, j: nat, k: nat)
    requires k <= i <= |a| && k <= j <= |b|
    requires a[i - k..i] == b[j - k..j]
    ensures Lev(a, b, i, j) == Lev(a, b, i - k, j - k)
    decreases k
  {
    hide Lev;
    if k > 0 {
      SameEnds(a, b, i - k, j - k, k);
      SameDiagonal(a, b, i - 1, j - 1);
      DropLast(a, b, i - 1, j - 1, k - 1);
    }
  }

  /** Equal units cost nothing: the cheapest way to the next diagonal cell is the diagonal step. */
  lemma SameDiagonal<T>(a: seq<T>, b: seq<T>, i: nat, j: nat)
    requires i < |a| && j < |b| && a[i] == b[j]
    ensures Lev(a, b, i + 1, j + 1) == Lev(a, b, i, j)
  {
    hide Lev;
    Cell(a, b, i, j);
    Neighbours(a, b, i, j);
  }

  /** A shared first unit can be dropped. */
  lemma {:induction false} DropFirst<T>(x: T, a: seq<T>, b: seq<T>, i: nat, j: nat)
    requires i <= |a| && j <= |b|
    ensures Lev([x] + a, [x] + b, i + 1, j + 1) == Lev(a, b, i, j)
    decreases i + j
  {
    hide Lev;
    var a', b' := [x] + a, [x] + b;
    if i == 0 || j == 0 {
      Edges(a, b);
      LevBounds(a', b', i + 1, j + 1);
      DropFirstBase(x, a, b, i, j);
    } else {
      assert a'[i] == a[i - 1] && b'[j] == b[j - 1];
      Cell(a', b', i, j);
      Cell(a, b, i - 1, j - 1);
      DropFirst(x, a, b, i - 1, j - 1);
      DropFirst(x, a, b, i - 1, j);
      DropFirst(x, a, b, i, j - 1);
    }
  }

  lemma {:induction false} DropFirstBase<T>(x: T, a: seq<T>, b: seq<T>, i: nat, j: nat)
    requires i <= |a| && j <= |b| && (i == 0 || j == 0)
    ensures Lev([x] + a, [x] + b, i + 1, j + 1) <= i + j
    decreases i + j
  {
    if i == 0 && j > 0 {
      DropFirstBase(x, a, b, i, j - 1);
    } else if i > 0 {
      DropFirstBase(x, a, b, i - 1, j);
    }
  }

  lemma {:induction false} DropPrefix<T>(a: seq<T>, b: seq<T>, k: nat)
    requires k <= |a| && k <= |b| && a[..k] == b[..k]
    ensures Distance(a, b) == Distance(a[k..], b[k..])
    decreases k
  {
    hide Lev;
    if k == 0 {
      assert a[0..] == a && b[0..] == b;
    } else {
      assert a[0] == a[..k][0] == b[..k][0] == b[0];
      assert a == [a[0]] + a[1..] && b == [b[0]] + b[1..];
      DropFirst(a[0], a[1..], b[1..], |a| - 1, |b| - 1);
      assert a[1..][..k - 1] == a[..k][1..] == b[..k][1..] == b[1..][..k - 1];
      DropPrefix(a[1..], b[1..], k - 1);
      assert a[1..][k - 1..] == a[k..] && b[1..][k - 1..] == b[k..];
    }
  }

  /** Dropping `p` agreeing units at the front and `s` at the back keeps the distance. */
  lemma TrimKeepsDistance<T>(a: seq<T>, b: seq<T>, p: nat, s: nat)
    requires p + s <= |a| && p + s <= |b|
    requires a[..p] == b[..p]
    requires a[|a| - s..] == b[|b| - s..]
    ensures Distance(a, b) == Distance(a[p..|a| - s], b[p..|b| - s])
  {
    hide Lev;
    var a', b' := a[..|a| - s], b[..|b| - s];
    DropSuffix(a, b, s);
    assert a'[..p] == a[..p] && b'[..p] == b[..p];
    DropPrefix(a', b', p);
    assert a'[p..] == a[p..|a| - s] && b'[p..] == b[p..|b| - s];
  }

  lemma DropSuffix<T>(a: seq<T>, b: seq<T>, s: nat)
    requires s <= |a| && s <= |b| && a[|a| - s..] == b[|b| - s..]
    ensures Distance(a, b) == Distance(a[..|a| - s], b[..|b| - s])
  {
    hide Lev;
    assert a[|a| - s..|a|] == a[|a| - s..] && b[|b| - s..|b|] == b[|b| - s..];
    DropLast(a, b, |a|, |b|, s);
    PrefixOnly(a, b, a[..|a| - s], b[..|b| - s], |a| - s, |b| - s);
  }

  lemma LevSymmetric<T>(a: seq<T>, b: seq<T>)
    ensures Distance(a, b) == Distance(b, a)
  {
    Symmetric(a, b, |a|, |b|);
  }
}
