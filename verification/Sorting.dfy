/** Sorting, given by "ordered and a permutation", and partition points of ordered sequences. */
module Sorting {
  import opened Wrappers

  ghost predicate TotalPreorder<T(!new)>(leq: (T, T) -> bool) {
    && (forall x, y :: leq(x, y) || leq(y, x))
    && (forall x, y, z :: leq(x, y) && leq(y, z) ==> leq(x, z))
  }

  ghost predicate Ordered<T>(xs: seq<T>, leq: (T, T) -> bool) {
    forall i, j :: 0 <= i < j < |xs| ==> leq(xs[i], xs[j])
  }

  function Inserted<T>(xs: seq<T>, x: T, leq: (T, T) -> bool): seq<T> {
    if xs == [] || leq(x, xs[0]) then [x] + xs else [xs[0]] + Inserted(xs[1..], x, leq)
  }

  lemma {:induction false} InsertedIsPermutation<T>(xs: seq<T>, x: T, leq: (T, T) -> bool)
    ensures multiset(Inserted(xs, x, leq)) == multiset(xs) + multiset{x}
  {
    if xs != [] && !leq(x, xs[0]) {
      InsertedIsPermutation(xs[1..], x, leq);
      assert xs == [xs[0]] + xs[1..];
    }
  }

  lemma {:induction false} InsertedIsOrdered<T(!new)>(xs: seq<T>, x: T, leq: (T, T) -> bool)
    requires TotalPreorder(leq) && Ordered(xs, leq)
    ensures Ordered(Inserted(xs, x, leq), leq)
  {
    if xs != [] && !leq(x, xs[0]) {
      var rest := Inserted(xs[1..], x, leq);
      InsertedIsOrdered(xs[1..], x, leq);
      InsertedIsPermutation(xs[1..], x, leq);
      forall j | 0 <= j < |rest|
        ensures leq(xs[0], rest[j])
      {
        assert rest[j] in multiset(rest);
        assert rest[j] == x || rest[j] in xs[1..];
      }
    }
  }

  method Sort<T(!new)>(xs: seq<T>, leq: (T, T) -> bool) returns (r: seq<T>)
    requires TotalPreorder(leq)
    ensures Ordered(r, leq) && multiset(r) == multiset(xs)
  {
    r := [];
    for i := 0 to |xs|
      invariant Ordered(r, leq) && multiset(r) == multiset(xs[..i])
    {
      InsertedIsOrdered(r, xs[i], leq);
      InsertedIsPermutation(r, xs[i], leq);
      assert xs[..i + 1] == xs[..i] + [xs[i]];
      r := Inserted(r, xs[i], leq);
    }
    assert xs[..|xs|] == xs;
  }

  lemma SameLength<T>(xs: seq<T>, ys: seq<T>)
    requires multiset(xs) == multiset(ys)
    ensures |xs| == |ys|
  {
    assert |xs| == |multiset(xs)|;
  }

  /** The number of leading positions below `n` that satisfy `p`, by bisection. */
  method PartitionPoint(n: nat, p: nat --> bool) returns (r: nat)
    requires forall i: nat :: i < n ==> p.requires(i)
    requires forall i: nat, j: nat :: i < j < n && p(j) ==> p(i)
    ensures r <= n
    ensures forall i: nat :: i < r ==> p(i)
    ensures forall i: nat :: r <= i < n ==> !p(i)
  {
    var lo: nat, hi: nat := 0, n;
    while lo < hi
      invariant lo <= hi <= n
      invariant forall i: nat :: i < lo ==> p(i)
      invariant forall i: nat :: hi <= i < n ==> !p(i)
    {
      var mid := lo + (hi - lo) / 2;
      if p(mid) {
        lo := mid + 1;
      } else {
        hi := mid;
      }
    }
    r := lo;
  }

  datatype Ordering = Lesser | Same | Greater

  /** Entries that compare lesser come first, then the same ones, then the greater ones. */
  ghost predicate Monotone(n: nat, cmp: nat --> Ordering)
    requires forall i: nat :: i < n ==> cmp.requires(i)
  {
    forall i: nat, j: nat :: i < j < n ==> (cmp(j).Lesser? ==> cmp(i).Lesser?) && (cmp(i).Greater? ==> cmp(j).Greater?)
  }

  /** Find an entry that compares the same. */
  method BinarySearchBy(n: nat, cmp: nat --> Ordering) returns (r: Option<nat>)
    requires forall i: nat :: i < n ==> cmp.requires(i)
    requires Monotone(n, cmp)
    ensures r.Some? ==> r.value < n && cmp(r.value).Same?
    ensures r.None? ==> forall i: nat :: i < n ==> !cmp(i).Same?
  {
    var lo: nat, hi: nat := 0, n;
    while lo < hi
      invariant lo <= hi <= n
      invariant forall i: nat :: i < lo ==> cmp(i).Lesser?
      invariant forall i: nat :: hi <= i < n ==> cmp(i).Greater?
    {
      var mid := lo + (hi - lo) / 2;
      match cmp(mid) {
        case Lesser => lo := mid + 1;
        case Same => return Some(mid);
        case Greater => hi := mid;
      }
    }
    r := None;
  }

  ghost predicate NoRepeats<T>(xs: seq<T>) {
    forall i, j :: 0 <= i < j < |xs| ==> xs[i] != xs[j]
  }

  /** Permuting a sequence without repeats introduces none. */
  lemma PermutedNoRepeats<T>(xs: seq<T>, ys: seq<T>)
    requires multiset(xs) == multiset(ys) && NoRepeats(ys)
    ensures NoRepeats(xs)
  {
    forall i, j | 0 <= i < j < |xs|
      ensures xs[i] != xs[j]
    {
      if xs[i] == xs[j] {
        Twice(xs, i, j);
        OnlyOnce(ys, xs[i]);
      }
    }
  }

  lemma Twice<T>(xs: seq<T>, k: nat, l: nat)
    requires k < l < |xs| && xs[k] == xs[l]
    ensures multiset(xs)[xs[k]] >= 2
  {
    assert xs == xs[..l] + xs[l..];
    assert xs[k] in xs[..l] && xs[l] in xs[l..];
  }

  lemma {:induction false} OnlyOnce<T>(xs: seq<T>, x: T)
    requires NoRepeats(xs)
    ensures multiset(xs)[x] <= 1
    decreases |xs|
  {
    if xs != [] {
      var front := xs[..|xs| - 1];
      assert xs == front + [xs[|xs| - 1]];
      OnlyOnce(front, x);
      if x == xs[|xs| - 1] {
        assert x !in front;
      }
    }
  }
}
