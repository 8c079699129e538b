module GreedyScripts {
  // The greedy search leaves no choice: two greedy scripts of one cost are the same script.

  import opened EditScripts
  import opened InsDelDistance
  import opened Myers

  /** The script turns the first `x` old lines into the first `y` new ones with `c` changes, each of
      them made greedily; read from its end. */
  ghost predicate GreedyTo<T>(a: seq<T>, b: seq<T>, s: seq<Edit<T>>, x: nat, y: nat, c: nat)
    decreases |s|
  {
    && x <= |a| && y <= |b|
    && if s == [] then x == y == c == 0
       else
         var e, front := s[|s| - 1], s[..|s| - 1];
         match e
         case Equal(o, n) => x > 0 && y > 0 && o == a[x - 1] && n == b[y - 1] && GreedyTo(a, b, front, x - 1, y - 1, c)
         case Insert(n) =>
           && y > 0 && c > 0 && n == b[y - 1]
           && LeavesGreedily(a, b, e, x, y - 1, c - 1) && GreedyTo(a, b, front, x, y - 1, c - 1)
         case Delete(o) =>
           && x > 0 && c > 0 && o == a[x - 1]
           && LeavesGreedily(a, b, e, x - 1, y, c - 1) && GreedyTo(a, b, front, x - 1, y, c - 1)
  }

  /** One more edit. */
  lemma GreedyToNext<T>(a: seq<T>, b: seq<T>, s: seq<Edit<T>>, x: nat, y: nat, c: nat, e: Edit<T>)
    requires GreedyTo(a, b, s, x, y, c) && LeavesGreedily(a, b, e, x, y, c)
    requires !e.Insert? ==> x < |a| && e.oldLine == a[x]
    requires !e.Delete? ==> y < |b| && e.newLine == b[y]
    ensures GreedyTo(a, b, s + [e], if e.Insert? then x else x + 1, if e.Delete? then y else y + 1,
                     if e.Equal? then c else c + 1)
  {
    hide LeavesGreedily;
    assert (s + [e])[..|s|] == s;
  }

  lemma SideStep<T>(s: seq<Edit<T>>, a: seq<T>, b: seq<T>, x: nat, y: nat)
    requires s != [] && x <= |a| && y <= |b| && OldSide(s) == a[x..] && NewSide(s) == b[y..]
    ensures !s[0].Insert? ==> x < |a| && s[0].oldLine == a[x] && OldSide(s[1..]) == a[x + 1..]
    ensures s[0].Insert? ==> OldSide(s[1..]) == a[x..]
    ensures !s[0].Delete? ==> y < |b| && s[0].newLine == b[y] && NewSide(s[1..]) == b[y + 1..]
    ensures s[0].Delete? ==> NewSide(s[1..]) == b[y..]
  {
    if !s[0].Insert? {
      assert a[x..] == [s[0].oldLine] + OldSide(s[1..]);
      assert a[x..][0] == a[x] && a[x..][1..] == a[x + 1..];
    }
    if !s[0].Delete? {
      assert b[y..] == [s[0].newLine] + NewSide(s[1..]);
      assert b[y..][0] == b[y] && b[y..][1..] == b[y + 1..];
    }
  }

  /** Reading forwards and reading backwards say the same. */
  lemma {:induction false} GreedyBothWays<T>(a: seq<T>, b: seq<T>, p: seq<Edit<T>>, s: seq<Edit<T>>, x: nat, y: nat,
                                             c: nat)
    requires GreedyTo(a, b, p, x, y, c) && GreedyFrom(a, b, s, x, y, c)
    requires OldSide(s) == a[x..] && NewSide(s) == b[y..]
    ensures GreedyTo(a, b, p + s, |a|, |b|, c + Cost(s))
    decreases |s|
  {
    hide GreedyTo, LeavesGreedily, OldSide, NewSide, Cost;
    PositionsBounded(a, b, p, x, y, c);
    CostStep(s);
    if s == [] {
      assert p + s == p && |a[x..]| == 0 && |b[y..]| == 0;
    } else {
      var e := s[0];
      SideStep(s, a, b, x, y);
      GreedyToNext(a, b, p, x, y, c, e);
      GreedyBothWays(a, b, p + [e], s[1..], if e.Insert? then x else x + 1, if e.Delete? then y else y + 1,
                     if e.Equal? then c else c + 1);
      assert p + [e] + s[1..] == p + s;
    }
  }

  lemma CostStep<T>(s: seq<Edit<T>>)
    ensures s == [] ==> OldSide(s) == [] && NewSide(s) == [] && Cost(s) == 0
    ensures s != [] ==> Cost(s) == Cost(s[1..]) + if s[0].Equal? then 0 else 1
  {
  }

  lemma PositionsBounded<T>(a: seq<T>, b: seq<T>, s: seq<Edit<T>>, x: nat, y: nat, c: nat)
    requires GreedyTo(a, b, s, x, y, c)
    ensures x <= |a| && y <= |b|
  {
  }

  // ----- where a depth enters a diagonal -----

  /** An insertion, the `d`-th change, leads to column `x` of diagonal `k`. */
  ghost predicate EntersByInsert<T>(a: seq<T>, b: seq<T>, d: nat, k: int, x: nat) {
    0 <= x - k - 1 && Furthest(a, b, d - 1, k + 1, x) && InsertDue(a, b, d - 1, x, x - k - 1)
  }

  ghost predicate EntersByDelete<T>(a: seq<T>, b: seq<T>, d: nat, k: int, x: nat) {
    0 < x && 0 <= x - k && Furthest(a, b, d - 1, k - 1, x - 1) && DeleteDue(a, b, d - 1, x - 1, x - k)
  }

  lemma FurthestUnique<T>(a: seq<T>, b: seq<T>, d: int, k: int, x: int, x': int)
    requires Furthest(a, b, d, k, x) && Furthest(a, b, d, k, x')
    ensures x == x'
  {
    FurthestBounds(a, b, d, k, x, x');
    FurthestBounds(a, b, d, k, x', x);
  }

  /** The same depth does not enter a diagonal both ways. */
  lemma EntersOneWay<T>(a: seq<T>, b: seq<T>, d: nat, k: int, x: nat, x': nat)
    requires EntersByInsert(a, b, d, k, x)
    ensures !EntersByDelete(a, b, d, k, x')
  {
    hide Dist;
    if EntersByDelete(a, b, d, k, x') {
      Parity(a, b, x, x - k - 1);
      Parity(a, b, x' - 1, x' - k);
      if x <= x' - 1 {
        DiagonalMonotone(a, b, x, x - k + 1, x' - 1 - x);
      } else {
        DiagonalMonotone(a, b, x', x' - k - 1, x - x');
      }
      assert false;
    }
  }

  /** The last change of a greedy script enters the diagonal it ends on; only matches follow. */
  lemma {:induction false} LastEntry<T>(a: seq<T>, b: seq<T>, s: seq<Edit<T>>, x: nat, y: nat, c: nat)
    returns (entry: nat)
    requires GreedyTo(a, b, s, x, y, c) && c > 0
    ensures s != [] && entry <= x
    ensures EntersByInsert(a, b, c, x - y, entry) || EntersByDelete(a, b, c, x - y, entry)
    ensures s[|s| - 1].Equal? <==> entry < x
    ensures s[|s| - 1].Insert? ==> EntersByInsert(a, b, c, x - y, entry)
    ensures s[|s| - 1].Delete? ==> EntersByDelete(a, b, c, x - y, entry)
    decreases |s|
  {
    hide Furthest, InsertDue, DeleteDue;
    entry := x;
    if s[|s| - 1].Equal? {
      entry := LastEntry(a, b, s[..|s| - 1], x - 1, y - 1, c);
    }
  }

  /** Two greedy scripts for the same lines and of the same cost are equal. */
  lemma {:induction false} GreedyAgree<T>(a: seq<T>, b: seq<T>, s: seq<Edit<T>>, t: seq<Edit<T>>, x: nat, y: nat,
                                          c: nat)
    requires GreedyTo(a, b, s, x, y, c) && GreedyTo(a, b, t, x, y, c)
    ensures s == t
    decreases |s|
  {
    hide Furthest, InsertDue, DeleteDue, LeavesGreedily;
    if s != [] && t != [] {
      SameEnding(a, b, s, t, x, y, c);
      var e := s[|s| - 1];
      GreedyAgree(a, b, s[..|s| - 1], t[..|t| - 1], if e.Insert? then x else x - 1, if e.Delete? then y else y - 1,
                  if e.Equal? then c else c - 1);
      assert s == s[..|s| - 1] + [e] && t == t[..|t| - 1] + [e];
    }
  }

  lemma SameEnding<T>(a: seq<T>, b: seq<T>, s: seq<Edit<T>>, t: seq<Edit<T>>, x: nat, y: nat, c: nat)
    requires GreedyTo(a, b, s, x, y, c) && GreedyTo(a, b, t, x, y, c) && s != [] && t != []
    ensures s[|s| - 1] == t[|t| - 1]
  {
    hide LeavesGreedily, EntersByInsert, EntersByDelete;
    if c > 0 {
      var entry := LastEntry(a, b, s, x, y, c);
      var entry' := LastEntry(a, b, t, x, y, c);
      SameEntry(a, b, c, x - y, entry, entry');
    }
  }

  lemma SameEntry<T>(a: seq<T>, b: seq<T>, d: nat, k: int, x: nat, x': nat)
    requires EntersByInsert(a, b, d, k, x) || EntersByDelete(a, b, d, k, x)
    requires EntersByInsert(a, b, d, k, x') || EntersByDelete(a, b, d, k, x')
    ensures x == x'
    ensures EntersByInsert(a, b, d, k, x) <==> !EntersByDelete(a, b, d, k, x')
  {
    hide Furthest, InsertDue, DeleteDue;
    if EntersByInsert(a, b, d, k, x) {
      EntersOneWay(a, b, d, k, x, x);
      EntersOneWay(a, b, d, k, x, x');
      FurthestUnique(a, b, d - 1, k + 1, x, x');
    } else if EntersByInsert(a, b, d, k, x') {
      EntersOneWay(a, b, d, k, x', x);
    } else {
      FurthestUnique(a, b, d - 1, k - 1, x - 1, x' - 1);
    }
  }

  /** So the script of the search is the only shortest script that is greedy. */
  lemma GreedyIsUnique<T(!new)>(a: seq<T>, b: seq<T>, s: seq<Edit<T>>, t: seq<Edit<T>>)
    requires ValidScript(s, a, b) && Minimal(s, a, b) && Greedy(a, b, s)
    requires ValidScript(t, a, b) && Minimal(t, a, b) && Greedy(a, b, t)
    ensures s == t
  {
    hide OldSide, NewSide, Cost, GreedyFrom;
    assert a[0..] == a && b[0..] == b;
    assert [] + s == s && [] + t == t;
    NothingDone(a, b);
    GreedyBothWays(a, b, [], s, 0, 0, 0);
    GreedyBothWays(a, b, [], t, 0, 0, 0);
    assert Cost(s) <= Cost(t) && Cost(t) <= Cost(s);
    GreedyAgree(a, b, s, t, |a|, |b|, Cost(s));
  }

  lemma NothingDone<T>(a: seq<T>, b: seq<T>)
    ensures GreedyTo(a, b, [], 0, 0, 0)
  {
  }
}
