module InsDelDistance {
  // The insert/delete distance that a shortest edit script realises, laid out on a grid without
  // borders: cell (x, y) is the distance between the first x old and first y new lines, where lines
  // past the end of a file match nothing. The search may step off the real grid, so its frontier is
  // described on this one.

  import opened EditScripts

  ghost predicate Match<T>(a: seq<T>, b: seq<T>, x: nat, y: nat) {
    x < |a| && y < |b| && a[x] == b[y]
  }

  ghost function Dist<T>(a: seq<T>, b: seq<T>, x: nat, y: nat): nat {
    if x == 0 then y
    else if y == 0 then x
    else if Match(a, b, x - 1, y - 1) then Dist(a, b, x - 1, y - 1)
    else 1 + if Dist(a, b, x - 1, y) <= Dist(a, b, x, y - 1) then Dist(a, b, x - 1, y) else Dist(a, b, x, y - 1)
  }

  lemma DistCell<T>(a: seq<T>, b: seq<T>, x: nat, y: nat)
    requires x > 0 && y > 0
    ensures Match(a, b, x - 1, y - 1) ==> Dist(a, b, x, y) == Dist(a, b, x - 1, y - 1)
    ensures !Match(a, b, x - 1, y - 1) ==>
              && Dist(a, b, x, y) <= Dist(a, b, x - 1, y) + 1 && Dist(a, b, x, y) <= Dist(a, b, x, y - 1) + 1
              && (Dist(a, b, x, y) == Dist(a, b, x - 1, y) + 1 || Dist(a, b, x, y) == Dist(a, b, x, y - 1) + 1)
  {
  }

  lemma DistEdges<T>(a: seq<T>, b: seq<T>, x: nat)
    ensures Dist(a, b, 0, x) == x && Dist(a, b, x, 0) == x
  {
  }

  /** Moving one cell changes the distance by at most one; a diagonal step never lowers it. */
  lemma {:induction false} Steps<T>(a: seq<T>, b: seq<T>, x: nat, y: nat)
    ensures Dist(a, b, x + 1, y) <= Dist(a, b, x, y) + 1
    ensures Dist(a, b, x, y) <= Dist(a, b, x + 1, y) + 1
    ensures Dist(a, b, x, y + 1) <= Dist(a, b, x, y) + 1
    ensures Dist(a, b, x, y) <= Dist(a, b, x, y + 1) + 1
    ensures Dist(a, b, x, y) <= Dist(a, b, x + 1, y + 1)
    decreases x + y
  {
    hide Dist, Match;
    DistEdges(a, b, x);
    DistEdges(a, b, y);
    DistEdges(a, b, x + 1);
    DistEdges(a, b, y + 1);
    DistCell(a, b, x + 1, y + 1);
    if x > 0 {
      Steps(a, b, x - 1, y);
      DistCell(a, b, x, y + 1);
    }
    if y > 0 {
      Steps(a, b, x, y - 1);
      DistCell(a, b, x + 1, y);
    }
  }

  lemma {:induction false} DiagonalMonotone<T>(a: seq<T>, b: seq<T>, x: nat, y: nat, j: nat)
    ensures Dist(a, b, x, y) <= Dist(a, b, x + j, y + j)
    decreases j
  {
    if j > 0 {
      DiagonalMonotone(a, b, x, y, j - 1);
      Steps(a, b, x + j - 1, y + j - 1);
    }
  }

  /** Distance and diagonal have the same parity, and the diagonal bounds the distance. */
  lemma {:induction false} Parity<T>(a: seq<T>, b: seq<T>, x: nat, y: nat)
    ensures (Dist(a, b, x, y) - (x - y)) % 2 == 0
    ensures x - y <= Dist(a, b, x, y) && y - x <= Dist(a, b, x, y) <= x + y
    decreases x + y
  {
    hide Dist, Match;
    if x == 0 || y == 0 {
      DistEdges(a, b, x);
      DistEdges(a, b, y);
    } else {
      DistCell(a, b, x, y);
      Parity(a, b, x - 1, y - 1);
      Parity(a, b, x - 1, y);
      Parity(a, b, x, y - 1);
    }
  }

  /** Past the last old line every further column costs exactly one deletion. */
  lemma {:induction false} PastOld<T>(a: seq<T>, b: seq<T>, x: nat, y: nat)
    requires |a| <= x
    ensures Dist(a, b, x, y) == Dist(a, b, |a|, y) + (x - |a|)
    decreases x, y
  {
    if |a| < x && y > 0 {
      PastOld(a, b, x - 1, y);
      PastOld(a, b, x, y - 1);
      Steps(a, b, |a|, y - 1);
    }
  }

  lemma {:induction false} PastNew<T>(a: seq<T>, b: seq<T>, x: nat, y: nat)
    requires |b| <= y
    ensures Dist(a, b, x, y) == Dist(a, b, x, |b|) + (y - |b|)
    decreases y, x
  {
    if |b| < y && x > 0 {
      PastNew(a, b, x, y - 1);
      PastNew(a, b, x - 1, y);
      Steps(a, b, x - 1, |b|);
    }
  }

  lemma {:induction false} StepsUpNew<T>(a: seq<T>, b: seq<T>, x: nat, y: nat, j: nat)
    ensures Dist(a, b, x, y + j) <= Dist(a, b, x, y) + j
    decreases j
  {
    if j > 0 {
      StepsUpNew(a, b, x, y, j - 1);
      Steps(a, b, x, y + j - 1);
    }
  }

  /** A point no dearer than the whole diff stays within n + m of the origin, so a 32-bit
      frontier cell cannot overflow. */
  lemma FrontierBound<T>(a: seq<T>, b: seq<T>, x: nat, y: nat)
    requires Dist(a, b, x, y) <= Dist(a, b, |a|, |b|)
    ensures x <= |a| + |b|
  {
    if |a| < x {
      PastOld(a, b, x, y);
      if y <= |b| {
        StepsUpNew(a, b, |a|, y, |b| - y);
      } else {
        PastNew(a, b, |a|, y);
      }
    }
  }

  /** A point at or beyond the far corner costs the corner's distance plus the overshoot. */
  lemma CornerOvershoot<T>(a: seq<T>, b: seq<T>, x: nat, y: nat)
    requires |a| <= x && |b| <= y
    ensures Dist(a, b, x, y) == Dist(a, b, |a|, |b|) + (x - |a|) + (y - |b|)
  {
    PastOld(a, b, x, y);
    PastNew(a, b, |a|, y);
  }

  // ----- the distance and scripts -----

  /** No valid script is cheaper than the distance. */
  lemma {:induction false} DistLowerBound<T>(a: seq<T>, b: seq<T>, s: seq<Edit<T>>, x: nat, y: nat)
    requires x <= |a| && y <= |b|
    requires ValidScript(s, a[..x], b[..y])
    ensures Dist(a, b, x, y) <= Cost(s)
    decreases |s|
  {
    if s == [] {
      DistEdges(a, b, 0);
    } else {
      hide *;
      var t, e := s[..|s| - 1], s[|s| - 1];
      LastEdit(a, b, s, x, y);
      DistLowerBound(a, b, t, if e.Insert? then x else x - 1, if e.Delete? then y else y - 1);
      match e {
        case Equal(_, _) => DistCell(a, b, x, y);
        case Delete(_) => Steps(a, b, x - 1, y);
        case Insert(_) => Steps(a, b, x, y - 1);
      }
    }
  }

  /** Without its last edit a valid script is valid for the prefixes without that edit's lines. */
  lemma LastEdit<T>(a: seq<T>, b: seq<T>, s: seq<Edit<T>>, x: nat, y: nat)
    requires s != [] && x <= |a| && y <= |b| && ValidScript(s, a[..x], b[..y])
    ensures var t, e := s[..|s| - 1], s[|s| - 1];
            && (e.Insert? || x > 0) && (e.Delete? || y > 0)
            && ValidScript(t, a[..if e.Insert? then x else x - 1], b[..if e.Delete? then y else y - 1])
            && Cost(s) == Cost(t) + (if e.Equal? then 0 else 1)
            && (e.Equal? ==> Match(a, b, x - 1, y - 1))
  {
    var t, e := s[..|s| - 1], s[|s| - 1];
    LastParts(s);
    hide OldSide, NewSide, Cost;
    PrefixWithout(a, x, OldSide(t), OldPart(e));
    PrefixWithout(b, y, NewSide(t), NewPart(e));
  }

  lemma LastParts<T>(s: seq<Edit<T>>)
    requires s != []
    ensures var t, e := s[..|s| - 1], s[|s| - 1];
            && OldSide(s) == OldSide(t) + OldPart(e) && NewSide(s) == NewSide(t) + NewPart(e)
            && Cost(s) == Cost(t) + (if e.Equal? then 0 else 1)
            && (PairsEqual(s) ==> PairsEqual(t))
  {
    var t, e := s[..|s| - 1], s[|s| - 1];
    assert s == t + [e];
    SidesConcat(t, [e]);
    assert [e][1..] == [];
  }

  lemma PrefixWithout<T>(a: seq<T>, x: nat, u: seq<T>, v: seq<T>)
    requires x <= |a| && a[..x] == u + v && |v| <= 1
    ensures |v| <= x && u == a[..x - |v|] && (v != [] ==> a[x - 1] == v[0])
  {
    assert u == a[..x][..x - |v|] == a[..x - |v|];
  }

  /** A valid script whose cost is the distance is a shortest one. */
  lemma DistIsMinimal<T(!new)>(s: seq<Edit<T>>, a: seq<T>, b: seq<T>)
    requires Cost(s) == Dist(a, b, |a|, |b|)
    ensures Minimal(s, a, b)
  {
    forall t: seq<Edit<T>> | ValidScript(t, a, b)
      ensures Cost(s) <= Cost(t)
    {
      assert a[..|a|] == a && b[..|b|] == b;
      DistLowerBound(a, b, t, |a|, |b|);
    }
  }

  // ----- the distance and longest common subsequences -----

  /** Length of a longest common subsequence of the first x old and first y new lines. */
  ghost function Lcs<T>(a: seq<T>, b: seq<T>, x: nat, y: nat): nat
    requires x <= |a| && y <= |b|
  {
    if x == 0 || y == 0 then 0
    else if a[x - 1] == b[y - 1] then Lcs(a, b, x - 1, y - 1) + 1
    else if Lcs(a, b, x - 1, y) >= Lcs(a, b, x, y - 1) then Lcs(a, b, x - 1, y) else Lcs(a, b, x, y - 1)
  }

  /** The distance counts exactly the lines outside a longest common subsequence. */
  lemma {:induction false} DistIsLcs<T>(a: seq<T>, b: seq<T>, x: nat, y: nat)
    requires x <= |a| && y <= |b|
    ensures Dist(a, b, x, y) == x + y - 2 * Lcs(a, b, x, y)
    decreases x + y
  {
    hide Dist;
    if x == 0 || y == 0 {
      DistEdges(a, b, x);
      DistEdges(a, b, y);
    } else {
      DistCell(a, b, x, y);
      DistIsLcs(a, b, x - 1, y - 1);
      DistIsLcs(a, b, x - 1, y);
      DistIsLcs(a, b, x, y - 1);
    }
  }
}
