/** The quadratic pass of lab2/main.py (`quadratic_interpolation`): for each
    gap, pick three known points (up to two nearest on each side, padded
    from the left first), fit `a*x^2 + b*x + c` through them by Cramer's
    rule and evaluate it at the gap. The pool of candidate points is taken
    once from the original series, so filled gaps never become candidates. */
module QuadraticFill {
  import opened Series

  function Min(a: int, b: int): int { if a <= b then a else b }
  function Max(a: int, b: int): int { if a <= b then b else a }

  predicate InRange(v: seq<int>, n: int) {
    forall k :: 0 <= k < |v| ==> 0 <= v[k] < n
  }

  // ---------------------------------------------------------------------
  // The candidate pool and the two sides

  /** `valid_indices` (line 60): the indices of known values, ascending. */
  function ValidIndices(y: seq<Cell>): (v: seq<int>)
    ensures StrictlyIncreasing(v) && InRange(v, |y|)
    ensures forall j {:trigger j in v} :: j in v <==> 0 <= j < |y| && y[j].Known?
    decreases |y|
  {
    if y == [] then []
    else
      var init := ValidIndices(y[..|y| - 1]);
      assert forall k :: 0 <= k < |init| ==> init[k] in init;
      init + (if y[|y| - 1].Known? then [|y| - 1] else [])
  }

  /** `abs(x[j] - x[i])`, the sort key of lines 64-71. */
  function Distance(x: seq<int>, j: int, xi: int): nat
    requires 0 <= j < |x|
  {
    if x[j] >= xi then x[j] - xi else xi - x[j]
  }

  /** The comprehension of line 65: the pooled indices at positions below
      `xi`, in pool order. */
  function Below(x: seq<int>, valid: seq<int>, xi: int): (r: seq<int>)
    requires InRange(valid, |x|)
    ensures InRange(r, |x|)
    ensures forall j {:trigger j in r} :: j in r <==> j in valid && x[j] < xi
    ensures StrictlyIncreasing(valid) ==> StrictlyIncreasing(r)
    decreases |valid|
  {
    if valid == [] then []
    else
      var last := valid[|valid| - 1];
      var init := Below(x, valid[..|valid| - 1], xi);
      forall k | 0 <= k < |init| ensures init[k] in valid[..|valid| - 1] {
        assert init[k] in init;
      }
      init + (if x[last] < xi then [last] else [])
  }

  /** The comprehension of line 69: the pooled indices at positions above
      `xi`, in pool order. */
  function Above(x: seq<int>, valid: seq<int>, xi: int): (r: seq<int>)
    requires InRange(valid, |x|)
    ensures InRange(r, |x|)
    ensures forall j {:trigger j in r} :: j in r <==> j in valid && x[j] > xi
    ensures StrictlyIncreasing(valid) ==> StrictlyIncreasing(r)
    decreases |valid|
  {
    if valid == [] then []
    else
      var last := valid[|valid| - 1];
      var init := Above(x, valid[..|valid| - 1], xi);
      forall k | 0 <= k < |init| ensures init[k] in valid[..|valid| - 1] {
        assert init[k] in init;
      }
      init + (if x[last] > xi then [last] else [])
  }

  /** The indices of `s` are in non-decreasing distance from `xi`. */
  predicate NearestFirst(x: seq<int>, xi: int, s: seq<int>)
    requires InRange(s, |x|)
  {
    forall p, q :: 0 <= p < q < |s| ==> Distance(x, s[p], xi) <= Distance(x, s[q], xi)
  }

  /** One step of a stable insertion sort by distance: `e` goes after every
      element of `t` that is not farther from `xi` than `e`. */
  function InsertByDistance(x: seq<int>, xi: int, e: int, t: seq<int>): (r: seq<int>)
    requires 0 <= e < |x| && InRange(t, |x|)
    ensures InRange(r, |x|)
    ensures multiset(r) == multiset(t) + multiset{e}
    decreases |t|
  {
    if t == [] || Distance(x, e, xi) < Distance(x, t[0], xi) then [e] + t
    else
      assert t == [t[0]] + t[1..];
      [t[0]] + InsertByDistance(x, xi, e, t[1..])
  }

  /** An element of the insertion's result is `e` or an element of `t`. */
  lemma InsertMembers(x: seq<int>, xi: int, e: int, t: seq<int>)
    requires 0 <= e < |x| && InRange(t, |x|)
    ensures forall j {:trigger j in InsertByDistance(x, xi, e, t)} ::
      j in InsertByDistance(x, xi, e, t) <==> j in t || j == e
  {
    var r := InsertByDistance(x, xi, e, t);
    forall j ensures j in r <==> j in t || j == e {
      assert j in r <==> j in multiset(r);
      assert j in t <==> j in multiset(t);
    }
  }

  /** A bound below the distances of `e` and of every element of `t` bounds
      every element of the insertion. */
  lemma InsertAbove(x: seq<int>, xi: int, e: int, t: seq<int>, h: nat)
    requires 0 <= e < |x| && InRange(t, |x|)
    requires h <= Distance(x, e, xi)
    requires forall k :: 0 <= k < |t| ==> h <= Distance(x, t[k], xi)
    ensures forall k :: 0 <= k < |InsertByDistance(x, xi, e, t)| ==>
      h <= Distance(x, InsertByDistance(x, xi, e, t)[k], xi)
  {
    var r := InsertByDistance(x, xi, e, t);
    InsertMembers(x, xi, e, t);
    forall k | 0 <= k < |r| ensures h <= Distance(x, r[k], xi) {
      assert r[k] in r;
      if r[k] != e {
        var m :| 0 <= m < |t| && t[m] == r[k];
      }
    }
  }

  /** Inserting into a list ordered by distance keeps it ordered. */
  lemma {:induction false} InsertNearestFirst(x: seq<int>, xi: int, e: int, t: seq<int>)
    requires 0 <= e < |x| && InRange(t, |x|) && NearestFirst(x, xi, t)
    ensures NearestFirst(x, xi, InsertByDistance(x, xi, e, t))
    decreases |t|
  {
    if t != [] && Distance(x, e, xi) >= Distance(x, t[0], xi) {
      var t' := t[1..];
      var h := Distance(x, t[0], xi);
      assert InRange(t', |x|) && NearestFirst(x, xi, t');
      assert forall k :: 0 <= k < |t'| ==> h <= Distance(x, t'[k], xi) by {
        forall k | 0 <= k < |t'| ensures h <= Distance(x, t'[k], xi) {
          assert t'[k] == t[k + 1];
        }
      }
      var rest := InsertByDistance(x, xi, e, t');
      InsertNearestFirst(x, xi, e, t');
      InsertAbove(x, xi, e, t', h);
      var r := [t[0]] + rest;
      assert InsertByDistance(x, xi, e, t) == r;
      forall p, q | 0 <= p < q < |r| ensures Distance(x, r[p], xi) <= Distance(x, r[q], xi) {
        if p > 0 {
          assert r[p] == rest[p - 1] && r[q] == rest[q - 1];
          assert Distance(x, rest[p - 1], xi) <= Distance(x, rest[q - 1], xi);
        } else {
          assert r[p] == t[0] && r[q] == rest[q - 1];
          assert h <= Distance(x, rest[q - 1], xi);
        }
      }
    }
  }

  /** Inserting a new element into a duplicate-free list keeps it so. */
  lemma {:induction false} InsertDistinct(x: seq<int>, xi: int, e: int, t: seq<int>)
    requires 0 <= e < |x| && InRange(t, |x|) && Distinct(t) && e !in t
    ensures Distinct(InsertByDistance(x, xi, e, t))
    decreases |t|
  {
    if t != [] && Distance(x, e, xi) >= Distance(x, t[0], xi) {
      var rest := InsertByDistance(x, xi, e, t[1..]);
      assert t == [t[0]] + t[1..];
      InsertDistinct(x, xi, e, t[1..]);
      InsertMembers(x, xi, e, t[1..]);
      assert t[0] !in t[1..];
      var r := [t[0]] + rest;
      forall p, q | 0 <= p < q < |r| ensures r[p] != r[q] {
        if p > 0 {
          assert r[p] == rest[p - 1] && r[q] == rest[q - 1];
        } else {
          assert r[q] == rest[q - 1] && r[q] in rest;
        }
      }
    } else if t != [] {
      var r := [e] + t;
      forall p, q | 0 <= p < q < |r| ensures r[p] != r[q] {
        if p > 0 {
          assert r[p] == t[p - 1] && r[q] == t[q - 1];
        } else {
          assert r[q] == t[q - 1] && r[q] in t;
        }
      }
    }
  }

  /** One step of the sort: inserting the last element of `s` into a
      sorted permutation of the others gives a sorted permutation of `s`. */
  lemma SortStep(x: seq<int>, xi: int, s: seq<int>, sorted: seq<int>)
    requires InRange(s, |x|) && s != [] && InRange(sorted, |x|)
    requires multiset(sorted) == multiset(s[..|s| - 1]) && NearestFirst(x, xi, sorted)
    requires Distinct(s[..|s| - 1]) ==> Distinct(sorted)
    ensures var r := InsertByDistance(x, xi, s[|s| - 1], sorted);
      && multiset(r) == multiset(s)
      && NearestFirst(x, xi, r)
      && (Distinct(s) ==> Distinct(r))
  {
    var init, last := s[..|s| - 1], s[|s| - 1];
    assert s == init + [last];
    InsertNearestFirst(x, xi, last, sorted);
    if Distinct(s) {
      assert Distinct(init);
      assert last !in init;
      assert last !in multiset(sorted);
      InsertDistinct(x, xi, last, sorted);
    }
  }

  /** `sorted(..., key=distance)`: the elements of `s` inserted one by one,
      in order, so elements at equal distance keep their order as in
      Python's stable sort. */
  function SortByDistance(x: seq<int>, xi: int, s: seq<int>): (r: seq<int>)
    requires InRange(s, |x|)
    ensures InRange(r, |x|)
    ensures multiset(r) == multiset(s)
    ensures NearestFirst(x, xi, r)
    ensures Distinct(s) ==> Distinct(r)
    decreases |s|
  {
    if s == [] then []
    else
      var sorted := SortByDistance(x, xi, s[..|s| - 1]);
      SortStep(x, xi, s, sorted);
      InsertByDistance(x, xi, s[|s| - 1], sorted)
  }

  /** The elements of `s` at distance `d` from `xi`, in order. */
  function AtDistance(x: seq<int>, xi: int, s: seq<int>, d: nat): seq<int>
    requires InRange(s, |x|)
    decreases |s|
  {
    if s == [] then []
    else (if Distance(x, s[0], xi) == d then [s[0]] else []) + AtDistance(x, xi, s[1..], d)
  }

  lemma {:induction false} AtDistanceAppend(x: seq<int>, xi: int, a: seq<int>, b: seq<int>, d: nat)
    requires InRange(a, |x|) && InRange(b, |x|)
    ensures AtDistance(x, xi, a + b, d) == AtDistance(x, xi, a, d) + AtDistance(x, xi, b, d)
    decreases |a|
  {
    if a == [] {
      assert a + b == b;
    } else {
      assert (a + b)[1..] == a[1..] + b;
      AtDistanceAppend(x, xi, a[1..], b, d);
      var head := if Distance(x, a[0], xi) == d then [a[0]] else [];
      AppendAssociative(head, AtDistance(x, xi, a[1..], d), AtDistance(x, xi, b, d));
    }
  }

  lemma {:induction false} AtDistanceNone(x: seq<int>, xi: int, s: seq<int>, d: nat)
    requires InRange(s, |x|)
    requires forall k :: 0 <= k < |s| ==> Distance(x, s[k], xi) != d
    ensures AtDistance(x, xi, s, d) == []
    decreases |s|
  {
    if s != [] {
      AtDistanceNone(x, xi, s[1..], d);
    }
  }

  /** Inserting `e` keeps the other elements at each distance in their
      order and puts `e` after those at its own distance. */
  lemma {:induction false} InsertStable(x: seq<int>, xi: int, e: int, t: seq<int>, d: nat)
    requires 0 <= e < |x| && InRange(t, |x|) && NearestFirst(x, xi, t)
    ensures AtDistance(x, xi, InsertByDistance(x, xi, e, t), d)
      == AtDistance(x, xi, t, d) + (if Distance(x, e, xi) == d then [e] else [])
    decreases |t|
  {
    if t == [] {
      assert [e][1..] == [];
    } else if Distance(x, e, xi) < Distance(x, t[0], xi) {
      InsertFrontStable(x, xi, e, t, d);
    } else {
      InsertLaterStable(x, xi, e, t, d);
    }
  }

  /** The case where `e` goes in front of every element of `t`. */
  lemma InsertFrontStable(x: seq<int>, xi: int, e: int, t: seq<int>, d: nat)
    requires 0 <= e < |x| && InRange(t, |x|) && NearestFirst(x, xi, t)
    requires t != [] && Distance(x, e, xi) < Distance(x, t[0], xi)
    ensures AtDistance(x, xi, [e] + t, d)
      == AtDistance(x, xi, t, d) + (if Distance(x, e, xi) == d then [e] else [])
  {
    assert ([e] + t)[1..] == t;
    if Distance(x, e, xi) == d {
      forall k | 0 <= k < |t| ensures Distance(x, t[k], xi) != d {
        if k > 0 {
          assert Distance(x, t[0], xi) <= Distance(x, t[k], xi);
        }
      }
      AtDistanceNone(x, xi, t, d);
    }
  }

  /** The case where `e` goes after the head of `t`. */
  lemma {:induction false} InsertLaterStable(x: seq<int>, xi: int, e: int, t: seq<int>, d: nat)
    requires 0 <= e < |x| && InRange(t, |x|) && NearestFirst(x, xi, t)
    requires t != [] && Distance(x, e, xi) >= Distance(x, t[0], xi)
    ensures AtDistance(x, xi, InsertByDistance(x, xi, e, t), d)
      == AtDistance(x, xi, t, d) + (if Distance(x, e, xi) == d then [e] else [])
    decreases |t|, 0
  {
    var t' := t[1..];
    assert InRange(t', |x|) && NearestFirst(x, xi, t');
    var rest := InsertByDistance(x, xi, e, t');
    InsertStable(x, xi, e, t', d);
    assert ([t[0]] + rest)[1..] == rest;
    var head := if Distance(x, t[0], xi) == d then [t[0]] else [];
    var tail := if Distance(x, e, xi) == d then [e] else [];
    AppendAssociative(head, AtDistance(x, xi, t', d), tail);
  }

  lemma AppendAssociative(a: seq<int>, b: seq<int>, c: seq<int>)
    ensures a + (b + c) == (a + b) + c
  {
  }

  /** Looked at from the back: the last element comes after the others. */
  lemma AtDistanceLast(x: seq<int>, xi: int, s: seq<int>, d: nat)
    requires InRange(s, |x|) && s != []
    ensures AtDistance(x, xi, s, d)
      == AtDistance(x, xi, s[..|s| - 1], d) + (if Distance(x, s[|s| - 1], xi) == d then [s[|s| - 1]] else [])
  {
    var init, last := s[..|s| - 1], s[|s| - 1];
    assert s == init + [last];
    AtDistanceAppend(x, xi, init, [last], d);
    assert [last][1..] == [];
  }

  /** The sort is stable: at every distance it keeps the input order. */
  lemma {:induction false} SortStable(x: seq<int>, xi: int, s: seq<int>, d: nat)
    requires InRange(s, |x|)
    ensures AtDistance(x, xi, SortByDistance(x, xi, s), d) == AtDistance(x, xi, s, d)
    decreases |s|
  {
    if s != [] {
      var init, last := s[..|s| - 1], s[|s| - 1];
      SortStable(x, xi, init, d);
      InsertStable(x, xi, last, SortByDistance(x, xi, init), d);
      AtDistanceLast(x, xi, s, d);
    }
  }

  /** `left_points` (lines 64-67), with the distance keys dropped after
      sorting. */
  function LeftPoints(x: seq<int>, valid: seq<int>, xi: int): (r: seq<int>)
    requires InRange(valid, |x|)
    ensures InRange(r, |x|)
    ensures forall j {:trigger j in r} :: j in r <==> j in valid && x[j] < xi
    ensures NearestFirst(x, xi, r)
    ensures StrictlyIncreasing(valid) ==> Distinct(r)
  {
    var pool := Below(x, valid, xi);
    var r := SortByDistance(x, xi, pool);
    assert forall j {:trigger j in r} :: j in r <==> j in pool by {
      forall j ensures j in r <==> j in pool {
        assert j in r <==> j in multiset(r);
        assert j in pool <==> j in multiset(pool);
      }
    }
    r
  }

  /** `right_points` (lines 68-71), with the distance keys dropped after
      sorting. */
  function RightPoints(x: seq<int>, valid: seq<int>, xi: int): (r: seq<int>)
    requires InRange(valid, |x|)
    ensures InRange(r, |x|)
    ensures forall j {:trigger j in r} :: j in r <==> j in valid && x[j] > xi
    ensures NearestFirst(x, xi, r)
    ensures StrictlyIncreasing(valid) ==> Distinct(r)
  {
    var pool := Above(x, valid, xi);
    var r := SortByDistance(x, xi, pool);
    assert forall j {:trigger j in r} :: j in r <==> j in pool by {
      forall j ensures j in r <==> j in pool {
        assert j in r <==> j in multiset(r);
        assert j in pool <==> j in multiset(pool);
      }
    }
    r
  }

  /** Both side lists are ordered by strictly increasing distance from `xi`;
      as the distances are pairwise distinct this is the only order a sort by
      distance can produce. */
  lemma PointsNearestFirst(x: seq<int>, valid: seq<int>, xi: int)
    requires StrictlyIncreasing(x) && StrictlyIncreasing(valid) && InRange(valid, |x|)
    ensures var l := LeftPoints(x, valid, xi);
      forall p, q :: 0 <= p < q < |l| ==> Distance(x, l[p], xi) < Distance(x, l[q], xi)
    ensures var r := RightPoints(x, valid, xi);
      forall p, q :: 0 <= p < q < |r| ==> Distance(x, r[p], xi) < Distance(x, r[q], xi)
  {
    var l := LeftPoints(x, valid, xi);
    forall p, q | 0 <= p < q < |l| ensures Distance(x, l[p], xi) < Distance(x, l[q], xi) {
      assert l[p] in l && l[q] in l;
    }
    var r := RightPoints(x, valid, xi);
    forall p, q | 0 <= p < q < |r| ensures Distance(x, r[p], xi) < Distance(x, r[q], xi) {
      assert r[p] in r && r[q] in r;
    }
  }

  /** The two filters split a pool with no index at `xi` itself. */
  lemma {:induction false} FiltersPartition(x: seq<int>, valid: seq<int>, xi: int)
    requires InRange(valid, |x|)
    requires forall j :: j in valid ==> x[j] != xi
    ensures |Below(x, valid, xi)| + |Above(x, valid, xi)| == |valid|
    decreases |valid|
  {
    if valid != [] {
      var init := valid[..|valid| - 1];
      assert forall j :: j in init ==> j in valid;
      assert valid[|valid| - 1] in valid;
      FiltersPartition(x, init, xi);
    }
  }

  /** When no candidate sits at the gap's own position, every candidate is on
      exactly one side. */
  lemma PointsPartition(x: seq<int>, valid: seq<int>, xi: int)
    requires InRange(valid, |x|)
    requires forall j :: j in valid ==> x[j] != xi
    ensures |LeftPoints(x, valid, xi)| + |RightPoints(x, valid, xi)| == |valid|
  {
    FiltersPartition(x, valid, xi);
    var below, above := Below(x, valid, xi), Above(x, valid, xi);
    assert |multiset(SortByDistance(x, xi, below))| == |multiset(below)|;
    assert |multiset(SortByDistance(x, xi, above))| == |multiset(above)|;
  }

  /** Two duplicate-free lists on opposite sides of `xi` join into one. */
  lemma OppositeSidesDistinct(x: seq<int>, xi: int, l: seq<int>, r: seq<int>)
    requires InRange(l, |x|) && InRange(r, |x|) && Distinct(l) && Distinct(r)
    requires forall k :: 0 <= k < |l| ==> x[l[k]] < xi
    requires forall k :: 0 <= k < |r| ==> x[r[k]] > xi
    ensures Distinct(l + r)
  {
    var s := l + r;
    forall p, q | 0 <= p < q < |s| ensures s[p] != s[q] {
      if q < |l| {
        assert s[p] == l[p] && s[q] == l[q];
      } else if p >= |l| {
        assert s[p] == r[p - |l|] && s[q] == r[q - |l|];
      } else {
        assert x[s[p]] < xi < x[s[q]];
      }
    }
  }

  /** The two sides have no index in common and none repeated. */
  lemma SidesDistinct(x: seq<int>, valid: seq<int>, xi: int)
    requires StrictlyIncreasing(valid) && InRange(valid, |x|)
    ensures Distinct(LeftPoints(x, valid, xi) + RightPoints(x, valid, xi))
  {
    var l, r := LeftPoints(x, valid, xi), RightPoints(x, valid, xi);
    assert forall k :: 0 <= k < |l| ==> l[k] in l;
    assert forall k :: 0 <= k < |r| ==> r[k] in r;
    OppositeSidesDistinct(x, xi, l, r);
  }

  // ---------------------------------------------------------------------
  // Choosing the three points (lines 73-88)

  /** Up to two nearest on each side, then the remaining left points, then
      the remaining right points. */
  function Full(left: seq<int>, right: seq<int>): (f: seq<int>)
    ensures |f| == |left| + |right|
  {
    var nl, nr := Min(2, |left|), Min(2, |right|);
    left[..nl] + right[..nr] + left[nl..] + right[nr..]
  }

  /** Reference definition of `candidates[:3]`. */
  function Used(left: seq<int>, right: seq<int>): (u: seq<int>)
    ensures |u| == Min(3, |left| + |right|)
  {
    Full(left, right)[..Min(3, |left| + |right|)]
  }

  /** What `Used` picks, case by case: two left and one right when both
      sides allow it; otherwise the shortfall comes from the other side. */
  lemma UsedCases(left: seq<int>, right: seq<int>)
    ensures |left| >= 2 && |right| >= 1 ==> Used(left, right) == [left[0], left[1], right[0]]
    ensures |left| == 1 && |right| >= 2 ==> Used(left, right) == [left[0], right[0], right[1]]
    ensures |left| == 1 && |right| == 1 ==> Used(left, right) == [left[0], right[0]]
    ensures |left| == 0 ==> Used(left, right) == right[..Min(3, |right|)]
    ensures |right| == 0 ==> Used(left, right) == left[..Min(3, |left|)]
  {
    var u := Used(left, right);
    if |left| >= 2 && |right| >= 1 {
      assert u[0] == left[0] && u[1] == left[1] && u[2] == right[0];
    } else if |left| == 1 && |right| >= 2 {
      assert u[0] == left[0] && u[1] == right[0] && u[2] == right[1];
    } else if |left| == 0 {
      assert Full(left, right) == right[..Min(2, |right|)] + right[Min(2, |right|)..];
      assert right[..Min(2, |right|)] + right[Min(2, |right|)..] == right;
    } else if |right| == 0 {
      assert Full(left, right) == left[..Min(2, |left|)] + left[Min(2, |left|)..];
      assert left[..Min(2, |left|)] + left[Min(2, |left|)..] == left;
    }
  }

  /** Every chosen point comes from one of the two sides. */
  lemma UsedMembers(left: seq<int>, right: seq<int>)
    ensures forall t :: 0 <= t < |Used(left, right)| ==> Used(left, right)[t] in left || Used(left, right)[t] in right
  {
    UsedCases(left, right);
  }

  /** The chosen points are pairwise different indices. */
  lemma UsedDistinct(left: seq<int>, right: seq<int>)
    requires Distinct(left + right)
    ensures Distinct(Used(left, right))
  {
    UsedCases(left, right);
    var s := left + right;
    if |left| >= 2 && |right| >= 1 {
      assert left[0] == s[0] && left[1] == s[1] && right[0] == s[|left|];
    } else if |left| == 1 && |right| >= 1 {
      assert left[0] == s[0] && right[0] == s[1];
      assert |right| >= 2 ==> right[1] == s[2];
    } else if |left| == 0 {
      assert s == right;
    } else {
      assert s == left;
    }
  }

  /** The candidate list after the padding loop has popped `k` left points
      and `m` right points. */
  function Chosen(left: seq<int>, right: seq<int>, k: int, m: int): seq<int>
    requires 0 <= k <= |left| && 0 <= m <= |right|
  {
    var nl, nr := Min(2, |left|), Min(2, |right|);
    left[..nl] + right[..nr] + left[nl..Max(nl, k)] + right[nr..Max(nr, m)]
  }

  /** Popping left point `k`: it is already a candidate iff it is one of the
      two nearest; otherwise it is appended. */
  lemma PopLeft(left: seq<int>, right: seq<int>, k: int)
    requires Distinct(left + right) && 0 <= k < |left|
    ensures left[k] in Chosen(left, right, k, 0) <==> k < Min(2, |left|)
    ensures Chosen(left, right, k + 1, 0) ==
      if k < Min(2, |left|) then Chosen(left, right, k, 0) else Chosen(left, right, k, 0) + [left[k]]
  {
    var nl, nr := Min(2, |left|), Min(2, |right|);
    var c := Chosen(left, right, k, 0);
    assert right[nr..Max(nr, 0)] == [];
    if k < nl {
      assert c[k] == left[k];
    } else {
      var s := left + right;
      assert left[k] == s[k];
      forall p | 0 <= p < k ensures left[p] != left[k] { assert left[p] == s[p]; }
      forall q | 0 <= q < |right| ensures right[q] != left[k] { assert right[q] == s[|left| + q]; }
      assert Max(nl, k) == k && Max(nl, k + 1) == k + 1 && Max(nr, 0) == nr;
      var head := left[..nl] + right[..nr];
      assert c == head + left[nl..k] + [];
      assert Chosen(left, right, k + 1, 0) == head + left[nl..k + 1] + [];
      assert left[nl..k + 1] == left[nl..k] + [left[k]];
    }
  }

  /** Popping right point `m` once the left list is exhausted. */
  lemma PopRight(left: seq<int>, right: seq<int>, m: int)
    requires Distinct(left + right) && 0 <= m < |right|
    ensures right[m] in Chosen(left, right, |left|, m) <==> m < Min(2, |right|)
    ensures Chosen(left, right, |left|, m + 1) ==
      if m < Min(2, |right|) then Chosen(left, right, |left|, m)
      else Chosen(left, right, |left|, m) + [right[m]]
  {
    var nl, nr := Min(2, |left|), Min(2, |right|);
    var c := Chosen(left, right, |left|, m);
    assert left[nl..Max(nl, |left|)] == left[nl..];
    if m < nr {
      assert c[nl + m] == right[m];
    } else {
      var s := left + right;
      assert right[m] == s[|left| + m];
      forall p | 0 <= p < |left| ensures left[p] != right[m] { assert left[p] == s[p]; }
      forall q | 0 <= q < m ensures right[q] != right[m] { assert right[q] == s[|left| + q]; }
      assert right[nr..m + 1] == right[nr..m] + [right[m]];
    }
  }

  lemma DistinctAppend(c: seq<int>, e: int)
    requires Distinct(c) && e !in c
    ensures Distinct(c + [e])
  {
    var c' := c + [e];
    forall p, q | 0 <= p < q < |c'| ensures c'[p] != c'[q] {
      if q == |c| { assert c'[p] == c[p]; }
    }
  }

  /** The candidate list before padding is duplicate-free. */
  lemma HeadsDistinct(left: seq<int>, right: seq<int>, nl: int, nr: int)
    requires Distinct(left + right) && 0 <= nl <= |left| && 0 <= nr <= |right|
    ensures Distinct(left[..nl] + right[..nr])
  {
    var s, c := left + right, left[..nl] + right[..nr];
    forall p, q | 0 <= p < q < |c| ensures c[p] != c[q] {
      var p' := if p < nl then p else |left| + p - nl;
      var q' := if q < nl then q else |left| + q - nl;
      assert c[p] == s[p'] && c[q] == s[q'];
    }
  }

  /** The candidate list after padding is a prefix of `Full`. */
  lemma ChosenPrefix(left: seq<int>, right: seq<int>, k: int, m: int)
    requires 0 <= k <= |left| && 0 <= m <= |right| && (m > 0 ==> k == |left|)
    ensures Chosen(left, right, k, m) == Full(left, right)[..|Chosen(left, right, k, m)|]
  {
    if m == 0 {
      ChosenPrefixLeft(left, right, k);
    } else {
      ChosenPrefixRight(left, right, m);
    }
  }

  /** While the left list is popped, the candidates are the heads followed
      by a run of the remaining left points. */
  lemma ChosenPrefixLeft(left: seq<int>, right: seq<int>, k: int)
    requires 0 <= k <= |left|
    ensures Chosen(left, right, k, 0) == Full(left, right)[..|Chosen(left, right, k, 0)|]
  {
    var nl, nr := Min(2, |left|), Min(2, |right|);
    var kk := Max(nl, k);
    var front := left[..nl] + right[..nr] + left[nl..kk];
    assert right[nr..Max(nr, 0)] == [];
    assert Chosen(left, right, k, 0) == front;
    assert left[nl..] == left[nl..kk] + left[kk..];
    assert Full(left, right) == front + (left[kk..] + right[nr..]);
    PrefixOfAppend(front, left[kk..] + right[nr..]);
  }

  /** Once the left list is exhausted, the candidates are the heads, all
      remaining left points and a run of the remaining right points. */
  lemma ChosenPrefixRight(left: seq<int>, right: seq<int>, m: int)
    requires 0 <= m <= |right|
    ensures Chosen(left, right, |left|, m) == Full(left, right)[..|Chosen(left, right, |left|, m)|]
  {
    var nl, nr := Min(2, |left|), Min(2, |right|);
    var mm := Max(nr, m);
    var c := Chosen(left, right, |left|, m);
    assert left[nl..Max(nl, |left|)] == left[nl..];
    assert right[nr..] == right[nr..mm] + right[mm..];
    assert Full(left, right) == c + right[mm..];
    PrefixOfAppend(c, right[mm..]);
  }

  lemma PrefixOfAppend(a: seq<int>, b: seq<int>)
    ensures (a + b)[..|a|] == a
  {
  }

  /** The padding loop of lines 76-88: start from up to two nearest points
      per side, then pop from the left list first, then the right one,
      appending what is not yet a candidate, until there are three. */
  method SelectCandidates(leftPoints: seq<int>, rightPoints: seq<int>) returns (candidates: seq<int>)
    requires Distinct(leftPoints + rightPoints)
    ensures Distinct(candidates)
    ensures |candidates| >= 3 <==> |leftPoints| + |rightPoints| >= 3
    ensures candidates[..Min(3, |candidates|)] == Used(leftPoints, rightPoints)
  {
    var lp, rp := leftPoints, rightPoints;
    candidates := leftPoints[..Min(2, |leftPoints|)] + rightPoints[..Min(2, |rightPoints|)];
    HeadsDistinct(leftPoints, rightPoints, Min(2, |leftPoints|), Min(2, |rightPoints|));
    ghost var k, m := 0, 0;
    assert candidates == Chosen(leftPoints, rightPoints, k, m);
    while |candidates| < 3 && (lp != [] || rp != [])
      invariant 0 <= k <= |leftPoints| && lp == leftPoints[k..]
      invariant 0 <= m <= |rightPoints| && rp == rightPoints[m..]
      invariant m > 0 ==> k == |leftPoints|
      invariant candidates == Chosen(leftPoints, rightPoints, k, m)
      invariant Distinct(candidates)
      decreases |lp| + |rp|
    {
      if lp != [] {
        var extra := lp[0];
        lp := lp[1..];
        PopLeft(leftPoints, rightPoints, k);
        if extra !in candidates {
          DistinctAppend(candidates, extra);
          candidates := candidates + [extra];
        }
        k := k + 1;
      } else if rp != [] {
        var extra := rp[0];
        rp := rp[1..];
        PopRight(leftPoints, rightPoints, m);
        if extra !in candidates {
          DistinctAppend(candidates, extra);
          candidates := candidates + [extra];
        }
        m := m + 1;
      }
    }
    ChosenPrefix(leftPoints, rightPoints, k, m);
  }

  // ---------------------------------------------------------------------
  // The Cramer solve (lines 97-114)

  function Det(x0: real, x1: real, x2: real): real {
    x0 * x0 * (x1 - x2) + x0 * (x2 * x2 - x1 * x1) + (x1 * x1 * x2 - x2 * x2 * x1)
  }

  function DetA(x0: real, y0: real, x1: real, y1: real, x2: real, y2: real): real {
    y0 * (x1 - x2) + y1 * (x2 - x0) + y2 * (x0 - x1)
  }

  function DetB(x0: real, y0: real, x1: real, y1: real, x2: real, y2: real): real {
    x0 * x0 * (y1 - y2) + y0 * (x2 * x2 - x1 * x1) + x1 * x1 * y2 - x2 * x2 * y1
  }

  function DetC(x0: real, y0: real, x1: real, y1: real, x2: real, y2: real): real {
    x0 * x0 * (x1 * y2 - x2 * y1) + x0 * (x2 * x2 * y1 - x1 * x1 * y2) + y0 * (x1 * x1 * x2 - x2 * x2 * x1)
  }

  /** `a*x^2 + b*x + c`, as at line 114. */
  function Eval(co: Coefficients, x: real): real {
    co.a * (x * x) + co.b * x + co.c
  }

  /** `det` is the Vandermonde determinant. */
  lemma DetVandermonde(x0: real, x1: real, x2: real)
    ensures Det(x0, x1, x2) == (x0 - x1) * (x0 - x2) * (x1 - x2)
  {
  }

  lemma ZeroProduct(p: real, q: real, r: real)
    ensures p * q * r == 0.0 <==> p == 0.0 || q == 0.0 || r == 0.0
  {
    if p != 0.0 && q != 0.0 {
      assert p * q != 0.0;
    }
  }

  /** The determinant vanishes iff two of the three positions coincide. */
  lemma DetZeroIff(x0: int, x1: int, x2: int)
    ensures Det(x0 as real, x1 as real, x2 as real) == 0.0 <==> x0 == x1 || x0 == x2 || x1 == x2
  {
    DetVandermonde(x0 as real, x1 as real, x2 as real);
    ZeroProduct((x0 - x1) as real, (x0 - x2) as real, (x1 - x2) as real);
  }

  /** The rows of the system: at each of the three positions the Cramer
      numerators reproduce `y * det`. */
  lemma CramerRow0(x0: real, y0: real, x1: real, y1: real, x2: real, y2: real)
    ensures DetA(x0, y0, x1, y1, x2, y2) * (x0 * x0) + DetB(x0, y0, x1, y1, x2, y2) * x0
      + DetC(x0, y0, x1, y1, x2, y2) == y0 * Det(x0, x1, x2)
  {
  }

  lemma CramerRow1(x0: real, y0: real, x1: real, y1: real, x2: real, y2: real)
    ensures DetA(x0, y0, x1, y1, x2, y2) * (x1 * x1) + DetB(x0, y0, x1, y1, x2, y2) * x1
      + DetC(x0, y0, x1, y1, x2, y2) == y1 * Det(x0, x1, x2)
  {
  }

  lemma CramerRow2(x0: real, y0: real, x1: real, y1: real, x2: real, y2: real)
    ensures DetA(x0, y0, x1, y1, x2, y2) * (x2 * x2) + DetB(x0, y0, x1, y1, x2, y2) * x2
      + DetC(x0, y0, x1, y1, x2, y2) == y2 * Det(x0, x1, x2)
  {
  }

  /** Dividing a row `da*x^2 + db*x + dc == y*d` by `d` gives a parabola
      through `(x, y)`. */
  lemma FitRow(d: real, da: real, db: real, dc: real, x: real, y: real)
    requires d != 0.0
    requires da * (x * x) + db * x + dc == y * d
    ensures Eval(Coefficients(da / d, db / d, dc / d), x) == y
  {
    assert Eval(Coefficients(da / d, db / d, dc / d), x) == (da * (x * x) + db * x + dc) / d;
  }

  function Cramer(x0: real, y0: real, x1: real, y1: real, x2: real, y2: real): Coefficients
    requires Det(x0, x1, x2) != 0.0
  {
    var det := Det(x0, x1, x2);
    Coefficients(DetA(x0, y0, x1, y1, x2, y2) / det, DetB(x0, y0, x1, y1, x2, y2) / det,
                 DetC(x0, y0, x1, y1, x2, y2) / det)
  }

  /** A point on a row of the system lies on the fitted parabola. */
  lemma CramerPasses(x0: real, y0: real, x1: real, y1: real, x2: real, y2: real, x: real, y: real)
    requires Det(x0, x1, x2) != 0.0
    requires DetA(x0, y0, x1, y1, x2, y2) * (x * x) + DetB(x0, y0, x1, y1, x2, y2) * x
      + DetC(x0, y0, x1, y1, x2, y2) == y * Det(x0, x1, x2)
    ensures Eval(Cramer(x0, y0, x1, y1, x2, y2), x) == y
  {
    FitRow(Det(x0, x1, x2), DetA(x0, y0, x1, y1, x2, y2), DetB(x0, y0, x1, y1, x2, y2),
           DetC(x0, y0, x1, y1, x2, y2), x, y);
  }

  /** The fitted parabola passes through all three points. */
  lemma CramerFits(x0: real, y0: real, x1: real, y1: real, x2: real, y2: real)
    requires Det(x0, x1, x2) != 0.0
    ensures var co := Cramer(x0, y0, x1, y1, x2, y2);
      Eval(co, x0) == y0 && Eval(co, x1) == y1 && Eval(co, x2) == y2
  {
    CramerRow0(x0, y0, x1, y1, x2, y2);
    CramerPasses(x0, y0, x1, y1, x2, y2, x0, y0);
    CramerRow1(x0, y0, x1, y1, x2, y2);
    CramerPasses(x0, y0, x1, y1, x2, y2, x1, y1);
    CramerRow2(x0, y0, x1, y1, x2, y2);
    CramerPasses(x0, y0, x1, y1, x2, y2, x2, y2);
  }

  /** Lines 102-112: `None` when `det == 0`, which happens exactly when two
      positions coincide, otherwise the coefficients by Cramer's rule. */
  function SolveQuadratic(x0: int, y0: real, x1: int, y1: real, x2: int, y2: real): (r: Option<Coefficients>)
    ensures r.None? <==> x0 == x1 || x0 == x2 || x1 == x2
  {
    DetZeroIff(x0, x1, x2);
    if Det(x0 as real, x1 as real, x2 as real) == 0.0 then None
    else Some(Cramer(x0 as real, y0, x1 as real, y1, x2 as real, y2))
  }

  /** When the solve succeeds, the parabola passes through all three
      points. */
  lemma SolveQuadraticFits(x0: int, y0: real, x1: int, y1: real, x2: int, y2: real)
    requires SolveQuadratic(x0, y0, x1, y1, x2, y2).Some?
    ensures var co := SolveQuadratic(x0, y0, x1, y1, x2, y2).value;
      && Eval(co, x0 as real) == y0
      && Eval(co, x1 as real) == y1
      && Eval(co, x2 as real) == y2
  {
    CramerFits(x0 as real, y0, x1 as real, y1, x2 as real, y2);
  }

  // ---------------------------------------------------------------------
  // The pass

  /** The indices whose points the pass uses for gap `i` (`candidates[:3]`),
      taken from the ORIGINAL known values. */
  function ChosenAt(x: seq<int>, y: seq<Cell>, i: int): (u: seq<int>)
    requires |x| == |y| && 0 <= i < |y|
    ensures |u| <= 3
    ensures forall t :: 0 <= t < |u| ==> 0 <= u[t] < |y| && y[u[t]].Known?
  {
    var valid := ValidIndices(y);
    var left, right := LeftPoints(x, valid, x[i]), RightPoints(x, valid, x[i]);
    UsedMembers(left, right);
    Used(left, right)
  }

  /** The two degeneracy checks of lines 90-95 and 103, the fit through the
      chosen points and its value at position `xi`. */
  function FitAt(x: seq<int>, y: seq<Cell>, xi: int, u: seq<int>): Option<FillRecord>
    requires |x| == |y|
    requires forall t :: 0 <= t < |u| ==> 0 <= u[t] < |y| && y[u[t]].Known?
  {
    if |u| < 3 then None
    else if |{x[u[0]], x[u[1]], x[u[2]]}| < 2 then None
    else
      var pts := [(x[u[0]], y[u[0]].v), (x[u[1]], y[u[1]].v), (x[u[2]], y[u[2]].v)];
      match SolveQuadratic(pts[0].0, pts[0].1, pts[1].0, pts[1].1, pts[2].0, pts[2].1)
      case None => None
      case Some(co) => Some(QuadraticRecord(xi, pts, Eval(co, xi as real), co))
  }

  /** Reference definition of one gap of the pass, computed from the
      ORIGINAL series. */
  function QuadraticAt(x: seq<int>, y: seq<Cell>, i: int): Option<FillRecord>
    requires |x| == |y| && 0 <= i < |y|
  {
    FitAt(x, y, x[i], ChosenAt(x, y, i))
  }

  /** The value the pass leaves at a gap. */
  function QuadraticCell(x: seq<int>, y: seq<Cell>, i: int): Cell
    requires |x| == |y| && 0 <= i < |y|
  {
    match QuadraticAt(x, y, i)
    case None => Missing
    case Some(r) => Known(r.interpolated)
  }

  /** Lines 64-88 for one gap `i`: the two sides of the frozen `valid` list
      and the candidate list built from them, whose first three entries are
      the reference choice. */
  method ChooseCandidates(x: seq<int>, ghost y: seq<Cell>, valid: seq<int>, i: int) returns (candidates: seq<int>)
    requires |x| == |y| && 0 <= i < |y|
    requires valid == ValidIndices(y)
    ensures |candidates| >= 3 ==> candidates[..3] == ChosenAt(x, y, i)
    ensures |candidates| < 3 ==> |ChosenAt(x, y, i)| < 3
  {
    var leftPoints := LeftPoints(x, valid, x[i]);
    var rightPoints := RightPoints(x, valid, x[i]);
    SidesDistinct(x, valid, x[i]);
    candidates := SelectCandidates(leftPoints, rightPoints);
  }

  /** Lines 90-124 for three chosen indices `u`: the two degeneracy checks
      and the solve, reading values from the working copy `work`, which
      agrees with the original series at every known position. */
  method FitPoints(x: seq<int>, ghost y: seq<Cell>, work: seq<Cell>, u: seq<int>, xi: int) returns (r: Option<FillRecord>)
    requires |x| == |y| == |work| && |u| == 3
    requires forall t :: 0 <= t < |u| ==> 0 <= u[t] < |y| && y[u[t]].Known?
    requires forall j :: 0 <= j < |y| && y[j].Known? ==> work[j] == y[j]
    ensures r == FitAt(x, y, xi, u)
  {
    r := None;
    var c0, c1, c2 := u[0], u[1], u[2];
    if |{x[c0], x[c1], x[c2]}| >= 2 {
      assert work[c0] == y[c0] && work[c1] == y[c1] && work[c2] == y[c2];
      var points := [(x[c0], work[c0].v), (x[c1], work[c1].v), (x[c2], work[c2].v)];
      var co := SolveQuadratic(points[0].0, points[0].1, points[1].0, points[1].1, points[2].0, points[2].1);
      if co.Some? {
        var interpolated := Eval(co.value, xi as real);
        r := Some(QuadraticRecord(xi, points, interpolated, co.value));
      }
    }
  }

  /** The body of the loop of `quadratic_interpolation` for one gap `i`:
      candidates from the frozen `valid` list, then the fit through the
      first three. Since the chosen points are originally known, the result
      is that of the reference definition. */
  method FitGap(x: seq<int>, ghost y: seq<Cell>, work: seq<Cell>, valid: seq<int>, i: int) returns (r: Option<FillRecord>)
    requires |x| == |y| == |work| && 0 <= i < |y|
    requires valid == ValidIndices(y)
    requires forall j :: 0 <= j < |y| && y[j].Known? ==> work[j] == y[j]
    ensures r == QuadraticAt(x, y, i)
  {
    var candidates := ChooseCandidates(x, y, valid, i);
    if |candidates| >= 3 {
      r := FitPoints(x, y, work, candidates[..3], x[i]);
    } else {
      r := None;
    }
  }

  /** `quadratic_interpolation`: every gap is visited left to right; the
      candidate pool `valid` is computed once, before any gap is filled, so
      only originally known values are ever used. */
  method QuadraticInterpolation(x: seq<int>, y: seq<Cell>) returns (filled: seq<Cell>, info: map<int, FillRecord>)
    requires |x| == |y|
    ensures |filled| == |y|
    ensures forall i :: 0 <= i < |y| && y[i].Known? ==> filled[i] == y[i]
    ensures forall i :: 0 <= i < |y| && y[i].Missing? ==> filled[i] == QuadraticCell(x, y, i)
    ensures forall i :: i in info <==> 0 <= i < |y| && y[i].Missing? && QuadraticAt(x, y, i).Some?
    ensures forall i :: i in info ==> Some(info[i]) == QuadraticAt(x, y, i)
  {
    filled := y;
    info := map[];
    var valid := ValidIndices(y);
    for i := 0 to |y|
      invariant |filled| == |y|
      invariant forall j :: 0 <= j < |y| && (i <= j || y[j].Known?) ==> filled[j] == y[j]
      invariant forall j :: 0 <= j < i && y[j].Missing? ==> filled[j] == QuadraticCell(x, y, j)
      invariant forall j :: j in info <==> 0 <= j < i && y[j].Missing? && QuadraticAt(x, y, j).Some?
      invariant forall j :: j in info ==> Some(info[j]) == QuadraticAt(x, y, j)
    {
      ghost var before := filled;
      if filled[i].Missing? {
        var r := FitGap(x, y, filled, valid, i);
        if r.Some? {
          filled := filled[i := Known(r.value.interpolated)];
          info := info[i := r.value];
        }
      }
      assert forall j :: 0 <= j < |y| && j != i ==> filled[j] == before[j];
    }
  }

  /** With no known value at the gap's own position, the points chosen for
      it are pairwise different and as many as possible, up to three. */
  lemma ChosenFacts(x: seq<int>, y: seq<Cell>, i: int)
    requires |x| == |y| && 0 <= i < |y| && y[i].Missing?
    requires forall j :: 0 <= j < |y| && y[j].Known? ==> x[j] != x[i]
    ensures |ChosenAt(x, y, i)| == Min(3, |ValidIndices(y)|)
    ensures Distinct(ChosenAt(x, y, i))
  {
    var valid := ValidIndices(y);
    PointsPartition(x, valid, x[i]);
    SidesDistinct(x, valid, x[i]);
    UsedDistinct(LeftPoints(x, valid, x[i]), RightPoints(x, valid, x[i]));
  }

  /** Different indices of a duplicate-free sequence hold different values. */
  lemma DistinctAt(s: seq<int>, p: int, q: int)
    requires Distinct(s) && 0 <= p < |s| && 0 <= q < |s| && p != q
    ensures s[p] != s[q]
  {
    if q < p {
      assert s[q] != s[p];
    }
  }

  /** Three chosen points at pairwise different positions always give a
      fit; fewer than three never do. */
  lemma FitAtSome(x: seq<int>, y: seq<Cell>, xi: int, u: seq<int>)
    requires |x| == |y|
    requires forall t :: 0 <= t < |u| ==> 0 <= u[t] < |y| && y[u[t]].Known?
    requires |u| >= 3 ==> x[u[0]] != x[u[1]] && x[u[0]] != x[u[2]] && x[u[1]] != x[u[2]]
    ensures FitAt(x, y, xi, u).Some? <==> |u| >= 3
  {
    if |u| >= 3 {
      var p, q, r := x[u[0]], x[u[1]], x[u[2]];
      assert q !in {p} && r !in {p, q};
      assert |{p, q, r}| == 3;
    }
  }

  /** Under pairwise different positions a gap is filled iff the series
      has at least three known values, wherever the gap lies (an edge gap is
      extrapolated from one side). */
  lemma QuadraticFillsIff(x: seq<int>, y: seq<Cell>, i: int)
    requires |x| == |y| && Distinct(x) && 0 <= i < |y| && y[i].Missing?
    ensures QuadraticAt(x, y, i).Some? <==> |ValidIndices(y)| >= 3
  {
    var u := ChosenAt(x, y, i);
    forall j | 0 <= j < |y| && y[j].Known? ensures x[j] != x[i] {
      DistinctAt(x, j, i);
    }
    ChosenFacts(x, y, i);
    assert |u| >= 3 ==> x[u[0]] != x[u[1]] && x[u[0]] != x[u[2]] && x[u[1]] != x[u[2]] by {
      if |u| >= 3 {
        DistinctAt(x, u[0], u[1]);
        DistinctAt(x, u[0], u[2]);
        DistinctAt(x, u[1], u[2]);
      }
    }
    FitAtSome(x, y, x[i], u);
  }

  /** A fit through chosen points: the record holds those three points, the
      parabola passes through each, and its value at `xi` is the one
      written. */
  lemma {:induction false} FitAtRecord(x: seq<int>, y: seq<Cell>, xi: int, u: seq<int>)
    requires |x| == |y|
    requires forall t :: 0 <= t < |u| ==> 0 <= u[t] < |y| && y[u[t]].Known?
    requires FitAt(x, y, xi, u).Some?
    ensures var r := FitAt(x, y, xi, u).value;
      && |u| >= 3
      && r.QuadraticRecord?
      && r.x == xi
      && r.quadraticPoints == [(x[u[0]], y[u[0]].v), (x[u[1]], y[u[1]].v), (x[u[2]], y[u[2]].v)]
      && (forall k :: 0 <= k < 3 ==> Eval(r.coefficients, r.quadraticPoints[k].0 as real) == r.quadraticPoints[k].1)
      && r.interpolated == Eval(r.coefficients, xi as real)
  {
    var pts := [(x[u[0]], y[u[0]].v), (x[u[1]], y[u[1]].v), (x[u[2]], y[u[2]].v)];
    SolveQuadraticFits(pts[0].0, pts[0].1, pts[1].0, pts[1].1, pts[2].0, pts[2].1);
  }

  /** A fit through known indices of a series, evaluated at a gap `i`:
      every point of its record is a known sample other than the gap. */
  lemma FitAtSamples(x: seq<int>, y: seq<Cell>, i: int, u: seq<int>)
    requires |x| == |y| && 0 <= i < |y| && y[i].Missing?
    requires forall t :: 0 <= t < |u| ==> 0 <= u[t] < |y| && y[u[t]].Known?
    requires FitAt(x, y, x[i], u).Some?
    ensures var r := FitAt(x, y, x[i], u).value;
      && r.QuadraticRecord?
      && r.x == x[i]
      && |r.quadraticPoints| == 3
      && (forall k :: 0 <= k < 3 ==> Eval(r.coefficients, r.quadraticPoints[k].0 as real) == r.quadraticPoints[k].1)
      && (forall k :: 0 <= k < 3 ==>
            exists j :: 0 <= j < |y| && j != i && x[j] == r.quadraticPoints[k].0 && y[j] == Known(r.quadraticPoints[k].1))
      && r.interpolated == Eval(r.coefficients, x[i] as real)
  {
    FitAtRecord(x, y, x[i], u);
    var r := FitAt(x, y, x[i], u).value;
    forall k | 0 <= k < 3
      ensures exists j :: 0 <= j < |y| && j != i && x[j] == r.quadraticPoints[k].0 && y[j] == Known(r.quadraticPoints[k].1)
    {
      assert y[u[k]].Known?;
      assert x[u[k]] == r.quadraticPoints[k].0 && y[u[k]] == Known(r.quadraticPoints[k].1);
    }
  }

  /** A filled gap's record: three points, each an ORIGINALLY known sample
      other than the gap, all lying on the fitted parabola, and the value
      written is that parabola at the gap. */
  lemma QuadraticRecordFits(x: seq<int>, y: seq<Cell>, i: int)
    requires |x| == |y| && 0 <= i < |y| && y[i].Missing? && QuadraticAt(x, y, i).Some?
    ensures var r := QuadraticAt(x, y, i).value;
      && r.QuadraticRecord?
      && r.x == x[i]
      && |r.quadraticPoints| == 3
      && (forall k :: 0 <= k < 3 ==> Eval(r.coefficients, r.quadraticPoints[k].0 as real) == r.quadraticPoints[k].1)
      && (forall k :: 0 <= k < 3 ==>
            exists j :: 0 <= j < |y| && j != i && x[j] == r.quadraticPoints[k].0 && y[j] == Known(r.quadraticPoints[k].1))
      && r.interpolated == Eval(r.coefficients, x[i] as real)
  {
    FitAtSamples(x, y, i, ChosenAt(x, y, i));
  }
}
