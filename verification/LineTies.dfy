/** Points outside the answer of the search on a line: when none of them is nearer than the
    farthest point of the answer. */
module LineTies {
  import opened IndexLine

  /** No point outside the window is nearer than its farthest point. */
  ghost predicate NothingNearer(xs: seq<Entry>, p: real, k: nat, w: int)
    requires IsWindow(xs, k, w)
  {
    forall j :: 0 <= j < |xs| && !(w <= j < w + k) ==> Distance(xs[j].0, p) >= Cost(xs, p, k, w)
  }

  // ----- Counting points -----

  function Count(xs: seq<Entry>, counts: real -> bool): nat {
    if |xs| == 0 then 0 else Count(xs[..|xs| - 1], counts) + if counts(xs[|xs| - 1].0) then 1 else 0
  }

  /** The number of points strictly nearer to p than d. */
  function Nearer(xs: seq<Entry>, p: real, d: real): nat {
    Count(xs, x => Distance(x, p) < d)
  }

  /** The number of points with a given projection. */
  function At(xs: seq<Entry>, x: real): nat {
    Count(xs, y => y == x)
  }

  lemma {:induction false} CountRange(xs: seq<Entry>, counts: real -> bool, lo: nat, hi: nat)
    requires lo <= hi <= |xs| && forall i :: 0 <= i < |xs| ==> (counts(xs[i].0) <==> lo <= i < hi)
    ensures Count(xs, counts) == hi - lo
    decreases |xs|
  {
    if |xs| > 0 {
      var n := |xs| - 1;
      CountRange(xs[..n], counts, if lo <= n then lo else n, if hi <= n then hi else n);
    }
  }

  // ----- Zones -----

  /** The points below x, those at x, and those above. */
  lemma {:induction false} Boundary(xs: seq<Entry>, x: real) returns (i: nat, j: nat)
    requires Sorted(xs)
    ensures i <= j <= |xs|
    ensures forall m :: 0 <= m < |xs| ==> (xs[m].0 < x <==> m < i) && (xs[m].0 <= x <==> m < j)
    decreases |xs|
  {
    if |xs| == 0 {
      i, j := 0, 0;
    } else {
      var n := |xs| - 1;
      i, j := Boundary(xs[..n], x);
      assert forall m :: 0 <= m < n ==> xs[m] == xs[..n][m] && xs[m].0 <= xs[n].0;
      i := if xs[n].0 < x then n + 1 else i;
      j := if xs[n].0 <= x then n + 1 else j;
    }
  }

  /** From left to right: below p - d, at p - d, nearer than d, at p + d, above p + d. */
  ghost predicate Zones(xs: seq<Entry>, p: real, d: real, a: int, b: int, c: int, e: int) {
    0 <= a <= b <= c <= e <= |xs| &&
    forall i :: 0 <= i < |xs| ==>
      (xs[i].0 < p - d <==> i < a) && (xs[i].0 <= p - d <==> i < b) &&
      (xs[i].0 < p + d <==> i < c) && (xs[i].0 <= p + d <==> i < e)
  }

  lemma FindZones(xs: seq<Entry>, p: real, d: real) returns (a: int, b: int, c: int, e: int)
    requires Sorted(xs) && d > 0.0
    ensures Zones(xs, p, d, a, b, c, e)
    ensures At(xs, p - d) == b - a && Nearer(xs, p, d) == c - b && At(xs, p + d) == e - c
  {
    a, b := Boundary(xs, p - d);
    c, e := Boundary(xs, p + d);
    assert b > 0 ==> xs[b - 1].0 < p + d;
    CountRange(xs, y => y == p - d, a, b);
    CountRange(xs, x => Distance(x, p) < d, b, c);
    CountRange(xs, y => y == p + d, c, e);
  }

  lemma WindowInZone(xs: seq<Entry>, p: real, k: nat, w: int, d: real, a: int, b: int, c: int, e: int)
    requires d > 0.0 && Zones(xs, p, d, a, b, c, e) && Sorted(xs) && IsWindow(xs, k, w)
    ensures Cost(xs, p, k, w) <= d <==> a <= w && w + k <= e
    ensures Cost(xs, p, k, w) < d <==> b <= w && w + k <= c
  {
    assert w < w + k - 1 ==> xs[w].0 <= xs[w + k - 1].0;
  }

  lemma NothingNearerInZone(xs: seq<Entry>, p: real, k: nat, w: int, a: int, b: int, c: int, e: int)
    requires Sorted(xs) && IsWindow(xs, k, w)
    requires var d := Cost(xs, p, k, w); d > 0.0 && Zones(xs, p, d, a, b, c, e)
    ensures NothingNearer(xs, p, k, w) <==> b == c || (w <= b && c <= w + k)
  {
    var d := Cost(xs, p, k, w);
    hide Cost;
    assert forall i :: 0 <= i < |xs| ==> (Distance(xs[i].0, p) < d <==> b <= i < c);
    if NothingNearer(xs, p, k, w) && b < c {
      assert Distance(xs[b].0, p) < d && Distance(xs[c - 1].0, p) < d;
    }
  }

  /** A window of cost 0 leaves nothing nearer. */
  lemma NothingNearerThanZero(xs: seq<Entry>, p: real, k: nat, w: int)
    requires IsWindow(xs, k, w) && Cost(xs, p, k, w) == 0.0
    ensures NothingNearer(xs, p, k, w) && Nearer(xs, p, 0.0) == 0
  {
    CountRange(xs, x => Distance(x, p) < 0.0, 0, 0);
  }

  // ----- The conditions -----

  /** No best window leaves a nearer point outside exactly if no point is nearer than the best
      cost d, or the nearer ones fit k together with all the points at p - d and also with all
      those at p + d. */
  lemma BestLeaveNothingNearer(xs: seq<Entry>, p: real, k: nat, w: int)
    requires Sorted(xs) && Best(xs, p, k, w)
    ensures var d := Cost(xs, p, k, w);
            var near, left, right := Nearer(xs, p, d), At(xs, p - d), At(xs, p + d);
            (forall v :: Best(xs, p, k, v) ==> NothingNearer(xs, p, k, v)) <==>
            near == 0 || (near + left <= k && near + right <= k)
  {
    var d := Cost(xs, p, k, w);
    if d == 0.0 {
      NothingNearerThanZero(xs, p, k, w);
      forall v | Best(xs, p, k, v) ensures NothingNearer(xs, p, k, v) {
        NothingNearerThanZero(xs, p, k, v);
      }
    } else {
      var a, b, c, e := FindZones(xs, p, d);
      WindowInZone(xs, p, k, w, d, a, b, c, e);
      hide Zones, Sorted, Distance, NothingNearer;
      InZoneIsBest(xs, p, k, w, a, a, b, c, e);
      InZoneIsBest(xs, p, k, w, e - k, a, b, c, e);
      forall v | Best(xs, p, k, v)
        ensures a <= v && v + k <= e && (NothingNearer(xs, p, k, v) <==> b == c || (v <= b && c <= v + k))
      {
        WindowInZone(xs, p, k, v, d, a, b, c, e);
        NothingNearerInZone(xs, p, k, v, a, b, c, e);
      }
    }
  }

  lemma InZoneIsBest(xs: seq<Entry>, p: real, k: nat, w: int, v: int, a: int, b: int, c: int, e: int)
    requires Sorted(xs) && Best(xs, p, k, w) && Cost(xs, p, k, w) > 0.0 && Zones(xs, p, Cost(xs, p, k, w), a, b, c, e)
    requires a <= v && v + k <= e
    ensures Best(xs, p, k, v)
  {
    WindowInZone(xs, p, k, v, Cost(xs, p, k, w), a, b, c, e);
  }

  /** The window that the search keeps is the leftmost best one: it leaves no nearer point outside
      exactly if no point is nearer than its cost d, or the nearer ones and all the points at
      p - d fit k, or all the nearer ones are below p. */
  lemma AnswerLeavesNothingNearer(xs: seq<Entry>, p: real, k: nat, w: int, pos: int)
    requires Sorted(xs) && Chosen(xs, p, k, w) && Splits(xs, p, pos)
    ensures var d := Cost(xs, p, k, w);
            NothingNearer(xs, p, k, w) <==>
            Nearer(xs, p, d) == 0 || Nearer(xs, p, d) + At(xs, p - d) <= k ||
            forall j :: pos <= j < |xs| ==> Distance(xs[j].0, p) >= d
  {
    var d := Cost(xs, p, k, w);
    if d == 0.0 {
      NothingNearerThanZero(xs, p, k, w);
    } else {
      var a, b, c, e := FindZones(xs, p, d);
      assert pos < |xs| ==> (xs[pos].0 <= p - d <==> pos < b);
      assert c < |xs| ==> p + d <= xs[c].0;
      assert b <= pos <= c && forall j :: pos <= j < |xs| ==> (Distance(xs[j].0, p) < d <==> j < c);
      WindowInZone(xs, p, k, w, d, a, b, c, e);
      NothingNearerInZone(xs, p, k, w, a, b, c, e);
      FewNearer(xs, p, k, w, a, b, c, e);
      var m := if a < pos - k then pos - k else a;
      WindowInZone(xs, p, k, m, d, a, b, c, e);
      hide Zones, Sorted, Distance, NothingNearer, Cost, Best;
      assert m == w;
    }
  }

  /** Fewer than k points are nearer than the best cost. */
  lemma FewNearer(xs: seq<Entry>, p: real, k: nat, w: int, a: int, b: int, c: int, e: int)
    requires Sorted(xs) && Best(xs, p, k, w) && Cost(xs, p, k, w) > 0.0 && Zones(xs, p, Cost(xs, p, k, w), a, b, c, e)
    ensures c - b < k
  {
    if c - b >= k {
      WindowInZone(xs, p, k, b, Cost(xs, p, k, w), a, b, c, e);
    }
  }

  // ----- Consequences -----

  lemma AtMostOne(xs: seq<Entry>, x: real)
    requires StrictlySorted(xs)
    ensures At(xs, x) <= 1
  {
    var i, j := Boundary(xs, x);
    CountRange(xs, y => y == x, i, j);
    assert i + 1 < |xs| ==> xs[i].0 < xs[i + 1].0;
  }

  /** With distinct projections, no best window leaves a nearer point outside. */
  lemma OutsideIsFarther(xs: seq<Entry>, p: real, k: nat, w: int)
    requires StrictlySorted(xs) && Best(xs, p, k, w)
    ensures NothingNearer(xs, p, k, w)
  {
    var d := Cost(xs, p, k, w);
    BestLeaveNothingNearer(xs, p, k, w);
    if d > 0.0 {
      var a, b, c, e := FindZones(xs, p, d);
      FewNearer(xs, p, k, w, a, b, c, e);
      AtMostOne(xs, p - d);
      AtMostOne(xs, p + d);
    } else {
      NothingNearerThanZero(xs, p, k, w);
    }
  }

  /** Not so with equal projections: of -5, -5 and 1 the search for the two nearest to 0 keeps both
      points at distance 5. */
  lemma OutsideMayBeNearer()
    ensures var xs: seq<Entry> := [(-5.0, []), (-5.0, []), (1.0, [])];
            Sorted(xs) && Chosen(xs, 0.0, 2, 0) && !NothingNearer(xs, 0.0, 2, 0)
  {
    var xs: seq<Entry> := [(-5.0, []), (-5.0, []), (1.0, [])];
    forall v | IsWindow(xs, 2, v) ensures Cost(xs, 0.0, 2, 0) <= Cost(xs, 0.0, 2, v) {
      assert v == 0 || v == 1;
    }
    forall pos | Splits(xs, 0.0, pos) ensures pos == 2 {
      assert xs[1].0 < 0.0 <= xs[2].0;
    }
    assert Distance(xs[2].0, 0.0) < Cost(xs, 0.0, 2, 0);
  }
}
