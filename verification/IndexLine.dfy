/** Nearest neighbours on a line of projections (lib/vectors/lsh.cpp): the search looks at a few
    windows of k neighbours only, and the one it returns is the best choice of any k points. */
module IndexLine {

  type Vector = seq<real>

  /** A stored vector with its projection. */
  type Entry = (real, Vector)

  function Dot(a: Vector, b: Vector): real
    requires |a| == |b|
  {
    if a == [] then 0.0 else a[0] * b[0] + Dot(a[1..], b[1..])
  }

  /** Projections are linear, */
  lemma {:induction false} DotLinear(a: Vector, b: Vector, c: Vector, t: real, d: Vector)
    requires |a| == |b| == |c| == |d| && forall i :: 0 <= i < |a| ==> d[i] == b[i] + t * c[i]
    ensures Dot(a, d) == Dot(a, b) + t * Dot(a, c)
  {
    if a != [] {
      DotLinear(a[1..], b[1..], c[1..], t, d[1..]);
      Combine(a[0], b[0], c[0], t, Dot(a[1..], b[1..]), Dot(a[1..], c[1..]));
    }
  }

  lemma Combine(a: real, b: real, c: real, t: real, p: real, q: real)
    ensures a * (b + t * c) + (p + t * q) == a * b + p + t * (a * c + q)
  {
  }

  /** ... and the projection of the i-th unit vector is the i-th coordinate of the line's vector. */
  lemma {:induction false} DotUnit(a: Vector, e: Vector, i: nat)
    requires |a| == |e| && forall j :: 0 <= j < |e| ==> e[j] == if j == i then 1.0 else 0.0
    ensures Dot(a, e) == if i < |a| then a[i] else 0.0
  {
    if a != [] {
      if i > 0 {
        DotUnit(a[1..], e[1..], i - 1);
      } else {
        DotUnit(a[1..], e[1..], |a|);
      }
    }
  }

  function Distance(x: real, p: real): (d: real)
    ensures d >= 0.0
  {
    if x < p then p - x else x - p
  }

  function Max(a: real, b: real): real {
    if a < b then b else a
  }

  ghost predicate Sorted(xs: seq<Entry>) {
    forall i, j :: 0 <= i < j < |xs| ==> xs[i].0 <= xs[j].0
  }

  ghost predicate StrictlySorted(xs: seq<Entry>) {
    forall i, j :: 0 <= i < j < |xs| ==> xs[i].0 < xs[j].0
  }

  // ----- Windows -----

  ghost predicate IsWindow(xs: seq<Entry>, k: nat, w: int) {
    k >= 1 && 0 <= w && w + k <= |xs|
  }

  /** The larger of the distances of a window's ends. */
  function Cost(xs: seq<Entry>, p: real, k: nat, w: int): (c: real)
    requires k >= 1 && 0 <= w && w + k <= |xs|
    ensures c >= 0.0
  {
    Max(Distance(xs[w].0, p), Distance(xs[w + k - 1].0, p))
  }

  /** No window costs less. */
  ghost predicate Best(xs: seq<Entry>, p: real, k: nat, w: int) {
    IsWindow(xs, k, w) && forall v :: IsWindow(xs, k, v) ==> Cost(xs, p, k, w) <= Cost(xs, p, k, v)
  }

  /** The ends of a window are its farthest points. */
  lemma CostIsFarthest(xs: seq<Entry>, p: real, k: nat, w: int, j: int)
    requires Sorted(xs) && IsWindow(xs, k, w) && w <= j < w + k
    ensures Distance(xs[j].0, p) <= Cost(xs, p, k, w)
  {
    assert w < j ==> xs[w].0 <= xs[j].0;
    assert j < w + k - 1 ==> xs[j].0 <= xs[w + k - 1].0;
  }

  /** ... and one of the ends is that far away. */
  lemma CostIsReached(xs: seq<Entry>, p: real, k: nat, w: int)
    requires IsWindow(xs, k, w)
    ensures exists j :: w <= j < w + k && (xs[j].0 == p - Cost(xs, p, k, w) || xs[j].0 == p + Cost(xs, p, k, w))
  {
    var j := if Distance(xs[w].0, p) == Cost(xs, p, k, w) then w else w + k - 1;
    assert xs[j].0 == p - Cost(xs, p, k, w) || xs[j].0 == p + Cost(xs, p, k, w);
  }

  /** Any choice of k points has one at least as far as some window's ends, and so as the best
      window's farthest point. */
  lemma BestOfAllChoices(xs: seq<Entry>, p: real, k: nat, w: int, choice: set<int>)
    requires Sorted(xs) && Best(xs, p, k, w)
    requires |choice| == k && forall j :: j in choice ==> 0 <= j < |xs|
    ensures exists j :: j in choice && Cost(xs, p, k, w) <= Distance(xs[j].0, p)
  {
    var a, b := Ends(choice, |xs|);
    assert IsWindow(xs, k, a);
    assert a < a + k - 1 ==> xs[a].0 <= xs[a + k - 1].0;
    assert a + k - 1 < b ==> xs[a + k - 1].0 <= xs[b].0;
    assert Cost(xs, p, k, a) <= Max(Distance(xs[a].0, p), Distance(xs[b].0, p));
  }

  lemma NoMembers<T(!new)>(s: set<T>)
    requires forall x: T :: x !in s
    ensures |s| == 0
  {
  }

  /** The least and the greatest of some numbers are at least their count apart. */
  lemma {:induction false} Ends(choice: set<int>, n: nat) returns (a: int, b: int)
    requires |choice| >= 1 && forall j :: j in choice ==> 0 <= j < n
    ensures a in choice && b in choice && b - a >= |choice| - 1
    ensures forall j :: j in choice ==> a <= j <= b
    decreases n
  {
    if n - 1 in choice {
      var rest := choice - {n - 1};
      assert |rest| == |choice| - 1;
      if |rest| == 0 {
        a, b := n - 1, n - 1;
        assert forall j :: j in choice && j != n - 1 ==> j in rest;
      } else {
        a, b := Ends(rest, n - 1);
        b := n - 1;
        assert forall j :: j in choice && j != n - 1 ==> j in rest;
      }
    } else {
      if forall x: int :: x !in choice {
        NoMembers(choice);
      }
      a, b := Ends(choice, n - 1);
    }
  }

  // ----- The windows that the search looks at -----

  /** The position that lower_bound returns: vectors never compare less, so only projections count. */
  ghost predicate Splits(xs: seq<Entry>, p: real, pos: int) {
    0 <= pos <= |xs| && (forall j :: 0 <= j < pos ==> xs[j].0 < p) && (forall j :: pos <= j < |xs| ==> p <= xs[j].0)
  }

  lemma SplitsUnique(xs: seq<Entry>, p: real, pos: int, pos1: int)
    requires Splits(xs, p, pos) && Splits(xs, p, pos1)
    ensures pos == pos1
  {
    assert pos < |xs| ==> p <= xs[pos].0;
    assert pos1 < |xs| ==> p <= xs[pos1].0;
  }

  method LowerBound(xs: seq<Entry>, p: real) returns (pos: int)
    requires Sorted(xs)
    ensures Splits(xs, p, pos)
  {
    pos := 0;
    while pos < |xs| && xs[pos].0 < p
      invariant 0 <= pos <= |xs|
      invariant forall j :: 0 <= j < pos ==> xs[j].0 < p
    {
      pos := pos + 1;
    }
  }

  /** Starts of windows from pos - k to pos + 1. */
  ghost predicate Near(k: nat, pos: int, w: int) {
    pos - k <= w <= pos + 1
  }

  /** Looking at these windows only loses nothing. */
  lemma NearWindowsSuffice(xs: seq<Entry>, p: real, k: nat, pos: int, v: int) returns (w: int)
    requires Sorted(xs) && Splits(xs, p, pos) && IsWindow(xs, k, v)
    ensures IsWindow(xs, k, w) && Near(k, pos, w) && Cost(xs, p, k, w) <= Cost(xs, p, k, v)
  {
    w := v;
    if v < pos - k {
      w := pos - k;
      assert xs[v].0 <= xs[w].0 && xs[w].0 <= xs[w + k - 1].0 <= p;
    } else if v > pos + 1 {
      w := pos + 1;
      assert xs[w + k - 1].0 <= xs[v + k - 1].0 && p <= xs[w].0 <= xs[w + k - 1].0;
    }
  }

  // ----- The object -----

  const FAR: real := 100000000000000.0

  function Vectors(xs: seq<Entry>): (vs: seq<Vector>)
    ensures |vs| == |xs| && forall i :: 0 <= i < |xs| ==> vs[i] == xs[i].1
  {
    if xs == [] then [] else [xs[0].1] + Vectors(xs[1..])
  }

  /** The window that the search keeps: a best one, and the first of those that it looks at. */
  ghost predicate Chosen(xs: seq<Entry>, p: real, k: nat, w: int) {
    Best(xs, p, k, w) &&
    forall pos :: Splits(xs, p, pos) ==>
      Near(k, pos, w) && forall v :: IsWindow(xs, k, v) && Near(k, pos, v) && v < w ==> Cost(xs, p, k, w) < Cost(xs, p, k, v)
  }

  /** The answer is the k vectors of the chosen window; the whole line if it is shorter than k, its
      first k vectors if every window costs 1e14 or more. */
  ghost predicate IsAnswer(xs: seq<Entry>, p: real, k: nat, answer: seq<Vector>) {
    if |xs| < k then answer == Vectors(xs)
    else if forall v :: IsWindow(xs, k, v) ==> Cost(xs, p, k, v) >= FAR then answer == Vectors(xs)[..k]
    else exists w :: Chosen(xs, p, k, w) && answer == Vectors(xs)[w..w + k]
  }

  function InsertSorted(xs: seq<Entry>, e: Entry): (r: seq<Entry>)
    ensures multiset(r) == multiset(xs) + multiset{e}
  {
    if xs == [] || e.0 < xs[0].0 then
      assert [e] + xs == [e] + xs;
      [e] + xs
    else
      assert xs == [xs[0]] + xs[1..];
      [xs[0]] + InsertSorted(xs[1..], e)
  }

  lemma {:induction false} InsertKeepsSorted(xs: seq<Entry>, e: Entry)
    requires Sorted(xs)
    ensures Sorted(InsertSorted(xs, e))
  {
    if xs != [] && xs[0].0 <= e.0 {
      InsertKeepsSorted(xs[1..], e);
      var r := InsertSorted(xs[1..], e);
      forall j | 0 <= j < |r| ensures xs[0].0 <= r[j].0 {
        assert r[j] in multiset(r);
        assert r[j] in multiset(xs[1..]) || r[j] == e;
        if r[j] != e {
          assert r[j] in xs[1..];
        }
      }
    }
  }

  class IndexLine {
    const vector: Vector
    var line: seq<Entry>

    constructor (vector: Vector)
      ensures this.vector == vector && line == []
    {
      this.vector := vector;
      line := [];
    }

    method AddVector(v: Vector)
      requires |v| == |vector|
      modifies this
      ensures line == old(line) + [(Dot(vector, v), v)]
    {
      line := line + [(Dot(vector, v), v)];
    }

    /** Sorts the line by projection. */
    method Build()
      modifies this
      ensures Sorted(line) && multiset(line) == multiset(old(line))
    {
      var sorted: seq<Entry> := [];
      for i := 0 to |line|
        invariant line == old(line) && Sorted(sorted) && multiset(sorted) == multiset(line[..i])
      {
        InsertKeepsSorted(sorted, line[i]);
        sorted := InsertSorted(sorted, line[i]);
        assert line[..i + 1] == line[..i] + [line[i]];
      }
      assert line[..|line|] == line;
      line := sorted;
    }

    method SearchNearestK(v: Vector, k: nat) returns (answer: seq<Vector>)
      requires |v| == |vector| && Sorted(line) && line != []
      ensures IsAnswer(line, Dot(vector, v), k, answer)
    {
      hide Cost, Dot;
      var p := Dot(vector, v);
      var pos := LowerBound(line, p);
      var start := if pos < k then 0 else pos - k;
      var end := if |line| - 1 < pos + 1 then |line| - 1 else pos + 1;
      var best, least := FindWindow(p, k, pos, start, end);
      if k >= 1 {
        Searched(line, p, k, pos, best, least);
      }
      hide Chosen, Best, Found, Sorted, Splits;
      answer := VectorsFrom(best, k);
    }

    /** The vectors of k neighbours, fewer at the end of the line. */
    method VectorsFrom(first: int, k: nat) returns (answer: seq<Vector>)
      requires 0 <= first <= |line|
      ensures answer == Vectors(line)[first..if first + k < |line| then first + k else |line|]
    {
      answer := [];
      var i := first;
      while i < first + k && i < |line|
        invariant first <= i <= first + k && i <= |line|
        invariant answer == Vectors(line)[first..i]
      {
        assert Vectors(line)[first..i + 1] == Vectors(line)[first..i] + [Vectors(line)[i]];
        answer := answer + [line[i].1];
        i := i + 1;
      }
    }

    /** The loop over the windows. For k = 0 the index of the last point of the window wraps around
        at 0, and every window counts; the answer is empty all the same. */
    method FindWindow(p: real, k: nat, ghost pos: int, start: int, end: int) returns (best: int, least: real)
      requires Sorted(line) && line != [] && Splits(line, p, pos)
      requires start == (if pos < k then 0 else pos - k) && end == (if |line| - 1 < pos + 1 then |line| - 1 else pos + 1)
      ensures 0 <= best <= |line| && (k >= 1 ==> Found(line, p, k, pos, |line|, best, least))
    {
      hide Sorted, Distance, Max;
      best, least := 0, FAR;
      var i := start;
      while i <= end
        invariant start <= i <= end + 1 && 0 <= best <= |line|
        invariant k >= 1 ==> Found(line, p, k, pos, i, best, least)
      {
        var right := if |line| - 1 < i + k - 1 || i + k == 0 then |line| - 1 else i + k - 1;
        if right - i + 1 >= k {
          var distance := Max(Distance(line[i].0, p), Distance(line[right].0, p));
          if distance < least {
            best, least := i, distance;
          }
        }
        i := i + 1;
      }
    }
  }

  /** Of the near windows before limit, best is the first cheapest below 1e14. */
  ghost predicate Found(xs: seq<Entry>, p: real, k: nat, pos: int, limit: int, best: int, least: real) {
    least <= FAR &&
    (forall v :: IsWindow(xs, k, v) && Near(k, pos, v) && v < limit ==> least <= Cost(xs, p, k, v)) &&
    if least < FAR then
      IsWindow(xs, k, best) && Near(k, pos, best) && Cost(xs, p, k, best) == least &&
      forall v :: IsWindow(xs, k, v) && Near(k, pos, v) && v < best ==> least < Cost(xs, p, k, v)
    else best == 0
  }

  lemma Searched(xs: seq<Entry>, p: real, k: nat, pos: int, best: int, least: real)
    requires Sorted(xs) && Splits(xs, p, pos) && k >= 1 && Found(xs, p, k, pos, |xs|, best, least)
    ensures if least < FAR then Chosen(xs, p, k, best) && best + k <= |xs| else best == 0
    ensures least == FAR ==> forall v :: IsWindow(xs, k, v) ==> Cost(xs, p, k, v) >= 100000000000000.0
  {
    forall v | IsWindow(xs, k, v) ensures least <= Cost(xs, p, k, v) {
      var w := NearWindowsSuffice(xs, p, k, pos, v);
    }
    forall pos1 | Splits(xs, p, pos1) ensures pos1 == pos {
      SplitsUnique(xs, p, pos, pos1);
    }
  }
}
