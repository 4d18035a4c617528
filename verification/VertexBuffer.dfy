/** The bounded buffer of nearest vertices (lib/vectors/hnsw.h). */
module VertexBuffer {
  import opened OrderedSet

  datatype Vertex = Vertex(v: int, d: int)

  /** By distance, then by number. */
  predicate Before(a: Vertex, b: Vertex) {
    if a.d != b.d then a.d < b.d else a.v < b.v
  }

  lemma BeforeTotal()
    ensures StrictTotal(Before)
  {
  }

  /** The k smallest of some vertices, or all if there are no more than k; a negative k is no
      bound, as the comparison with it is unsigned. */
  ghost predicate IsSmallest(s: seq<Vertex>, all: set<Vertex>, k: int) {
    Ascending(s, Before) && (forall x :: x in s ==> x in all) &&
    (forall x, y :: x in s && y in all && y !in s ==> Before(x, y)) &&
    (0 <= k ==> |s| <= k) && (k < 0 || |s| < k ==> forall y :: y in all ==> y in s)
  }

  /** The buffer after a put: the vertex is inserted, and of too many the last one dropped. */
  function AfterPut(s: seq<Vertex>, k: int, x: Vertex): seq<Vertex> {
    if x in s then s
    else
      var r := Insert(s, x, Before);
      if 0 <= k < |r| then r[..|r| - 1] else r
  }

  /** A put keeps the k smallest. */
  lemma PutKeepsSmallest(s: seq<Vertex>, all: set<Vertex>, k: int, x: Vertex)
    requires IsSmallest(s, all, k)
    ensures IsSmallest(AfterPut(s, k, x), all + {x}, k)
  {
    BeforeTotal();
    InsertAscends(s, x, Before);
    var r := Insert(s, x, Before);
    if x !in s && 0 <= k < |r| {
      DroppedLast(s, all, k, x);
    }
  }

  lemma LastIsGreatest(r: seq<Vertex>)
    requires Ascending(r, Before) && r != []
    ensures forall y :: y in r ==> y == r[|r| - 1] || Before(y, r[|r| - 1])
  {
  }

  lemma DroppedLast(s: seq<Vertex>, all: set<Vertex>, k: int, x: Vertex)
    requires IsSmallest(s, all, k) && x !in s && 0 <= k < |Insert(s, x, Before)|
    ensures IsSmallest(AfterPut(s, k, x), all + {x}, k)
  {
    BeforeTotal();
    InsertAscends(s, x, Before);
    var r := Insert(s, x, Before);
    var last, t := r[|r| - 1], r[..|r| - 1];
    InitMembers(r, Before);
    LastIsGreatest(r);
    forall a, b | a in t && b in all + {x} && b !in t ensures Before(a, b) {
      if b != last && a == x {
        assert Before(last, b);
      }
    }
  }

  // ----- Only the set of vertices counts -----

  lemma SmallestWithin(s: seq<Vertex>, t: seq<Vertex>, all: set<Vertex>, k: int, x: Vertex)
    requires IsSmallest(s, all, k) && IsSmallest(t, all, k) && x in s
    ensures x in t
  {
    if x !in t {
      var i :| 0 <= i < |s| && s[i] == x;
      forall y | y in t ensures y in s[..i] {
        assert Before(y, x);
        assert y in s;
        var j :| 0 <= j < |s| && s[j] == y;
        assert j < i;
      }
      BeforeTotal();
      Embeds(t, s, i, Before);
    }
  }

  /** There is one list of the k smallest. */
  lemma SmallestUnique(s: seq<Vertex>, t: seq<Vertex>, all: set<Vertex>, k: int)
    requires IsSmallest(s, all, k) && IsSmallest(t, all, k)
    ensures s == t
  {
    forall x ensures x in s <==> x in t {
      if x in s {
        SmallestWithin(s, t, all, k, x);
      }
      if x in t {
        SmallestWithin(t, s, all, k, x);
      }
    }
    BeforeTotal();
    AscendingUnique(s, t, Before);
  }

  function AfterPuts(k: int, xs: seq<Vertex>): seq<Vertex>
    decreases |xs|
  {
    if xs == [] then [] else AfterPut(AfterPuts(k, xs[..|xs| - 1]), k, xs[|xs| - 1])
  }

  ghost function Members(xs: seq<Vertex>): set<Vertex> {
    set x | x in xs
  }

  /** Any puts, repeated ones and ones of dropped vertices included, leave the k smallest. */
  lemma {:induction false} PutsKeepSmallest(k: int, xs: seq<Vertex>)
    ensures IsSmallest(AfterPuts(k, xs), Members(xs), k)
    decreases |xs|
  {
    if xs != [] {
      var rest, x := xs[..|xs| - 1], xs[|xs| - 1];
      PutsKeepSmallest(k, rest);
      assert xs == rest + [x];
      assert Members(xs) == Members(rest) + {x};
      PutKeepsSmallest(AfterPuts(k, rest), Members(rest), k, x);
    }
  }

  /** Puts of the same vertices in any order and number leave the same buffer. */
  lemma PutsCommute(k: int, xs: seq<Vertex>, ys: seq<Vertex>)
    requires Members(xs) == Members(ys)
    ensures AfterPuts(k, xs) == AfterPuts(k, ys)
  {
    PutsKeepSmallest(k, xs);
    PutsKeepSmallest(k, ys);
    SmallestUnique(AfterPuts(k, xs), AfterPuts(k, ys), Members(xs), k);
  }

  /** No vertex that has been put and is not kept is nearer than one that is, and of equally near ones
      the smaller number is kept. */
  lemma KeptAreNearest(k: int, xs: seq<Vertex>)
    ensures var s := AfterPuts(k, xs);
            forall x, y :: x in s && y in xs && y !in s ==> x.d < y.d || (x.d == y.d && x.v < y.v)
  {
    PutsKeepSmallest(k, xs);
  }

  /** All vertices that have been put are kept if there are at most k, and otherwise k of them. */
  lemma KeptCount(k: int, xs: seq<Vertex>)
    ensures Members(AfterPuts(k, xs)) <= Members(xs)
    ensures |AfterPuts(k, xs)| == if 0 <= k < |Members(xs)| then k else |Members(xs)|
  {
    PutsKeepSmallest(k, xs);
    var s := AfterPuts(k, xs);
    DistinctCount(s);
    if Members(xs) <= Members(s) {
      assert Members(xs) == Members(s);
    } else {
      SubsetCount(Members(s), Members(xs));
    }
    hide Ascending, AfterPuts;
  }

  lemma {:induction false} DistinctCount(s: seq<Vertex>)
    requires Ascending(s, Before)
    ensures |Members(s)| == |s|
  {
    if s != [] {
      var last, rest := s[|s| - 1], s[..|s| - 1];
      BeforeTotal();
      InitMembers(s, Before);
      DistinctCount(rest);
      assert Members(s) == Members(rest) + {last};
    }
  }

  lemma SubsetCount(a: set<Vertex>, b: set<Vertex>)
    requires a <= b && !(b <= a)
    ensures |a| < |b|
  {
    assert b == a + (b - a) && |b - a| > 0;
  }

  // ----- The object -----

  /** Vertices of the buffer are the bindings of the map. */
  ghost predicate Agree(s: seq<Vertex>, m: map<int, int>) {
    (forall x :: x in s ==> x.v in m && m[x.v] == x.d) && forall v :: v in m ==> Vertex(v, m[v]) in s
  }

  lemma InsertAgrees(s: seq<Vertex>, m: map<int, int>, x: Vertex)
    requires Agree(s, m) && x.v !in m
    ensures Agree(Insert(s, x, Before), m[x.v := x.d])
  {
  }

  lemma DropAgrees(s: seq<Vertex>, m: map<int, int>)
    requires Ascending(s, Before) && Agree(s, m) && s != []
    ensures Agree(s[..|s| - 1], m - {s[|s| - 1].v})
  {
    BeforeTotal();
    InitMembers(s, Before);
    var last := s[|s| - 1];
    assert last in s;
  }

  class VertexBuffer {
    const k: int
    var vertexMap: map<int, int>
    var vertices: seq<Vertex>
    ghost var seen: set<Vertex>

    ghost predicate Valid()
      reads this
    {
      IsSmallest(vertices, seen, k) && Agree(vertices, vertexMap)
    }

    constructor (maxVertices: int)
      ensures Valid() && k == maxVertices && seen == {}
    {
      k, vertexMap, vertices, seen := maxVertices, map[], [], {};
    }

    /** A vertex that the buffer holds is not put again, whatever the distance; every other one
        counts. If the vertex has always had this distance, the put counts in either case. */
    method Put(v: int, d: int) returns (added: bool)
      requires Valid()
      modifies this
      ensures Valid() && (added <==> v !in old(vertexMap))
      ensures seen == old(seen) + (if added then {Vertex(v, d)} else {})
      ensures vertices == if added then AfterPut(old(vertices), k, Vertex(v, d)) else old(vertices)
      ensures (forall x :: x in old(seen) && x.v == v ==> x.d == d) ==>
                seen == old(seen) + {Vertex(v, d)} && vertices == AfterPut(old(vertices), k, Vertex(v, d))
    {
      ghost var x := Vertex(v, d);
      assert v in vertexMap ==> Vertex(v, vertexMap[v]) in vertices;
      assert v !in vertexMap ==> x !in vertices;
      PutKeepsSmallest(vertices, seen, k, x);
      BeforeTotal();
      InsertAscends(vertices, x, Before);
      hide IsSmallest, Ascending, Agree, Insert;
      if v in vertexMap {
        return false;
      }
      seen := seen + {x};
      InsertAgrees(vertices, vertexMap, x);
      vertexMap := vertexMap[v := d];
      vertices := Insert(vertices, Vertex(v, d), Before);
      if 0 <= k < |vertices| {
        DropAgrees(vertices, vertexMap);
        var last := vertices[|vertices| - 1];
        vertices := vertices[..|vertices| - 1];
        vertexMap := vertexMap - {last.v};
      }
      return true;
    }

    /** The nearest vertex. */
    method GetSmallestByV() returns (v: int)
      requires Valid() && vertices != []
      ensures exists d :: Vertex(v, d) in seen && forall x :: x in seen ==> d < x.d || (d == x.d && v <= x.v)
    {
      v := vertices[0].v;
      forall x | x in seen ensures !Before(x, vertices[0]) {
        assert x in vertices || Before(vertices[0], x);
      }
      assert Vertex(v, vertices[0].d) in seen;
    }
  }
}
