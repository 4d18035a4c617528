/** Ordered sets as ascending lists, what std::set is specified to be: at most one of each
    element, iteration in order, the greatest element last. */
module OrderedSet {

  ghost predicate StrictTotal<T(!new)>(less: (T, T) -> bool) {
    (forall a, b :: less(a, b) ==> !less(b, a)) &&
    (forall a, b :: !less(a, b) && !less(b, a) ==> a == b) &&
    (forall a, b, c :: less(a, b) && less(b, c) ==> less(a, c))
  }

  ghost predicate Ascending<T(!new)>(s: seq<T>, less: (T, T) -> bool) {
    forall i, j :: 0 <= i < j < |s| ==> less(s[i], s[j])
  }

  function Insert<T(==,!new)>(s: seq<T>, x: T, less: (T, T) -> bool): (r: seq<T>)
    ensures x in r && forall y :: y in r <==> y == x || y in s
  {
    if s == [] || less(x, s[0]) then [x] + s
    else if s[0] == x then s
    else [s[0]] + Insert(s[1..], x, less)
  }

  function Erase<T(==,!new)>(s: seq<T>, x: T): (r: seq<T>)
    ensures |r| <= |s|
  {
    if s == [] then [] else if s[0] == x then s[1..] else [s[0]] + Erase(s[1..], x)
  }

  lemma {:induction false} InsertAscends<T(!new)>(s: seq<T>, x: T, less: (T, T) -> bool)
    requires StrictTotal(less) && Ascending(s, less)
    ensures Ascending(Insert(s, x, less), less)
    ensures |Insert(s, x, less)| == |s| + if x in s then 0 else 1
  {
    if s == [] {
    } else if less(x, s[0]) {
      forall j | 0 <= j < |s| ensures less(x, s[j]) {
        assert j > 0 ==> less(s[0], s[j]);
      }
    } else if s[0] != x {
      InsertAscends(s[1..], x, less);
      var r := Insert(s[1..], x, less);
      forall j | 0 <= j < |r| ensures less(s[0], r[j]) {
        assert r[j] in r;
        assert r[j] != x ==> r[j] in s[1..];
      }
    }
  }

  lemma {:induction false} EraseAscends<T(!new)>(s: seq<T>, x: T, less: (T, T) -> bool)
    requires StrictTotal(less) && Ascending(s, less)
    ensures Ascending(Erase(s, x), less)
    ensures forall y :: y in Erase(s, x) <==> y in s && y != x
  {
    if s != [] {
      if s[0] == x {
        forall j | 0 < j < |s| ensures s[j] != x {
          assert less(s[0], s[j]);
        }
      } else {
        EraseAscends(s[1..], x, less);
        var r := Erase(s[1..], x);
        forall j | 0 <= j < |r| ensures less(s[0], r[j]) {
          assert r[j] in r;
        }
      }
    }
  }

  /** The list without its greatest element. */
  lemma InitMembers<T(!new)>(s: seq<T>, less: (T, T) -> bool)
    requires StrictTotal(less) && Ascending(s, less) && s != []
    ensures Ascending(s[..|s| - 1], less)
    ensures forall x :: x in s[..|s| - 1] <==> x in s && x != s[|s| - 1]
  {
    var last, t := s[|s| - 1], s[..|s| - 1];
    assert s == t + [last];
    forall x | x in t ensures x != last {
      var i :| 0 <= i < |t| && t[i] == x;
      assert less(s[i], s[|s| - 1]);
    }
  }

  /** An ascending list whose members are among the first n of another has at most n. */
  lemma {:induction false} Embeds<T(!new)>(t: seq<T>, s: seq<T>, n: nat, less: (T, T) -> bool)
    requires StrictTotal(less) && Ascending(t, less) && Ascending(s, less)
    requires n <= |s| && forall y :: y in t ==> y in s[..n]
    ensures |t| <= n
    decreases |t|
  {
    if t != [] {
      var last, rest := t[|t| - 1], t[..|t| - 1];
      assert last in t;
      var j :| 0 <= j < n && s[j] == last;
      forall y | y in rest ensures y in s[..j] {
        var i :| 0 <= i < |rest| && rest[i] == y;
        assert y == t[i] && y in t;
        var l :| 0 <= l < n && s[l] == y;
        assert less(t[i], t[|t| - 1]);
        assert l < j;
      }
      Embeds(rest, s, j, less);
    }
  }

  /** The members determine the list. */
  lemma {:induction false} AscendingUnique<T(!new)>(s: seq<T>, t: seq<T>, less: (T, T) -> bool)
    requires StrictTotal(less) && Ascending(s, less) && Ascending(t, less) && forall x :: x in s <==> x in t
    ensures s == t
    decreases |s|
  {
    SameLast(s, t, less);
    if s != [] {
      InitMembers(s, less);
      InitMembers(t, less);
      var a, s1, t1 := s[|s| - 1], s[..|s| - 1], t[..|t| - 1];
      hide Ascending, StrictTotal;
      forall x: T ensures x in s1 <==> x in t1 {
        assert x in s1 <==> x in s && x != a;
        assert x in t1 <==> x in t && x != a;
      }
      AscendingUnique(s1, t1, less);
      assert s == s1 + [a] && t == t1 + [a];
    }
  }

  lemma SameLast<T(!new)>(s: seq<T>, t: seq<T>, less: (T, T) -> bool)
    requires StrictTotal(less) && Ascending(s, less) && Ascending(t, less) && forall x :: x in s <==> x in t
    ensures if s == [] then t == [] else t != [] && s[|s| - 1] == t[|t| - 1]
  {
    assert s != [] ==> s[0] in s;
    assert t != [] ==> t[0] in t;
    if s != [] {
      var a, b := s[|s| - 1], t[|t| - 1];
      assert a in s && b in t;
      var i :| 0 <= i < |t| && t[i] == a;
      var j :| 0 <= j < |s| && s[j] == b;
    }
  }
}
