/** Sequence operations that the page layers refine. */
module Seqs {

  function InsertAt<T>(s: seq<T>, i: nat, x: T): (r: seq<T>)
    requires i <= |s|
    ensures |r| == |s| + 1
  {
    s[..i] + [x] + s[i..]
  }

  function RemoveAt<T>(s: seq<T>, i: nat): (r: seq<T>)
    requires i < |s|
    ensures |r| == |s| - 1
  {
    s[..i] + s[i + 1..]
  }

  function Flatten<T>(ls: seq<seq<T>>): seq<T> {
    if ls == [] then [] else ls[0] + Flatten(ls[1..])
  }

  lemma {:induction false} FlattenConcat<T>(a: seq<seq<T>>, b: seq<seq<T>>)
    ensures Flatten(a + b) == Flatten(a) + Flatten(b)
  {
    if a == [] {
      assert a + b == b;
    } else {
      FlattenConcat(a[1..], b);
      assert (a + b)[1..] == a[1..] + b;
      assert Flatten(a + b) == a[0] + (Flatten(a[1..]) + Flatten(b));
    }
  }

  lemma FlattenAt<T>(ls: seq<seq<T>>, i: nat)
    requires i < |ls|
    ensures Flatten(ls) == Flatten(ls[..i]) + ls[i] + Flatten(ls[i + 1..])
  {
    FlattenConcat(ls[..i], ls[i..]);
    assert ls == ls[..i] + ls[i..];
    assert ls[i..][1..] == ls[i + 1..];
  }

  lemma {:induction false} FlattenMembers<T>(ls: seq<seq<T>>, x: T)
    ensures x in Flatten(ls) <==> exists i :: 0 <= i < |ls| && x in ls[i]
  {
    if ls != [] {
      FlattenMembers(ls[1..], x);
      assert forall i :: 0 < i < |ls| ==> ls[i] == ls[1..][i - 1];
    }
  }

  lemma InsertAtMiddle<T>(p: seq<T>, m: seq<T>, s: seq<T>, n: nat, x: T)
    requires n <= |m|
    ensures p + InsertAt(m, n, x) + s == InsertAt(p + m + s, |p| + n, x)
  {
    assert (p + m + s)[..|p| + n] == p + m[..n];
    assert (p + m + s)[|p| + n..] == m[n..] + s;
  }

  lemma RemoveAtMiddle<T>(p: seq<T>, m: seq<T>, s: seq<T>, n: nat)
    requires n < |m|
    ensures p + RemoveAt(m, n) + s == RemoveAt(p + m + s, |p| + n)
  {
    assert (p + m + s)[..|p| + n] == p + m[..n];
    assert (p + m + s)[|p| + n + 1..] == m[n + 1..] + s;
  }

  lemma InsertAtTail<T>(s: seq<T>, i: nat, x: T)
    requires 0 < i <= |s|
    ensures InsertAt(s, i, x)[1..] == InsertAt(s[1..], i - 1, x)
  {
  }

  lemma RemoveAtTail<T>(s: seq<T>, i: nat)
    requires 0 < i < |s|
    ensures RemoveAt(s, i)[1..] == RemoveAt(s[1..], i - 1)
  {
  }

  lemma InsertAtMembers<T>(s: seq<T>, i: nat, x: T)
    requires i <= |s|
    ensures forall y :: y in InsertAt(s, i, x) <==> y == x || y in s
  {
    assert s == s[..i] + s[i..];
  }

  ghost predicate Distinct<T(!new)>(s: seq<T>) {
    forall i, j :: 0 <= i < j < |s| ==> s[i] != s[j]
  }

  lemma InsertAtDistinct<T(!new)>(s: seq<T>, i: nat, x: T)
    requires i <= |s| && Distinct(s) && x !in s
    ensures Distinct(InsertAt(s, i, x))
  {
  }

  lemma RemoveAtDistinct<T(!new)>(s: seq<T>, i: nat)
    requires i < |s| && Distinct(s)
    ensures Distinct(RemoveAt(s, i)) && s[i] !in RemoveAt(s, i)
  {
  }

  /** Shifting the upper part of the first n slots one up and writing x is inserting x. */
  lemma ShiftedUp<T>(was: seq<T>, now: seq<T>, n: nat, i: nat, x: T)
    requires i <= n < |was| == |now|
    requires forall j :: 0 <= j < i ==> now[j] == was[j]
    requires now[i] == x
    requires forall j :: i < j <= n ==> now[j] == was[j - 1]
    ensures now[..n + 1] == InsertAt(was[..n], i, x)
  {
  }

  /** Shifting the slots above i one down is removing slot i. */
  lemma ShiftedDown<T>(was: seq<T>, now: seq<T>, n: nat, i: nat)
    requires i < n <= |was| == |now|
    requires forall j :: 0 <= j < i ==> now[j] == was[j]
    requires forall j :: i <= j < n - 1 ==> now[j] == was[j + 1]
    ensures now[..n - 1] == RemoveAt(was[..n], i)
  {
  }
}
