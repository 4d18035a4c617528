/** The index tree is a map: insertion, removal and lookup on pages against the same operations
    on the flat list of entries and on a plain map, and the invariant that makes them agree. */
module BTreeMap {
  import opened Rows
  import opened Seqs
  import opened Comparator
  import opened BTreeModel

  // ----- The plain map -----

  ghost function ToMap(es: seq<Entry>): map<Row, RowId> {
    if es == [] then map[] else ToMap(es[1..])[es[0].key := es[0].rid]
  }

  lemma {:induction false} ToMapKeys(es: seq<Entry>, k: Row)
    ensures k in ToMap(es) <==> exists i :: 0 <= i < |es| && es[i].key == k
  {
    if es != [] {
      ToMapKeys(es[1..], k);
      assert forall i :: 0 < i < |es| ==> es[i] == es[1..][i - 1];
    }
  }

  lemma {:induction false} ToMapConcat(a: seq<Entry>, b: seq<Entry>)
    ensures ToMap(a + b) == ToMap(b) + ToMap(a)
  {
    if a == [] {
      assert a + b == b;
    } else {
      ToMapConcat(a[1..], b);
      assert (a + b)[1..] == a[1..] + b;
    }
  }

  lemma MapAround<K, V>(a: map<K, V>, b: map<K, V>, k: K, v: V)
    requires k !in a && k !in b
    ensures b[k := v] + a == (b + a)[k := v] && (b + a)[k := v] - {k} == b + a
  {
  }

  /** One more entry under a new key is one more binding. */
  lemma ToMapAround(a: seq<Entry>, e: Entry, b: seq<Entry>)
    requires e.key !in ToMap(a) && e.key !in ToMap(b)
    ensures ToMap(a + [e] + b) == ToMap(a + b)[e.key := e.rid]
    ensures ToMap(a + [e] + b) - {e.key} == ToMap(a + b)
  {
    ToMapConcat(a, b);
    ToMapConcat(a, [e] + b);
    assert a + [e] + b == a + ([e] + b);
    assert ([e] + b)[1..] == b;
    MapAround(ToMap(a), ToMap(b), e.key, e.rid);
  }

  /** A sorted list binds each of its keys to that entry's row id. */
  lemma ToMapAt(es: seq<Entry>, at: nat)
    requires Sorted(es) && at < |es|
    ensures es[at].key in ToMap(es) && ToMap(es)[es[at].key] == es[at].rid
  {
    hide Less, Sorted, ToMap;
    AbsentAround(es, at);
    ToMapAround(es[..at], es[at], es[at + 1..]);
    assert es[..at] + [es[at]] + es[at + 1..] == es;
  }

  /** The key of an entry of a sorted list occurs neither before nor after it. */
  lemma AbsentAround(es: seq<Entry>, at: nat)
    requires Sorted(es) && at < |es|
    ensures es[at].key !in ToMap(es[..at]) && es[at].key !in ToMap(es[at + 1..])
  {
    var k := es[at].key;
    ToMapKeys(es[..at], k);
    ToMapKeys(es[at + 1..], k);
    forall i | 0 <= i < |es| && i != at ensures es[i].key != k {
      LessTotal(es[i].key, k);
      LessTotal(k, es[i].key);
    }
  }

  lemma LeafInsertSorted(es: seq<Entry>, k: Row, rid: RowId)
    requires Sorted(es) && k !in ToMap(es)
    ensures Sorted(LeafInsert(es, k, rid))
  {
    hide Less, ToMap;
    var at := LowerBound(es, k);
    forall j | at <= j < |es| ensures Less(k, es[j].key) {
      ToMapKeys(es, k);
      LessTotal(es[at].key, k);
      if at < j {
        LessTransitive(k, es[at].key, es[j].key);
      }
    }
  }

  lemma ToMapSplit(es: seq<Entry>, at: nat, k: Row)
    requires at <= |es| && k !in ToMap(es)
    ensures k !in ToMap(es[..at]) && k !in ToMap(es[at..])
  {
    hide ToMap;
    ToMapConcat(es[..at], es[at..]);
    assert es == es[..at] + es[at..];
  }

  /** Inserting an absent key keeps the list sorted and updates the map at that key. */
  lemma LeafInsertIsUpdate(es: seq<Entry>, k: Row, rid: RowId)
    requires Sorted(es) && k !in ToMap(es)
    ensures Sorted(LeafInsert(es, k, rid))
    ensures ToMap(LeafInsert(es, k, rid)) == ToMap(es)[k := rid]
  {
    hide Less, Sorted, ToMap;
    LeafInsertSorted(es, k, rid);
    assert ToMap(LeafInsert(es, k, rid)) == ToMap(es)[k := rid] by {
      var at := LowerBound(es, k);
      ToMapSplit(es, at, k);
      ToMapAround(es[..at], Entry(k, rid), es[at..]);
      assert es[..at] + es[at..] == es;
    }
  }

  lemma RemoveAtSorted(es: seq<Entry>, at: nat)
    requires Sorted(es) && at < |es|
    ensures Sorted(RemoveAt(es, at))
  {
    var r := RemoveAt(es, at);
    forall i, j | 0 <= i < j < |r| ensures Less(r[i].key, r[j].key) {
      assert r[i] == es[if i < at then i else i + 1];
      assert r[j] == es[if j < at then j else j + 1];
    }
  }

  lemma RemoveAtMap(es: seq<Entry>, at: nat)
    requires at < |es| && es[at].key !in ToMap(es[..at]) && es[at].key !in ToMap(es[at + 1..])
    ensures ToMap(RemoveAt(es, at)) == ToMap(es) - {es[at].key}
  {
    hide ToMap;
    ToMapAround(es[..at], es[at], es[at + 1..]);
    assert es[..at] + [es[at]] + es[at + 1..] == es;
  }

  /** Removing the entry at an index keeps the list sorted and drops its key from the map. */
  lemma RemoveAtIsErase(es: seq<Entry>, at: nat)
    requires Sorted(es) && at < |es|
    ensures Sorted(RemoveAt(es, at))
    ensures ToMap(RemoveAt(es, at)) == ToMap(es) - {es[at].key}
  {
    RemoveAtSorted(es, at);
    AbsentAround(es, at);
    RemoveAtMap(es, at);
  }

  // ----- Where a key belongs -----

  /** The entries before, in and after the leaf that the descent for k reaches. */
  ghost function Prefix(ps: seq<Page>, k: Row): seq<Entry>
    requires Shaped(ps)
  {
    Flatten(Leaves(ps)[..DescentIndex(ps, k)])
  }

  ghost function Suffix(ps: seq<Page>, k: Row): seq<Entry>
    requires Shaped(ps)
  {
    Flatten(Leaves(ps)[DescentIndex(ps, k) + 1..])
  }

  ghost predicate AllBelow(es: seq<Entry>, k: Row) {
    forall e :: e in es ==> Less(e.key, k)
  }

  ghost predicate AllAbove(es: seq<Entry>, k: Row) {
    forall e :: e in es ==> Less(k, e.key)
  }

  lemma AtMostLess(a: Row, b: Row, c: Row)
    requires !Less(b, a) && Less(b, c)
    ensures Less(a, c)
  {
    LessTotal(a, b);
    if a != b {
      LessTransitive(a, b, c);
    }
  }

  lemma LessAtMost(a: Row, b: Row, c: Row)
    requires Less(a, b) && !Less(c, b)
    ensures Less(a, c)
  {
    LessTotal(b, c);
    if b != c {
      LessTransitive(a, b, c);
    }
  }

  /** A separator lies below every entry of every later leaf. */
  lemma {:induction false} SeparatorBelow(ls: seq<seq<Entry>>, keys: seq<Row>, a: nat, b: nat, e: Entry)
    requires Separated(ls, keys) && a < b < |ls| && e in ls[b]
    ensures Less(keys[a], e.key)
    decreases b - a
  {
    if a + 1 < b {
      var x := ls[b - 1][0];
      assert x in ls[b - 1];
      SeparatorBelow(ls, keys, a, b - 1, x);
      LessAtMost(keys[a], x.key, keys[b - 1]);
      LessTransitive(keys[a], keys[b - 1], e.key);
    }
  }

  /** Entries of an earlier leaf are below entries of a later one. */
  lemma LeavesAscend(ls: seq<seq<Entry>>, keys: seq<Row>, a: nat, b: nat, x: Entry, y: Entry)
    requires Separated(ls, keys) && a < b < |ls| && x in ls[a] && y in ls[b]
    ensures Less(x.key, y.key)
  {
    SeparatorBelow(ls, keys, a, b, y);
    AtMostLess(x.key, keys[a], y.key);
  }

  lemma {:induction false} FlattenSorted(ls: seq<seq<Entry>>)
    requires forall i :: 0 <= i < |ls| ==> Sorted(ls[i])
    requires forall a, b, x: Entry, y: Entry :: 0 <= a < b < |ls| && x in ls[a] && y in ls[b] ==> Less(x.key, y.key)
    ensures Sorted(Flatten(ls))
  {
    if ls != [] {
      assert forall i :: 0 <= i < |ls| - 1 ==> ls[1..][i] == ls[i + 1];
      FlattenSorted(ls[1..]);
      forall x, y | x in ls[0] && y in Flatten(ls[1..]) ensures Less(x.key, y.key) {
        FlattenMembers(ls[1..], y);
      }
    }
  }

  lemma AllEntriesSorted(cfg: Config, ps: seq<Page>)
    requires Inv(cfg, ps)
    ensures Sorted(AllEntries(ps))
  {
    var ls := Leaves(ps);
    if Root(ps).Internal? {
      forall a, b, x: Entry, y: Entry | 0 <= a < b < |ls| && x in ls[a] && y in ls[b] ensures Less(x.key, y.key) {
        LeavesAscend(ls, Root(ps).keys, a, b, x, y);
      }
    }
    FlattenSorted(ls);
  }

  lemma BelowLeaf(ls: seq<seq<Entry>>, keys: seq<Row>, i: nat, k: Row, e: Entry)
    requires Separated(ls, keys) && i < |ls| && e in Flatten(ls[..i])
    requires forall j :: 0 <= j < i ==> Less(keys[j], k)
    ensures Less(e.key, k)
  {
    hide Less, Flatten;
    FlattenMembers(ls[..i], e);
    var j :| 0 <= j < i && e in ls[..i][j];
    AtMostLess(e.key, keys[j], k);
  }

  lemma AboveLeaf(ls: seq<seq<Entry>>, keys: seq<Row>, i: nat, k: Row, e: Entry)
    requires Separated(ls, keys) && i < |ls| && e in Flatten(ls[i + 1..])
    requires i < |ls| - 1 ==> !Less(keys[i], k)
    ensures Less(k, e.key)
  {
    hide Less, Flatten;
    FlattenMembers(ls[i + 1..], e);
    var j :| 0 <= j < |ls| - i - 1 && e in ls[i + 1..][j];
    SeparatorBelow(ls, keys, i, i + 1 + j, e);
    AtMostLess(k, keys[i], e.key);
  }

  /** The descent for k reaches the one leaf k belongs to: everything before that leaf is
      below k, everything after it above. */
  lemma DescentSplits(cfg: Config, ps: seq<Page>, k: Row)
    requires Inv(cfg, ps)
    ensures AllEntries(ps) == Prefix(ps, k) + ps[DescentPage(ps, k)].es + Suffix(ps, k)
    ensures AllBelow(Prefix(ps, k), k) && AllAbove(Suffix(ps, k), k)
  {
    hide Less, Filled, Linked, Separated;
    var ls, i := Leaves(ps), DescentIndex(ps, k);
    FlattenAt(ls, i);
    if Root(ps).Internal? {
      forall e | e in Prefix(ps, k) ensures Less(e.key, k) {
        BelowLeaf(ls, Root(ps).keys, i, k, e);
      }
      forall e | e in Suffix(ps, k) ensures Less(k, e.key) {
        AboveLeaf(ls, Root(ps).keys, i, k, e);
      }
    }
  }

  lemma NotAround(p: seq<Entry>, es: seq<Entry>, s: seq<Entry>, k: Row, j: nat)
    requires AllBelow(p, k) && AllAbove(s, k) && j < |p + es + s|
    ensures var all := p + es + s;
            (j < |p| ==> Less(all[j].key, k) && all[j].key != k) &&
            (|p| + |es| <= j ==> !Less(all[j].key, k) && all[j].key != k)
  {
    var all := p + es + s;
    if j < |p| {
      assert all[j] in p;
    } else if |p| + |es| <= j {
      assert all[j] in s;
    }
    LessTotal(all[j].key, k);
    LessTotal(k, all[j].key);
  }

  /** Searching a stretch between smaller and larger entries is searching the whole. */
  lemma SearchLocal(p: seq<Entry>, es: seq<Entry>, s: seq<Entry>, k: Row)
    requires AllBelow(p, k) && AllAbove(s, k)
    ensures LowerBound(p + es + s, k) == |p| + LowerBound(es, k)
  {
    var all, n := p + es + s, |p| + LowerBound(es, k);
    forall j | 0 <= j < n ensures Less(all[j].key, k) {
      NotAround(p, es, s, k, j);
    }
    if n < |all| {
      NotAround(p, es, s, k, n);
    }
    LowerBoundUnique(all, k, n);
  }

  lemma FindKeyUnique(es: seq<Entry>, k: Row, n: nat)
    requires n <= |es|
    requires forall j :: 0 <= j < n ==> es[j].key != k
    requires n < |es| ==> es[n].key == k
    ensures n == FindKey(es, k)
  {
  }

  lemma FindKeyLocal(p: seq<Entry>, es: seq<Entry>, s: seq<Entry>, k: Row)
    requires AllBelow(p, k) && AllAbove(s, k)
    ensures FindKey(p + es + s, k) == if FindKey(es, k) == |es| then |p + es + s| else |p| + FindKey(es, k)
  {
    var all := p + es + s;
    var n := if FindKey(es, k) == |es| then |all| else |p| + FindKey(es, k);
    forall j | 0 <= j < n ensures all[j].key != k {
      NotAround(p, es, s, k, j);
    }
    FindKeyUnique(all, k, n);
  }

  /** Looking in a stretch between smaller and larger entries is looking in the whole. */
  ghost function Find(es: seq<Entry>, k: Row): Option<RowId> {
    var i := LowerBound(es, k);
    if i < |es| && es[i].key == k then Some(es[i].rid) else None
  }

  lemma FindLocal(p: seq<Entry>, es: seq<Entry>, s: seq<Entry>, k: Row)
    requires AllBelow(p, k) && AllAbove(s, k)
    ensures Find(p + es + s, k) == Find(es, k)
  {
    SearchLocal(p, es, s, k);
    var i, all := LowerBound(es, k), p + es + s;
    if i < |es| {
      assert all[|p| + i] == es[i];
    } else if s != [] {
      assert all[|p| + i] == s[0] && s[0] in s;
      LessTotal(k, s[0].key);
    }
  }

  /** Lookup returns what the plain map holds. */
  lemma LookupCorrect(cfg: Config, ps: seq<Page>, k: Row)
    requires Inv(cfg, ps)
    ensures Lookup(ps, k) == var m := ToMap(AllEntries(ps)); if k in m then Some(m[k]) else None
  {
    DescentSplits(cfg, ps, k);
    FindLocal(Prefix(ps, k), ps[DescentPage(ps, k)].es, Suffix(ps, k), k);
    AllEntriesSorted(cfg, ps);
    LowerBoundFinds(AllEntries(ps), k);
  }

  lemma LowerBoundFinds(es: seq<Entry>, k: Row)
    requires Sorted(es)
    ensures var i, m := LowerBound(es, k), ToMap(es);
            if k in m then i < |es| && es[i] == Entry(k, m[k]) else i == |es| || es[i].key != k
  {
    ToMapKeys(es, k);
    if k in ToMap(es) {
      var i :| 0 <= i < |es| && es[i].key == k;
      LowerBoundHits(es, i);
      ToMapAt(es, i);
    }
  }

  lemma LowerBoundHits(es: seq<Entry>, i: nat)
    requires Sorted(es) && i < |es|
    ensures LowerBound(es, es[i].key) == i
  {
    LessTotal(es[i].key, es[i].key);
    LowerBoundUnique(es, es[i].key, i);
  }
}
