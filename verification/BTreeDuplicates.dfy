/** Insertion does not look for its key first: on a key that is stored already the page invariant
    breaks, so insertion keeps it exactly for absent keys. */
module BTreeDuplicates {
  import opened Rows
  import opened Seqs
  import opened Comparator
  import opened BTreeModel
  import opened BTreeMap
  import opened BTreeSteps
  import opened BTreeRuns

  /** A key stored anywhere in the tree is in the leaf that the descent reaches. */
  lemma PresentInLeaf(cfg: Config, ps: seq<Page>, k: Row) returns (j: nat)
    requires Inv(cfg, ps) && k in Contents(ps)
    ensures var es := ps[DescentPage(ps, k)].es; j < |es| && es[j].key == k
  {
    hide Less;
    var es, p, s := ps[DescentPage(ps, k)].es, Prefix(ps, k), Suffix(ps, k);
    DescentSplits(cfg, ps, k);
    ToMapKeys(AllEntries(ps), k);
    var i :| 0 <= i < |AllEntries(ps)| && AllEntries(ps)[i].key == k;
    LessTotal(k, k);
    var e := (p + es + s)[i];
    assert i < |p| ==> e in p;
    assert i >= |p| + |es| ==> e in s;
    j := i - |p|;
  }

  /** The entry goes in front of the one with the same key. */
  lemma TwiceInLeaf(es: seq<Entry>, j: nat, rid: RowId)
    requires Sorted(es) && j < |es|
    ensures var es1 := LeafInsert(es, es[j].key, rid); |es1| == |es| + 1 && es1[j].key == es1[j + 1].key
  {
    LowerBoundHits(es, j);
  }

  lemma TwiceNotSorted(p: seq<Entry>, m: seq<Entry>, s: seq<Entry>, j: nat)
    requires j + 1 < |m| && m[j].key == m[j + 1].key
    ensures !Sorted(p + m + s)
  {
    var all := p + m + s;
    assert all[|p| + j] == m[j] && all[|p| + j + 1] == m[j + 1];
    LessTotal(m[j].key, m[j].key);
  }

  /** Where an insertion puts its entry, whether its key is new or not. */
  lemma InsertedEntries(cfg: Config, ps: seq<Page>, k: Row, rid: RowId)
    requires Inv(cfg, ps) && Usable(cfg) && !Loses(cfg, ps, k)
    ensures var ps1 := Insert(cfg, ps, k, rid).pages;
            var i := DescentIndex(ps, k);
            var ls := Leaves(ps);
            Shaped(ps1) &&
            AllEntries(ps1) == Flatten(ls[..i]) + LeafInsert(ls[i], k, rid) + Flatten(ls[i + 1..])
  {
    hide Less, Sorted, Linked;
    var ls, i, r := Leaves(ps), DescentIndex(ps, k), Insert(cfg, ps, k, rid);
    var es, p := ls[i], DescentPage(ps, k);
    assert p == LivePages(ps)[i] && Sorted(es) && ps[p].es == es;
    if |es| < cfg.leafCap {
      ReplaceLeaf(ps, i, ps[p].(es := LeafInsert(es, k, rid)));
      FlattenReplace(ls, i, LeafInsert(es, k, rid));
    } else {
      var (left, right) := SplitInsert(es, k, rid);
      SplitInsertIsInsert(es, k, rid);
      if Root(ps).Leaf? {
        assert LivePages(r.pages) == [p, |ps|];
        assert Leaves(r.pages) == [left, right];
        FlattenTwo(left, right);
        assert ls[..i] == [] && ls[i + 1..] == [];
      } else {
        assert r.pages == SplitPages(ps, i, left, right);
        SplitPagesLeaves(ps, i, left, right);
        FlattenSplitAt(ls, i, left, right);
      }
    }
  }

  /** With room for the key, insertion keeps the invariant exactly if the key is absent. */
  lemma InsertKeepsInvOnlyIfAbsent(cfg: Config, ps: seq<Page>, k: Row, rid: RowId)
    requires Inv(cfg, ps) && Usable(cfg) && !Loses(cfg, ps, k)
    ensures Inv(cfg, Insert(cfg, ps, k, rid).pages) <==> k !in Contents(ps)
  {
    hide Less, Sorted, Linked, Separated;
    if k !in Contents(ps) {
      InsertCorrect(cfg, ps, k, rid);
    } else {
      var ls, i, ps1 := Leaves(ps), DescentIndex(ps, k), Insert(cfg, ps, k, rid).pages;
      var j := PresentInLeaf(cfg, ps, k);
      InsertedEntries(cfg, ps, k, rid);
      assert Sorted(ls[i]) && ls[i] == ps[DescentPage(ps, k)].es;
      TwiceInLeaf(ls[i], j, rid);
      TwiceNotSorted(Flatten(ls[..i]), LeafInsert(ls[i], k, rid), Flatten(ls[i + 1..]), j);
      if Inv(cfg, ps1) {
        AllEntriesSorted(cfg, ps1);
      }
    }
  }
}
