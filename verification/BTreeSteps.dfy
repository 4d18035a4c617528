/** What one insertion or removal does to the leaves, and that it keeps the invariant. */
module BTreeSteps {
  import opened Rows
  import opened Seqs
  import opened Comparator
  import opened BTreeModel
  import opened BTreeMap

  // ----- Changing one leaf of a list of leaves -----

  lemma FlattenReplace(ls: seq<seq<Entry>>, i: nat, es: seq<Entry>)
    requires i < |ls|
    ensures Flatten(ls[i := es]) == Flatten(ls[..i]) + es + Flatten(ls[i + 1..])
  {
    FlattenAt(ls[i := es], i);
    assert ls[i := es][..i] == ls[..i] && ls[i := es][i + 1..] == ls[i + 1..];
  }

  function SplitAt(ls: seq<seq<Entry>>, i: nat, left: seq<Entry>, right: seq<Entry>): seq<seq<Entry>>
    requires i < |ls|
  {
    InsertAt(ls[i := left], i + 1, right)
  }

  lemma FlattenSplitAt(ls: seq<seq<Entry>>, i: nat, left: seq<Entry>, right: seq<Entry>)
    requires i < |ls|
    ensures Flatten(SplitAt(ls, i, left, right)) == Flatten(ls[..i]) + (left + right) + Flatten(ls[i + 1..])
  {
    var two := SplitAt(ls, i, left, right);
    FlattenAt(two, i);
    assert two[..i] == ls[..i] && two[i] == left && two[i + 1..] == [right] + ls[i + 1..];
    assert ([right] + ls[i + 1..])[1..] == ls[i + 1..];
  }

  lemma FlattenRemoveAt(ls: seq<seq<Entry>>, i: nat)
    requires i < |ls|
    ensures Flatten(RemoveAt(ls, i)) == Flatten(ls[..i]) + Flatten(ls[i + 1..])
  {
    FlattenConcat(ls[..i], ls[i + 1..]);
  }

  lemma BelowMax(es: seq<Entry>, k: Row)
    requires Sorted(es) && es != [] && Less(MaxKey(es), k)
    ensures AllBelow(es, k)
  {
    forall j | 0 <= j < |es| - 1 ensures Less(es[j].key, k) {
      LessTransitive(es[j].key, MaxKey(es), k);
    }
  }

  lemma SearchLeft(left: seq<Entry>, right: seq<Entry>, k: Row)
    requires left != [] && !Less(MaxKey(left), k)
    ensures LowerBound(left + right, k) == LowerBound(left, k)
  {
    assert LowerBound(left, k) < |left|;
    LowerBoundUnique(left + right, k, LowerBound(left, k));
  }

  lemma InsertRight(left: seq<Entry>, right: seq<Entry>, k: Row, rid: RowId)
    requires AllBelow(left, k)
    ensures left + LeafInsert(right, k, rid) == LeafInsert(left + right, k, rid)
  {
    SearchLocal(left, right, [], k);
    assert left + right + [] == left + right;
    InsertAtMiddle(left, right, [], LowerBound(right, k), Entry(k, rid));
  }

  lemma InsertLeft(left: seq<Entry>, right: seq<Entry>, k: Row, rid: RowId)
    requires left != [] && !Less(MaxKey(left), k)
    ensures LeafInsert(left, k, rid) + right == LeafInsert(left + right, k, rid)
  {
    SearchLeft(left, right, k);
    assert [] + left + right == left + right;
    InsertAtMiddle([], left, right, LowerBound(left, k), Entry(k, rid));
  }

  /** The halves of a split hold the old entries and the new one, in order; the lower half of the old
      ones stays on the left, and the new one is there if it is below one of them. */
  lemma SplitInsertIsInsert(es: seq<Entry>, k: Row, rid: RowId)
    requires Sorted(es) && |es| >= 2
    ensures var (left, right) := SplitInsert(es, k, rid);
            left + right == LeafInsert(es, k, rid) &&
            |left| == |es| / 2 + if LowerBound(es, k) < |es| / 2 then 1 else 0
  {
    var left, right := es[..|es| / 2], es[|es| / 2..];
    assert left + right == es;
    if Less(MaxKey(left), k) {
      BelowMax(left, k);
      InsertRight(left, right, k, rid);
    } else {
      InsertLeft(left, right, k, rid);
    }
  }

  /** Inserting into a stretch between smaller and larger entries is inserting into the whole. */
  lemma InsertLocal(p: seq<Entry>, es: seq<Entry>, s: seq<Entry>, k: Row, rid: RowId)
    requires AllBelow(p, k) && AllAbove(s, k)
    ensures p + LeafInsert(es, k, rid) + s == LeafInsert(p + es + s, k, rid)
  {
    hide Less;
    SearchLocal(p, es, s, k);
    InsertAtMiddle(p, es, s, LowerBound(es, k), Entry(k, rid));
  }

  // ----- Changing one leaf page -----

  lemma ReplaceLeaf(ps: seq<Page>, i: nat, leaf: Page)
    requires Shaped(ps) && i < |LivePages(ps)| && leaf.Leaf?
    ensures var ps1 := ps[LivePages(ps)[i] := leaf];
            Shaped(ps1) && LivePages(ps1) == LivePages(ps) && Leaves(ps1) == Leaves(ps)[i := leaf.es]
  {
  }

  // ----- The separators -----

  /** The entries es respect the separators around leaf i. */
  ghost predicate InBounds(keys: seq<Row>, i: nat, es: seq<Entry>)
    requires i < |keys|
  {
    forall e :: e in es ==>
      (i < |keys| - 1 ==> !Less(keys[i], e.key)) && (0 < i ==> Less(keys[i - 1], e.key))
  }

  lemma LeafInsertInBounds(ps: seq<Page>, k: Row, rid: RowId)
    requires Shaped(ps) && Root(ps).Internal? && Separated(Leaves(ps), Root(ps).keys)
    ensures var i := DescentIndex(ps, k);
            InBounds(Root(ps).keys, i, LeafInsert(Leaves(ps)[i], k, rid))
  {
    var keys, i := Root(ps).keys, DescentIndex(ps, k);
    var es := Leaves(ps)[i];
    forall e | e in LeafInsert(es, k, rid)
      ensures (i < |keys| - 1 ==> !Less(keys[i], e.key)) && (0 < i ==> Less(keys[i - 1], e.key))
    {
      assert e == Entry(k, rid) || e in es;
    }
  }

  lemma SeparatedReplace(ls: seq<seq<Entry>>, keys: seq<Row>, i: nat, es: seq<Entry>)
    requires Separated(ls, keys) && i < |ls| && es != [] && InBounds(keys, i, es)
    ensures Separated(ls[i := es], keys)
  {
  }

  lemma AtMostMax(es: seq<Entry>, e: Entry)
    requires Sorted(es) && e in es
    ensures !Less(MaxKey(es), e.key)
  {
    var a :| 0 <= a < |es| && es[a] == e;
    LessTotal(e.key, MaxKey(es));
  }

  lemma AboveLeft(left: seq<Entry>, right: seq<Entry>, e: Entry)
    requires Sorted(left + right) && left != [] && e in right
    ensures Less(MaxKey(left), e.key)
  {
    var a :| 0 <= a < |right| && right[a] == e;
    var all := left + right;
    assert all[|left| - 1].key == MaxKey(left) && all[|left| + a] == e;
  }

  lemma SplitAtIndex(ls: seq<seq<Entry>>, i: nat, left: seq<Entry>, right: seq<Entry>, j: nat)
    requires i < |ls| && j <= |ls|
    ensures SplitAt(ls, i, left, right)[j] ==
            if j < i then ls[j] else if j == i then left else if j == i + 1 then right else ls[j - 1]
  {
  }

  /** The entries after leaf i are above any key that leaf i may hold. */
  lemma NextAbove(ls: seq<seq<Entry>>, keys: seq<Row>, i: nat, es: seq<Entry>, x: Entry, e: Entry)
    requires Separated(ls, keys) && i + 1 < |ls| && InBounds(keys, i, es) && x in es && e in ls[i + 1]
    ensures Less(x.key, e.key)
  {
    LessTotal(keys[i], x.key);
    if keys[i] != x.key {
      LessTransitive(x.key, keys[i], e.key);
    }
  }

  lemma SplitUpper(ls: seq<seq<Entry>>, keys: seq<Row>, i: nat, left: seq<Entry>, right: seq<Entry>, j: nat, e: Entry)
    requires Separated(ls, keys) && i < |ls| && left != [] && right != [] && Sorted(left + right)
    requires j < |ls| && e in SplitAt(ls, i, left, right)[j]
    ensures !Less(InsertAt(keys[i := MaxKey(left)], i + 1, MaxKey(right))[j], e.key)
  {
    SortedHalves(left, right);
    SplitAtIndex(ls, i, left, right, j);
    if j == i {
      AtMostMax(left, e);
    } else if j == i + 1 {
      AtMostMax(right, e);
    }
  }

  lemma SplitLower(ls: seq<seq<Entry>>, keys: seq<Row>, i: nat, left: seq<Entry>, right: seq<Entry>, j: nat, e: Entry)
    requires Separated(ls, keys) && i < |ls| && left != [] && right != [] && Sorted(left + right)
    requires InBounds(keys, i, left + right)
    requires 0 < j <= |ls| && e in SplitAt(ls, i, left, right)[j]
    ensures Less(InsertAt(keys[i := MaxKey(left)], i + 1, MaxKey(right))[j - 1], e.key)
  {
    SplitAtIndex(ls, i, left, right, j);
    var all := left + right;
    if j == i {
      assert e in all;
    } else if j == i + 1 {
      AboveLeft(left, right, e);
    } else if j == i + 2 {
      assert all[|all| - 1] in all && all[|all| - 1].key == MaxKey(right);
      NextAbove(ls, keys, i, all, all[|all| - 1], e);
    }
  }

  lemma SeparatedSplit(ls: seq<seq<Entry>>, keys: seq<Row>, i: nat, left: seq<Entry>, right: seq<Entry>)
    requires Separated(ls, keys) && i < |ls| && left != [] && right != []
    requires Sorted(left + right) && InBounds(keys, i, left + right)
    ensures Separated(SplitAt(ls, i, left, right), InsertAt(keys[i := MaxKey(left)], i + 1, MaxKey(right)))
  {
    var ls1, keys1 := SplitAt(ls, i, left, right), InsertAt(keys[i := MaxKey(left)], i + 1, MaxKey(right));
    forall j, e: Entry | 0 <= j < |ls1| - 1 && e in ls1[j] ensures !Less(keys1[j], e.key) {
      SplitUpper(ls, keys, i, left, right, j, e);
    }
    forall j, e: Entry | 0 < j < |ls1| && e in ls1[j] ensures Less(keys1[j - 1], e.key) {
      SplitLower(ls, keys, i, left, right, j, e);
    }
    forall j | 0 <= j < |ls1| ensures ls1[j] != [] {
      SplitAtIndex(ls, i, left, right, j);
    }
  }

  lemma SeparatedRemove(ls: seq<seq<Entry>>, keys: seq<Row>, i: nat)
    requires Separated(ls, keys) && i < |ls|
    ensures Separated(RemoveAt(ls, i), RemoveAt(keys, i))
  {
    var ls1, keys1 := RemoveAt(ls, i), RemoveAt(keys, i);
    forall j, e: Entry | 0 <= j < |ls1| - 1 && e in ls1[j] ensures !Less(keys1[j], e.key) {
      assert ls1[j] == ls[if j < i then j else j + 1] && keys1[j] == keys[if j < i then j else j + 1];
    }
    forall j, e: Entry | 0 < j < |ls1| && e in ls1[j] ensures Less(keys1[j - 1], e.key) {
      assert ls1[j] == ls[if j < i then j else j + 1];
      if j < i {
        assert keys1[j - 1] == keys[j - 1];
      } else {
        assert keys1[j - 1] == keys[if j == i then i - 1 else j];
        SeparatorBelow(ls, keys, if j == i then i - 1 else j, j + 1, e);
      }
    }
    assert forall j :: 0 <= j < |ls1| ==> ls1[j] == ls[if j < i then j else j + 1];
  }

  // ----- Insertion -----

  lemma AbsentInLeaf(cfg: Config, ps: seq<Page>, k: Row)
    requires Inv(cfg, ps) && k !in ToMap(AllEntries(ps))
    ensures k !in ToMap(ps[DescentPage(ps, k)].es)
  {
    var p, es, s := Prefix(ps, k), ps[DescentPage(ps, k)].es, Suffix(ps, k);
    DescentSplits(cfg, ps, k);
    ToMapConcat(p + es, s);
    ToMapConcat(p, es);
  }

  /** Another content of one leaf, within its bounds. */
  lemma ReplaceKeepsInv(cfg: Config, ps: seq<Page>, i: nat, es: seq<Entry>)
    requires Inv(cfg, ps) && i < |LivePages(ps)| && |es| <= cfg.leafCap && Sorted(es)
    requires Root(ps).Internal? ==> es != [] && InBounds(Root(ps).keys, i, es)
    ensures var p := LivePages(ps)[i]; var ps1 := ps[p := ps[p].(es := es)];
            Inv(cfg, ps1) && AllEntries(ps1) == Flatten(Leaves(ps)[..i]) + es + Flatten(Leaves(ps)[i + 1..])
  {
    hide Less, Flatten;
    var p := LivePages(ps)[i];
    ReplaceLeaf(ps, i, ps[p].(es := es));
    if Root(ps).Internal? {
      SeparatedReplace(Leaves(ps), Root(ps).keys, i, es);
    }
    FlattenReplace(Leaves(ps), i, es);
  }

  /** An insertion that finds room in the leaf. */
  lemma InsertFits(cfg: Config, ps: seq<Page>, k: Row, rid: RowId)
    requires Inv(cfg, ps) && k !in ToMap(AllEntries(ps))
    requires |ps[DescentPage(ps, k)].es| < cfg.leafCap
    ensures var r := Insert(cfg, ps, k, rid);
            Inv(cfg, r.pages) && r.ok && AllEntries(r.pages) == LeafInsert(AllEntries(ps), k, rid)
  {
    hide Less, Flatten, ToMap, AllBelow, AllAbove, InBounds, Sorted;
    var i := DescentIndex(ps, k);
    var es := Leaves(ps)[i];
    AbsentInLeaf(cfg, ps, k);
    LeafInsertSorted(es, k, rid);
    if Root(ps).Internal? {
      LeafInsertInBounds(ps, k, rid);
    }
    ReplaceKeepsInv(cfg, ps, i, LeafInsert(es, k, rid));
    DescentSplits(cfg, ps, k);
    InsertLocal(Prefix(ps, k), es, Suffix(ps, k), k, rid);
  }

  lemma SortedHalves(left: seq<Entry>, right: seq<Entry>)
    requires Sorted(left + right)
    ensures Sorted(left) && Sorted(right)
  {
    var all := left + right;
    assert left == all[..|left|] && right == all[|left|..];
  }

  lemma SeparatedHalves(left: seq<Entry>, right: seq<Entry>)
    requires Sorted(left + right) && left != [] && right != []
    ensures Separated([left, right], [MaxKey(left), MaxKey(right)])
  {
    SortedHalves(left, right);
    forall e | e in left ensures !Less(MaxKey(left), e.key) {
      AtMostMax(left, e);
    }
    forall e | e in right ensures Less(MaxKey(left), e.key) {
      AboveLeft(left, right, e);
    }
  }

  lemma FlattenTwo(left: seq<Entry>, right: seq<Entry>)
    ensures Flatten([left, right]) == left + right
  {
    assert [left, right][1..] == [right];
    assert Flatten([right]) == right;
  }

  /** The new root above the halves of a split root leaf. */
  lemma GrowKeepsInv(cfg: Config, ps: seq<Page>, left: seq<Entry>, right: seq<Entry>)
    requires Inv(cfg, ps) && cfg.internalCap >= 3 && Root(ps).Leaf?
    requires Sorted(left + right) && 0 < |left| <= cfg.leafCap && 0 < |right| <= cfg.leafCap
    ensures var p := ps[0].root;
            var ps1 := ps[p := Leaf(left, INVALID, |ps|)][0 := Metadata(|ps| + 1)]
                       + [Leaf(right, p, INVALID), Internal([p, p, |ps|], [MaxKey(left), MaxKey(right)])];
            Inv(cfg, ps1) && AllEntries(ps1) == left + right
  {
    var p := ps[0].root;
    var ps1 := ps[p := Leaf(left, INVALID, |ps|)][0 := Metadata(|ps| + 1)]
               + [Leaf(right, p, INVALID), Internal([p, p, |ps|], [MaxKey(left), MaxKey(right)])];
    assert LivePages(ps1) == [p, |ps|];
    assert Leaves(ps1) == [left, right];
    SortedHalves(left, right);
    SeparatedHalves(left, right);
    FlattenTwo(left, right);
  }

  lemma SplitInsertSizes(es: seq<Entry>, k: Row, rid: RowId)
    requires |es| >= 2
    ensures var (left, right) := SplitInsert(es, k, rid); 0 < |left| <= |es| && 0 < |right| <= |es|
  {
  }

  /** An insertion that splits the root leaf and grows a root above the halves. */
  lemma InsertGrows(cfg: Config, ps: seq<Page>, k: Row, rid: RowId)
    requires Inv(cfg, ps) && Usable(cfg) && k !in ToMap(AllEntries(ps))
    requires |ps[DescentPage(ps, k)].es| == cfg.leafCap && Root(ps).Leaf? && cfg.internalCap >= 3
    ensures var r := Insert(cfg, ps, k, rid);
            Inv(cfg, r.pages) && r.ok && AllEntries(r.pages) == LeafInsert(AllEntries(ps), k, rid)
  {
    var es := Root(ps).es;
    var (left, right) := SplitInsert(es, k, rid);
    AllEntriesOfRootLeaf(ps);
    LeafInsertSorted(es, k, rid);
    SplitInsertIsInsert(es, k, rid);
    SplitInsertSizes(es, k, rid);
    GrowKeepsInv(cfg, ps, left, right);
  }

  /** In a root with room for one child only, the right half of a split root leaf has no slot. */
  lemma GrowKeepsLeft(cfg: Config, ps: seq<Page>, left: seq<Entry>, right: seq<Entry>)
    requires Inv(cfg, ps) && cfg.internalCap == 2 && Root(ps).Leaf?
    requires Sorted(left) && 0 < |left| <= cfg.leafCap && right != []
    ensures var p := ps[0].root;
            var ps1 := ps[p := Leaf(left, INVALID, |ps|)][0 := Metadata(|ps| + 1)]
                       + [Leaf(right, p, INVALID), Internal([p, p], [MaxKey(left)])];
            Inv(cfg, ps1) && AllEntries(ps1) == left
  {
    var p := ps[0].root;
    var ps1 := ps[p := Leaf(left, INVALID, |ps|)][0 := Metadata(|ps| + 1)]
               + [Leaf(right, p, INVALID), Internal([p, p], [MaxKey(left)])];
    assert LivePages(ps1) == [p];
    assert Leaves(ps1) == [left];
    hide Shaped, Leaves;
    OneLeaf(left);
    assert forall q :: IsLink(ps, q) ==> IsLink(ps1, q);
    hide Less;
  }

  lemma OneLeaf(left: seq<Entry>)
    requires Sorted(left) && left != []
    ensures Separated([left], [MaxKey(left)]) && Flatten([left]) == left
  {
    assert [left][1..] == [];
    assert Flatten([left]) == left + Flatten([]);
  }

  /** An insertion that splits the root leaf under pages with room for two slots: it returns, and
      only the lower half can be reached. */
  lemma InsertGrowsShort(cfg: Config, ps: seq<Page>, k: Row, rid: RowId)
    requires Inv(cfg, ps) && Usable(cfg) && k !in ToMap(AllEntries(ps))
    requires |ps[DescentPage(ps, k)].es| == cfg.leafCap && Root(ps).Leaf? && cfg.internalCap == 2
    ensures var r := Insert(cfg, ps, k, rid);
            var (left, right) := SplitInsert(Root(ps).es, k, rid);
            r.ok && Inv(cfg, r.pages) && AllEntries(r.pages) == left &&
            LeafInsert(AllEntries(ps), k, rid) == left + right
  {
    var es := Root(ps).es;
    var (left, right) := SplitInsert(es, k, rid);
    AllEntriesOfRootLeaf(ps);
    LeafInsertSorted(es, k, rid);
    SplitInsertIsInsert(es, k, rid);
    SplitInsertSizes(es, k, rid);
    SortedHalves(left, right);
    GrowKeepsLeft(cfg, ps, left, right);
  }

  lemma AllEntriesOfRootLeaf(ps: seq<Page>)
    requires Shaped(ps) && Root(ps).Leaf?
    ensures AllEntries(ps) == Root(ps).es && Leaves(ps) == [Root(ps).es]
  {
    var es := Root(ps).es;
    assert Leaves(ps) == [es];
    assert [es][1..] == [];
    assert Flatten([es]) == es + Flatten([]);
  }

  /** The pages after leaf i has been cut in two and both halves entered in the root. */
  ghost function SplitPages(ps: seq<Page>, i: nat, left: seq<Entry>, right: seq<Entry>): seq<Page>
    requires Shaped(ps) && Root(ps).Internal? && i < |LivePages(ps)| && left != [] && right != []
  {
    var p := LivePages(ps)[i];
    var keys := Root(ps).keys[i := MaxKey(left)];
    (ps[p := Leaf(left, ps[p].prev, |ps|)] + [Leaf(right, p, ps[p].next)])
      [ps[0].root := Internal(InsertAt(Root(ps).kids, i + 2, |ps|), InsertAt(keys, i + 1, MaxKey(right)))]
  }

  lemma SplitPagesShape(ps: seq<Page>, i: nat, left: seq<Entry>, right: seq<Entry>)
    requires Shaped(ps) && Root(ps).Internal? && i < |LivePages(ps)| && left != [] && right != []
    ensures var ps1 := SplitPages(ps, i, left, right);
            Shaped(ps1) && LivePages(ps1) == InsertAt(LivePages(ps), i + 1, |ps|)
            && Root(ps1).keys == InsertAt(Root(ps).keys[i := MaxKey(left)], i + 1, MaxKey(right))
  {
    var ps1, live, kids := SplitPages(ps, i, left, right), LivePages(ps), Root(ps).kids;
    InsertAtTail(kids, i + 2, |ps|);
    InsertAtDistinct(live, i + 1, |ps|);
    InsertAtMembers(kids, i + 2, |ps|);
    var kids1 := InsertAt(kids, i + 2, |ps|);
    forall j | 0 <= j < |kids1| ensures IsLeafPage(ps1, kids1[j]) {
      assert kids1[j] in kids1;
    }
  }

  lemma SplitPagesLeaves(ps: seq<Page>, i: nat, left: seq<Entry>, right: seq<Entry>)
    requires Shaped(ps) && Root(ps).Internal? && i < |LivePages(ps)| && left != [] && right != []
    ensures var ps1 := SplitPages(ps, i, left, right);
            Shaped(ps1) && Leaves(ps1) == SplitAt(Leaves(ps), i, left, right)
  {
    SplitPagesShape(ps, i, left, right);
    var ps1, live := SplitPages(ps, i, left, right), LivePages(ps);
    var ls := SplitAt(Leaves(ps), i, left, right);
    forall j | 0 <= j < |ls| ensures Leaves(ps1)[j] == ls[j] {
      if j > i + 1 {
        assert LivePages(ps1)[j] == live[j - 1] != live[i];
      } else if j < i {
        assert LivePages(ps1)[j] == live[j] != live[i];
      }
    }
  }

  lemma SplitPagesLinked(ps: seq<Page>, i: nat, left: seq<Entry>, right: seq<Entry>)
    requires Shaped(ps) && Linked(ps) && Root(ps).Internal? && i < |LivePages(ps)| && left != [] && right != []
    ensures Linked(SplitPages(ps, i, left, right))
  {
    var ps1, p := SplitPages(ps, i, left, right), LivePages(ps)[i];
    forall q | IsLink(ps, q) ensures IsLink(ps1, q) {
    }
    forall q | 0 <= q < |ps1| && ps1[q].Leaf? ensures IsLink(ps1, ps1[q].prev) && IsLink(ps1, ps1[q].next) {
      assert q < |ps| ==> ps[q].Leaf?;
    }
  }

  lemma FilledSplit(cfg: Config, ls: seq<seq<Entry>>, i: nat, left: seq<Entry>, right: seq<Entry>)
    requires Filled(cfg, ls) && i < |ls| && Sorted(left + right)
    requires |left| <= cfg.leafCap && |right| <= cfg.leafCap
    ensures Filled(cfg, SplitAt(ls, i, left, right))
  {
    SortedHalves(left, right);
    var ls1 := SplitAt(ls, i, left, right);
    assert forall j :: 0 <= j < |ls1| ==>
      ls1[j] == if j < i then ls[j] else if j == i then left else if j == i + 1 then right else ls[j - 1];
  }

  lemma SplitKeepsInv(cfg: Config, ps: seq<Page>, i: nat, left: seq<Entry>, right: seq<Entry>)
    requires Inv(cfg, ps) && Root(ps).Internal? && i < |LivePages(ps)| && |Root(ps).kids| < cfg.internalCap
    requires 0 < |left| <= cfg.leafCap && 0 < |right| <= cfg.leafCap
    requires Sorted(left + right) && InBounds(Root(ps).keys, i, left + right)
    ensures var ps1 := SplitPages(ps, i, left, right);
            Inv(cfg, ps1) &&
            AllEntries(ps1) == Flatten(Leaves(ps)[..i]) + (left + right) + Flatten(Leaves(ps)[i + 1..])
  {
    var ps1 := SplitPages(ps, i, left, right);
    SplitPagesShape(ps, i, left, right);
    SplitPagesLeaves(ps, i, left, right);
    SplitPagesLinked(ps, i, left, right);
    FilledSplit(cfg, Leaves(ps), i, left, right);
    SeparatedSplit(Leaves(ps), Root(ps).keys, i, left, right);
    FlattenSplitAt(Leaves(ps), i, left, right);
  }

  /** An insertion that splits a leaf under a root with room. */
  lemma InsertSplits(cfg: Config, ps: seq<Page>, k: Row, rid: RowId)
    requires Inv(cfg, ps) && Usable(cfg) && k !in ToMap(AllEntries(ps))
    requires |ps[DescentPage(ps, k)].es| == cfg.leafCap && Root(ps).Internal? && |Root(ps).kids| < cfg.internalCap
    ensures var r := Insert(cfg, ps, k, rid);
            Inv(cfg, r.pages) && r.ok && AllEntries(r.pages) == LeafInsert(AllEntries(ps), k, rid)
  {
    hide Less, Sorted, Insert, SplitPages, SplitInsert, LeafInsert, Flatten, ToMap, InBounds, Separated, Linked;
    var i := DescentIndex(ps, k);
    var es := Leaves(ps)[i];
    var (left, right) := SplitInsert(es, k, rid);
    AbsentInLeaf(cfg, ps, k);
    LeafInsertSorted(es, k, rid);
    LeafInsertInBounds(ps, k, rid);
    SplitInsertIsInsert(es, k, rid);
    SplitInsertSizes(es, k, rid);
    SplitKeepsInv(cfg, ps, i, left, right);
    DescentSplits(cfg, ps, k);
    InsertLocal(Prefix(ps, k), es, Suffix(ps, k), k, rid);
    InsertIsSplitPages(cfg, ps, k, rid);
  }

  lemma InsertIsSplitPages(cfg: Config, ps: seq<Page>, k: Row, rid: RowId)
    requires Shaped(ps) && Root(ps).Internal? && |ps[DescentPage(ps, k)].es| >= cfg.leafCap >= 2
    requires |Root(ps).kids| < cfg.internalCap
    ensures var halves := SplitInsert(ps[DescentPage(ps, k)].es, k, rid);
            Insert(cfg, ps, k, rid) == Inserted(SplitPages(ps, DescentIndex(ps, k), halves.0, halves.1), true)
  {
  }

  // ----- A full root -----

  lemma SeparatedCut(ls: seq<seq<Entry>>, keys: seq<Row>, i: nat, left: seq<Entry>)
    requires Separated(ls, keys) && i < |ls| && left != [] && Sorted(left) && InBounds(keys, i, left)
    ensures Separated(ls[i := left], keys[i := MaxKey(left)])
  {
    var top := left[|left| - 1];
    assert top in left;
    forall e | e in left ensures !Less(MaxKey(left), e.key) {
      AtMostMax(left, e);
    }
    if i + 1 < |ls| {
      forall e | e in ls[i + 1] ensures Less(MaxKey(left), e.key) {
        NextAbove(ls, keys, i, left, top, e);
      }
    }
  }

  /** The pages after a split whose upper half found no room in the root. */
  ghost function CutPages(ps: seq<Page>, i: nat, left: seq<Entry>, right: seq<Entry>): seq<Page>
    requires Shaped(ps) && Root(ps).Internal? && i < |LivePages(ps)| && left != []
  {
    var p := LivePages(ps)[i];
    (ps[p := Leaf(left, ps[p].prev, |ps|)] + [Leaf(right, p, ps[p].next)])
      [ps[0].root := Internal(Root(ps).kids, Root(ps).keys[i := MaxKey(left)])]
  }

  lemma CutPagesShape(ps: seq<Page>, i: nat, left: seq<Entry>, right: seq<Entry>)
    requires Shaped(ps) && Root(ps).Internal? && i < |LivePages(ps)| && left != []
    ensures var ps1 := CutPages(ps, i, left, right);
            Shaped(ps1) && LivePages(ps1) == LivePages(ps) && Leaves(ps1) == Leaves(ps)[i := left]
  {
    var ps1, live := CutPages(ps, i, left, right), LivePages(ps);
    forall q | 0 <= q < |ps| ensures ps1[q].Leaf? <==> ps[q].Leaf? {
    }
    assert Shaped(ps1) && LivePages(ps1) == live;
    hide Shaped, LivePages, MaxKey;
    forall j | 0 <= j < |live| ensures Leaves(ps1)[j] == Leaves(ps)[i := left][j] {
      assert j != i ==> live[j] != live[i];
    }
  }

  lemma CutPagesLinked(ps: seq<Page>, i: nat, left: seq<Entry>, right: seq<Entry>)
    requires Shaped(ps) && Linked(ps) && Root(ps).Internal? && i < |LivePages(ps)| && left != []
    ensures Linked(CutPages(ps, i, left, right))
  {
    var ps1, p := CutPages(ps, i, left, right), LivePages(ps)[i];
    forall q | IsLink(ps, q) ensures IsLink(ps1, q) {
    }
    forall q | 0 <= q < |ps1| && ps1[q].Leaf? ensures IsLink(ps1, ps1[q].prev) && IsLink(ps1, ps1[q].next) {
      assert q < |ps| ==> ps[q].Leaf?;
    }
  }

  lemma CutKeepsInv(cfg: Config, ps: seq<Page>, i: nat, left: seq<Entry>, right: seq<Entry>)
    requires Inv(cfg, ps) && Root(ps).Internal? && i < |LivePages(ps)|
    requires 0 < |left| <= cfg.leafCap && Sorted(left) && InBounds(Root(ps).keys, i, left)
    ensures var ps1 := CutPages(ps, i, left, right);
            Inv(cfg, ps1) && AllEntries(ps1) == Flatten(Leaves(ps)[..i]) + left + Flatten(Leaves(ps)[i + 1..])
  {
    CutPagesShape(ps, i, left, right);
    CutPagesLinked(ps, i, left, right);
    SeparatedCut(Leaves(ps), Root(ps).keys, i, left);
    FlattenReplace(Leaves(ps), i, left);
  }

  /** An insertion that needs a slot in a full root throws, after it has cut the leaf: the
      upper half of the leaf is no longer reachable, everything else is. */
  lemma InsertThrows(cfg: Config, ps: seq<Page>, k: Row, rid: RowId)
    requires Inv(cfg, ps) && Usable(cfg) && k !in ToMap(AllEntries(ps))
    requires |ps[DescentPage(ps, k)].es| == cfg.leafCap && Root(ps).Internal? && |Root(ps).kids| == cfg.internalCap
    ensures var r := Insert(cfg, ps, k, rid);
            var (left, right) := SplitInsert(ps[DescentPage(ps, k)].es, k, rid);
            !r.ok && Inv(cfg, r.pages) && AllEntries(r.pages) == Prefix(ps, k) + left + Suffix(ps, k) &&
            LeafInsert(AllEntries(ps), k, rid) == Prefix(ps, k) + (left + right) + Suffix(ps, k)
  {
    hide Less, Flatten;
    var i := DescentIndex(ps, k);
    var es := Leaves(ps)[i];
    var (left, right) := SplitInsert(es, k, rid);
    AbsentInLeaf(cfg, ps, k);
    LeafInsertSorted(es, k, rid);
    LeafInsertInBounds(ps, k, rid);
    SplitInsertIsInsert(es, k, rid);
    SplitInsertSizes(es, k, rid);
    SortedHalves(left, right);
    assert InBounds(Root(ps).keys, i, left) by {
      assert forall e :: e in left ==> e in left + right;
    }
    CutKeepsInv(cfg, ps, i, left, right);
    DescentSplits(cfg, ps, k);
    InsertLocal(Prefix(ps, k), es, Suffix(ps, k), k, rid);
    assert Insert(cfg, ps, k, rid).pages == CutPages(ps, i, left, right);
  }

  // ----- Removal -----

  lemma FindKeyFinds(es: seq<Entry>, k: Row)
    ensures FindKey(es, k) < |es| <==> k in ToMap(es)
  {
    ToMapKeys(es, k);
  }

  lemma LeafInBounds(ps: seq<Page>, i: nat)
    requires Shaped(ps) && Root(ps).Internal? && Separated(Leaves(ps), Root(ps).keys) && i < |LivePages(ps)|
    ensures InBounds(Root(ps).keys, i, Leaves(ps)[i])
  {
  }

  lemma RemoveAtInBounds(keys: seq<Row>, i: nat, es: seq<Entry>, at: nat)
    requires i < |keys| && InBounds(keys, i, es) && at < |es|
    ensures InBounds(keys, i, RemoveAt(es, at))
  {
    assert forall e :: e in RemoveAt(es, at) ==> e in es;
  }

  /** Two lists of pages that differ in links only. */
  ghost predicate SameButLinks(ps: seq<Page>, ps1: seq<Page>) {
    |ps1| == |ps| &&
    forall q :: 0 <= q < |ps| ==>
      ps1[q] == ps[q] || (ps[q].Leaf? && ps1[q].Leaf? && ps1[q].es == ps[q].es)
  }

  lemma UnlinkKeeps(ps: seq<Page>, p: int)
    requires Linked(ps) && IsLeafPage(ps, p)
    ensures SameButLinks(ps, Unlink(ps, p)) && Linked(Unlink(ps, p))
  {
    var ps1 := Unlink(ps, p);
    assert SameButLinks(ps, ps1);
    assert forall q :: IsLink(ps, q) ==> IsLink(ps1, q);
  }

  /** The pages after leaf i has been emptied, unlinked and dropped from the root. */
  ghost function DropPages(ps: seq<Page>, i: nat): seq<Page>
    requires Shaped(ps) && Root(ps).Internal? && i < |LivePages(ps)|
  {
    var p := LivePages(ps)[i];
    Unlink(ps[p := ps[p].(es := [])], p)
      [ps[0].root := Internal(RemoveAt(Root(ps).kids, i + 1), RemoveAt(Root(ps).keys, i))]
  }

  lemma EmptiedLinked(ps: seq<Page>, p: int)
    requires Linked(ps) && IsLeafPage(ps, p)
    ensures Linked(ps[p := ps[p].(es := [])])
  {
    var ps1 := ps[p := ps[p].(es := [])];
    assert forall q :: IsLink(ps, q) ==> IsLink(ps1, q);
  }

  lemma DropPagesShape(ps: seq<Page>, i: nat)
    requires Shaped(ps) && Linked(ps) && Root(ps).Internal? && i < |LivePages(ps)| && |Root(ps).kids| > 2
    ensures var ps1 := DropPages(ps, i);
            Shaped(ps1) && LivePages(ps1) == RemoveAt(LivePages(ps), i)
            && Root(ps1).keys == RemoveAt(Root(ps).keys, i)
            && ps1[0] == ps[0] && (forall q :: IsLeafPage(ps, q) <==> IsLeafPage(ps1, q))
            && (forall q :: IsLeafPage(ps, q) && q != LivePages(ps)[i] ==> ps1[q].es == ps[q].es)
  {
    var ps1, p, kids := DropPages(ps, i), LivePages(ps)[i], Root(ps).kids;
    EmptiedLinked(ps, p);
    UnlinkKeeps(ps[p := ps[p].(es := [])], p);
    RemoveAtTail(kids, i + 1);
    RemoveAtDistinct(LivePages(ps), i);
  }

  lemma DropPagesLinked(ps: seq<Page>, i: nat)
    requires Shaped(ps) && Linked(ps) && Root(ps).Internal? && i < |LivePages(ps)|
    ensures Linked(DropPages(ps, i))
  {
    var ps1, p := DropPages(ps, i), LivePages(ps)[i];
    EmptiedLinked(ps, p);
    var ps2 := ps[p := ps[p].(es := [])];
    UnlinkKeeps(ps2, p);
    assert forall q :: IsLink(Unlink(ps2, p), q) ==> IsLink(ps1, q);
  }

  lemma DropKeepsInv(cfg: Config, ps: seq<Page>, i: nat)
    requires Inv(cfg, ps) && Root(ps).Internal? && i < |LivePages(ps)| && |Root(ps).kids| > 2
    ensures var ps1 := DropPages(ps, i);
            Inv(cfg, ps1) && AllEntries(ps1) == Flatten(Leaves(ps)[..i]) + Flatten(Leaves(ps)[i + 1..])
  {
    var ps1, live := DropPages(ps, i), LivePages(ps);
    DropPagesShape(ps, i);
    DropPagesLinked(ps, i);
    forall j | 0 <= j < |live| - 1 ensures Leaves(ps1)[j] == RemoveAt(Leaves(ps), i)[j] {
      assert LivePages(ps1)[j] == live[if j < i then j else j + 1];
    }
    assert Leaves(ps1) == RemoveAt(Leaves(ps), i);
    SeparatedRemove(Leaves(ps), Root(ps).keys, i);
    FlattenRemoveAt(Leaves(ps), i);
  }

  /** The pages after the only leaf has been emptied: the program starts again from a fresh root leaf. */
  ghost function CollapsePages(ps: seq<Page>): seq<Page>
    requires Shaped(ps) && Root(ps).Internal?
  {
    var p := LivePages(ps)[0];
    Unlink(ps[p := ps[p].(es := [])], p)[ps[0].root := Internal([], [])][0 := Metadata(|ps|)]
      + [Leaf([], INVALID, INVALID)]
  }

  lemma CollapseKeepsInv(cfg: Config, ps: seq<Page>)
    requires Inv(cfg, ps) && Root(ps).Internal?
    ensures var ps1 := CollapsePages(ps);
            Inv(cfg, ps1) && Root(ps1).Leaf? && AllEntries(ps1) == []
  {
    var ps1, p := CollapsePages(ps), LivePages(ps)[0];
    EmptiedLinked(ps, p);
    var ps2 := ps[p := ps[p].(es := [])];
    UnlinkKeeps(ps2, p);
    assert Root(ps1) == Leaf([], INVALID, INVALID);
    AllEntriesOfRootLeaf(ps1);
    assert forall q :: IsLink(Unlink(ps2, p), q) ==> IsLink(ps1, q);
    assert Linked(ps1);
  }

  /** What the pages are after the removal of a key that is there. */
  ghost function RemovedPages(ps: seq<Page>, k: Row): seq<Page>
    requires Shaped(ps) && FindKey(ps[DescentPage(ps, k)].es, k) < |ps[DescentPage(ps, k)].es|
  {
    var i, p := DescentIndex(ps, k), DescentPage(ps, k);
    var es := ps[p].es;
    if Root(ps).Leaf? || |es| > 1 then ps[p := ps[p].(es := RemoveAt(es, FindKey(es, k)))]
    else if |Root(ps).kids| > 2 then DropPages(ps, i)
    else CollapsePages(ps)
  }

  lemma RemoveIsRemovedPages(ps: seq<Page>, k: Row)
    requires Shaped(ps) && FindKey(ps[DescentPage(ps, k)].es, k) < |ps[DescentPage(ps, k)].es|
    ensures Remove(ps, k) == (RemovedPages(ps, k), true)
  {
    var es := ps[DescentPage(ps, k)].es;
    assert |es| == 1 ==> RemoveAt(es, FindKey(es, k)) == [];
  }

  /** A removal that leaves the leaf non-empty, or the tree a single leaf. */
  lemma RemoveInLeaf(cfg: Config, ps: seq<Page>, k: Row)
    requires Inv(cfg, ps) && k in ToMap(ps[DescentPage(ps, k)].es)
    requires Root(ps).Leaf? || |ps[DescentPage(ps, k)].es| > 1
    ensures var es := ps[DescentPage(ps, k)].es;
            FindKey(es, k) < |es| &&
            Inv(cfg, RemovedPages(ps, k)) &&
            AllEntries(RemovedPages(ps, k)) == Prefix(ps, k) + RemoveAt(es, FindKey(es, k)) + Suffix(ps, k)
  {
    var i := DescentIndex(ps, k);
    var es := Leaves(ps)[i];
    FindKeyFinds(es, k);
    RemoveAtSorted(es, FindKey(es, k));
    if Root(ps).Internal? {
      LeafInBounds(ps, i);
      RemoveAtInBounds(Root(ps).keys, i, es, FindKey(es, k));
    }
    ReplaceKeepsInv(cfg, ps, i, RemoveAt(es, FindKey(es, k)));
  }

  lemma LastEntryFound(es: seq<Entry>, k: Row)
    requires k in ToMap(es) && |es| == 1
    ensures FindKey(es, k) == 0 && RemoveAt(es, FindKey(es, k)) == []
  {
    FindKeyFinds(es, k);
  }

  /** A removal that empties one of several leaves of a two-level tree. */
  lemma RemoveDrops(cfg: Config, ps: seq<Page>, k: Row)
    requires Inv(cfg, ps) && k in ToMap(ps[DescentPage(ps, k)].es)
    requires Root(ps).Internal? && |ps[DescentPage(ps, k)].es| == 1 && |Root(ps).kids| > 2
    ensures FindKey(ps[DescentPage(ps, k)].es, k) == 0
    ensures Inv(cfg, RemovedPages(ps, k)) && AllEntries(RemovedPages(ps, k)) == Prefix(ps, k) + Suffix(ps, k)
  {
    var i := DescentIndex(ps, k);
    LastEntryFound(ps[DescentPage(ps, k)].es, k);
    DropKeepsInv(cfg, ps, i);
    assert Shaped(ps);
    hide Inv, DropPages, CollapsePages, FindKey, ToMap, Flatten, Leaves, DescentPage, DescentIndex, AllEntries;
  }

  /** A removal that empties the only leaf of a two-level tree. */
  lemma RemoveCollapses(cfg: Config, ps: seq<Page>, k: Row)
    requires Inv(cfg, ps) && k in ToMap(ps[DescentPage(ps, k)].es)
    requires Root(ps).Internal? && |ps[DescentPage(ps, k)].es| == 1 && |Root(ps).kids| == 2
    ensures FindKey(ps[DescentPage(ps, k)].es, k) == 0
    ensures Inv(cfg, RemovedPages(ps, k)) && AllEntries(RemovedPages(ps, k)) == Prefix(ps, k) + Suffix(ps, k)
  {
    LastEntryFound(ps[DescentPage(ps, k)].es, k);
    CollapseKeepsInv(cfg, ps);
    assert Shaped(ps) && |Leaves(ps)| == 1 && DescentIndex(ps, k) == 0;
    hide Inv, DropPages, CollapsePages, FindKey, ToMap, Leaves, DescentPage, DescentIndex, AllEntries;
    assert Prefix(ps, k) == [] && Suffix(ps, k) == [];
  }

  lemma NothingBetween<T>(p: seq<T>, m: seq<T>, s: seq<T>)
    requires m == []
    ensures p + m + s == p + s
  {
  }

  lemma RemoveFound(cfg: Config, ps: seq<Page>, k: Row)
    requires Inv(cfg, ps) && k in ToMap(ps[DescentPage(ps, k)].es)
    ensures var (ps1, removed) := Remove(ps, k);
            var es := ps[DescentPage(ps, k)].es;
            Inv(cfg, ps1) && removed && FindKey(es, k) < |es| &&
            AllEntries(ps1) == Prefix(ps, k) + RemoveAt(es, FindKey(es, k)) + Suffix(ps, k)
  {
    assert Shaped(ps);
    hide Remove, RemovedPages, Inv, AllEntries, Prefix, Suffix, FindKey, RemoveAt, ToMap, DescentPage, LivePages, Shaped;
    if Root(ps).Leaf? || |ps[DescentPage(ps, k)].es| > 1 {
      RemoveInLeaf(cfg, ps, k);
    } else {
      LastEntryFound(ps[DescentPage(ps, k)].es, k);
      NothingBetween(Prefix(ps, k), RemoveAt(ps[DescentPage(ps, k)].es, 0), Suffix(ps, k));
      if |Root(ps).kids| > 2 {
        RemoveDrops(cfg, ps, k);
      } else {
        RemoveCollapses(cfg, ps, k);
      }
    }
    RemoveIsRemovedPages(ps, k);
  }

  lemma RemoveLocal(p: seq<Entry>, es: seq<Entry>, s: seq<Entry>, k: Row)
    requires AllBelow(p, k) && AllAbove(s, k)
    ensures var all := p + es + s;
            if FindKey(es, k) < |es|
            then FindKey(all, k) < |all| && p + RemoveAt(es, FindKey(es, k)) + s == RemoveAt(all, FindKey(all, k))
            else FindKey(all, k) == |all|
  {
    FindKeyLocal(p, es, s, k);
    if FindKey(es, k) < |es| {
      RemoveAtMiddle(p, es, s, FindKey(es, k));
    }
  }

  /** Removal, on the list of everything stored. */
  lemma RemoveOnList(cfg: Config, ps: seq<Page>, k: Row)
    requires Inv(cfg, ps)
    ensures var (ps1, removed) := Remove(ps, k);
            var all := AllEntries(ps);
            Inv(cfg, ps1) && (removed <==> FindKey(all, k) < |all|) &&
            AllEntries(ps1) == if removed then RemoveAt(all, FindKey(all, k)) else all
  {
    var es := ps[DescentPage(ps, k)].es;
    DescentSplits(cfg, ps, k);
    RemoveLocal(Prefix(ps, k), es, Suffix(ps, k), k);
    FindKeyFinds(es, k);
    if k in ToMap(es) {
      RemoveFound(cfg, ps, k);
    }
  }
}
