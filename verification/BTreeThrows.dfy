/** The scan after an insertion that loses entries: the cut leaf still links to the half that the
    root does not know. */
module BTreeThrows {
  import opened Rows
  import opened Seqs
  import opened BTreeModel
  import opened BTreeSteps
  import opened BTreeRuns
  import opened BTreeScan

  /** Two heaps with the same leaf pages have the same paths, with the same entries. */
  lemma SamePath(ps: seq<Page>, ps1: seq<Page>, path: seq<int>)
    requires |ps| == |ps1| && Path(ps, path)
    requires forall q :: 0 <= q < |ps| ==> (if ps[q].Leaf? then ps1[q] == ps[q] else !ps1[q].Leaf?)
    ensures Path(ps1, path) && PathLeaves(ps1, path) == PathLeaves(ps, path)
  {
    assert EndsScan(ps, ps[path[|path| - 1]].next);
  }

  /** An insertion that throws loses the upper half of the leaf to lookups, but a scan gives all
      entries and the new one; so the scan no longer agrees with lookups. */
  lemma ThrowKeepsScan(cfg: Config, ps: seq<Page>, k: Row, rid: RowId)
    requires Inv(cfg, ps) && Usable(cfg) && k !in Contents(ps) && NoRoom(cfg, ps, k) && Chained(ps)
    ensures var ps1 := Insert(cfg, ps, k, rid).pages;
            Shaped(ps1) && Yields(ps1, Start(ps1), LeafInsert(AllEntries(ps), k, rid)) && !ScanComplete(ps1)
  {
    var i := DescentIndex(ps, k);
    var (left, right) := SplitInsert(ps[DescentPage(ps, k)].es, k, rid);
    DescentFilled(cfg, ps, k);
    InsertThrows(cfg, ps, k, rid);
    ThrownPath(ps, i, left, right);
    var ps1 := Insert(cfg, ps, k, rid).pages;
    assert ps1 == CutPages(ps, i, left, right);
    if ScanComplete(ps1) {
      YieldsUnique(ps1, Start(ps1), LeafInsert(AllEntries(ps), k, rid), AllEntries(ps1));
    }
  }

  /** So does an insertion that grows a root without room for the upper half. */
  lemma GrowthKeepsScan(cfg: Config, ps: seq<Page>, k: Row, rid: RowId)
    requires Inv(cfg, ps) && Usable(cfg) && k !in Contents(ps) && Loses(cfg, ps, k) && Root(ps).Leaf?
    ensures var ps1 := Insert(cfg, ps, k, rid).pages;
            Shaped(ps1) && Yields(ps1, Start(ps1), LeafInsert(AllEntries(ps), k, rid)) && !ScanComplete(ps1)
  {
    var (left, right) := SplitInsert(Root(ps).es, k, rid);
    DescentFilled(cfg, ps, k);
    InsertGrowsShort(cfg, ps, k, rid);
    GrownPath(cfg, ps, k, rid);
    hide Insert, Yields, SplitInsert, LeafInsert;
    var ps1 := Insert(cfg, ps, k, rid).pages;
    if ScanComplete(ps1) {
      YieldsUnique(ps1, Start(ps1), left + right, AllEntries(ps1));
    }
  }

  lemma GrownPath(cfg: Config, ps: seq<Page>, k: Row, rid: RowId)
    requires Shaped(ps) && Root(ps).Leaf? && |Root(ps).es| >= cfg.leafCap >= 2 && cfg.internalCap == 2
    ensures var halves := SplitInsert(Root(ps).es, k, rid);
            var ps1 := Insert(cfg, ps, k, rid).pages;
            Shaped(ps1) && Yields(ps1, Start(ps1), halves.0 + halves.1)
  {
    hide SplitInsert;
    var halves := SplitInsert(Root(ps).es, k, rid);
    var ps1, p, q := Insert(cfg, ps, k, rid).pages, ps[0].root, |ps|;
    assert ps1[p] == Leaf(halves.0, INVALID, q) && ps1[q] == Leaf(halves.1, p, INVALID);
    assert Root(ps1) == GrownRoot(cfg, p, q, MaxKey(halves.0), MaxKey(halves.1));
    ScanAlong(ps1, [p, q]);
    assert PathLeaves(ps1, [p, q]) == [halves.0, halves.1];
    FlattenTwo(halves.0, halves.1);
  }

  lemma CutIsSplitButRoot(ps: seq<Page>, i: nat, left: seq<Entry>, right: seq<Entry>)
    requires Shaped(ps) && Root(ps).Internal? && i < |LivePages(ps)| && left != [] && right != []
    ensures var ps1, ps2 := CutPages(ps, i, left, right), SplitPages(ps, i, left, right);
            |ps1| == |ps2| &&
            forall q :: 0 <= q < |ps2| ==> (if ps2[q].Leaf? then ps1[q] == ps2[q] else !ps1[q].Leaf?)
  {
  }

  lemma ThrownPath(ps: seq<Page>, i: nat, left: seq<Entry>, right: seq<Entry>)
    requires Shaped(ps) && Chained(ps) && Root(ps).Internal? && i < |LivePages(ps)| && left != [] && right != []
    ensures var ps1 := CutPages(ps, i, left, right);
            Shaped(ps1) &&
            Yields(ps1, Start(ps1), Flatten(Leaves(ps)[..i]) + (left + right) + Flatten(Leaves(ps)[i + 1..]))
  {
    var ps1, ps2 := CutPages(ps, i, left, right), SplitPages(ps, i, left, right);
    CutPagesShape(ps, i, left, right);
    SplitPagesShape(ps, i, left, right);
    SplitPath(ps, i, left, right);
    CutIsSplitButRoot(ps, i, left, right);
    ThrownStart(ps, i, left, right);
    hide CutPages, SplitPages, Path, Shaped, Chained, Flatten, Yields, LivePages, Start, PathLeaves, Leaves;
    var path := LivePages(ps2);
    SamePath(ps2, ps1, path);
    ScanAlong(ps1, path);
  }

  lemma SplitPath(ps: seq<Page>, i: nat, left: seq<Entry>, right: seq<Entry>)
    requires Shaped(ps) && Chained(ps) && Root(ps).Internal? && i < |LivePages(ps)| && left != [] && right != []
    ensures var ps2 := SplitPages(ps, i, left, right);
            Shaped(ps2) && Path(ps2, LivePages(ps2)) && PathLeaves(ps2, LivePages(ps2)) == Leaves(ps2) &&
            Flatten(Leaves(ps2)) == Flatten(Leaves(ps)[..i]) + (left + right) + Flatten(Leaves(ps)[i + 1..])
  {
    SplitPagesShape(ps, i, left, right);
    SplitPagesLeaves(ps, i, left, right);
    SplitChained(ps, i, left, right);
    FlattenSplitAt(Leaves(ps), i, left, right);
    hide SplitPages, Flatten, SplitAt;
  }

  lemma ThrownStart(ps: seq<Page>, i: nat, left: seq<Entry>, right: seq<Entry>)
    requires Shaped(ps) && Chained(ps) && Root(ps).Internal? && i < |LivePages(ps)| && left != [] && right != []
    ensures var ps1, ps2 := CutPages(ps, i, left, right), SplitPages(ps, i, left, right);
            Shaped(ps1) && Shaped(ps2) && Start(ps1) == Cursor(LivePages(ps2)[0], 0, false)
  {
    CutPagesShape(ps, i, left, right);
    SplitPagesShape(ps, i, left, right);
  }
}
