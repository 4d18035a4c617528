/** The full scan of the index tree: which runs keep it complete. */
module BTreeScan {
  import opened Rows
  import opened Seqs
  import opened Comparator
  import opened BTreeModel
  import opened BTreeMap
  import opened BTreeSteps
  import opened BTreeRuns

  // ----- The iterator -----

  /** The state of an iterator: leaf page, offset in it, and whether the last leaf is exhausted. */
  datatype Cursor = Cursor(page: int, offset: nat, end: bool)

  /** Where read() starts: the root leaf, or what slot 0 of the root points to. */
  ghost function Start(ps: seq<Page>): (c: Cursor)
    requires Shaped(ps)
    ensures IsLeafPage(ps, c.page)
  {
    Cursor(if Root(ps).Leaf? then ps[0].root else Root(ps).kids[0], 0, false)
  }

  /** One nextRow() without conditions: an entry and the state after it, or the end. */
  function Next(ps: seq<Page>, c: Cursor): (r: Option<(Entry, Cursor)>)
    requires IsLeafPage(ps, c.page)
  {
    var leaf := ps[c.page];
    if c.end || c.offset >= |leaf.es| then None
    else if c.offset + 1 < |leaf.es| then Some((leaf.es[c.offset], c.(offset := c.offset + 1)))
    else if leaf.next == INVALID then Some((leaf.es[c.offset], Cursor(c.page, c.offset + 1, true)))
    else Some((leaf.es[c.offset], Cursor(leaf.next, 0, false)))
  }

  /** Iterating from c gives exactly the entries xs and then ends. */
  ghost predicate Yields(ps: seq<Page>, c: Cursor, xs: seq<Entry>)
    decreases |xs|
  {
    IsLeafPage(ps, c.page) &&
    match Next(ps, c)
    case None => xs == []
    case Some((e, c1)) => xs != [] && xs[0] == e && Yields(ps, c1, xs[1..])
  }

  lemma {:induction false} YieldsUnique(ps: seq<Page>, c: Cursor, xs: seq<Entry>, ys: seq<Entry>)
    requires Yields(ps, c, xs) && Yields(ps, c, ys)
    ensures xs == ys
    decreases |xs|
  {
    if xs != [] {
      YieldsUnique(ps, Next(ps, c).value.1, xs[1..], ys[1..]);
      assert xs == [xs[0]] + xs[1..] && ys == [ys[0]] + ys[1..];
    }
  }

  // ----- The leaf chain -----

  /** A next link that ends a scan: none, or an emptied leaf. */
  ghost predicate EndsScan(ps: seq<Page>, next: int) {
    next == INVALID || (IsLeafPage(ps, next) && ps[next].es == [])
  }

  /** A path of non-empty leaves along the next links, as far as a scan goes. */
  ghost predicate Path(ps: seq<Page>, path: seq<int>) {
    path != [] &&
    (forall i :: 0 <= i < |path| ==> IsLeafPage(ps, path[i]) && ps[path[i]].es != []) &&
    (forall i :: 0 <= i < |path| - 1 ==> ps[path[i]].next == path[i + 1]) &&
    EndsScan(ps, ps[path[|path| - 1]].next)
  }

  ghost function PathEntries(ps: seq<Page>, path: seq<int>): seq<Entry>
    requires forall i :: 0 <= i < |path| ==> IsLeafPage(ps, path[i])
  {
    Flatten(PathLeaves(ps, path))
  }

  ghost function PathLeaves(ps: seq<Page>, path: seq<int>): (ls: seq<seq<Entry>>)
    requires forall i :: 0 <= i < |path| ==> IsLeafPage(ps, path[i])
    ensures |ls| == |path| && forall i :: 0 <= i < |ls| ==> IsLeafPage(ps, path[i]) && ls[i] == ps[path[i]].es
  {
    seq(|path|, i requires 0 <= i < |path| && IsLeafPage(ps, path[i]) => ps[path[i]].es)
  }

  lemma PathEntriesHead(ps: seq<Page>, path: seq<int>)
    requires path != [] && forall i :: 0 <= i < |path| ==> IsLeafPage(ps, path[i])
    ensures PathEntries(ps, path) == ps[path[0]].es + PathEntries(ps, path[1..])
  {
    assert PathLeaves(ps, path)[1..] == PathLeaves(ps, path[1..]);
  }

  /** A scan along a path gives the entries of its leaves. */
  lemma {:induction false} PathYields(ps: seq<Page>, path: seq<int>, offset: nat)
    requires Path(ps, path) && offset < |ps[path[0]].es|
    ensures Yields(ps, Cursor(path[0], offset, false), ps[path[0]].es[offset..] + PathEntries(ps, path[1..]))
    decreases |path|, |ps[path[0]].es| - offset
  {
    var c, leaf := Cursor(path[0], offset, false), ps[path[0]];
    var rest := PathEntries(ps, path[1..]);
    var xs := leaf.es[offset..] + rest;
    assert leaf.es[offset..][1..] == leaf.es[offset + 1..];
    if offset + 1 < |leaf.es| {
      PathYields(ps, path, offset + 1);
      assert xs[1..] == leaf.es[offset + 1..] + rest;
    } else if |path| == 1 {
      assert xs[1..] == [];
    } else {
      assert Path(ps, path[1..]);
      PathYields(ps, path[1..], 0);
      PathEntriesHead(ps, path[1..]);
      assert ps[path[1]].es[0..] == ps[path[1]].es;
      assert xs[1..] == rest;
    }
  }

  /** The scan sees every leaf: slot 0 names the first one and the next links run through all. */
  ghost predicate Chained(ps: seq<Page>)
    requires Shaped(ps)
  {
    if Root(ps).Leaf? then Root(ps).next == INVALID
    else Root(ps).kids[0] == Root(ps).kids[1] && Path(ps, LivePages(ps))
  }

  /** Previous links never lead to the leaf itself or a later one. */
  ghost predicate Backward(ps: seq<Page>)
    requires Shaped(ps)
  {
    var live := LivePages(ps);
    forall i, j :: 0 <= i <= j < |live| ==> ps[live[i]].prev != live[j]
  }

  /** Iterating read() gives everything stored, each entry once, in ascending key order. */
  ghost predicate ScanComplete(ps: seq<Page>)
    requires Shaped(ps)
  {
    Yields(ps, Start(ps), AllEntries(ps))
  }

  lemma ChainedScan(cfg: Config, ps: seq<Page>)
    requires Inv(cfg, ps) && Chained(ps)
    ensures ScanComplete(ps) && Sorted(AllEntries(ps))
  {
    AllEntriesSorted(cfg, ps);
    if Root(ps).Leaf? {
      AllEntriesOfRootLeaf(ps);
      var es := Root(ps).es;
      if es != [] {
        assert Path(ps, [ps[0].root]);
        PathYields(ps, [ps[0].root], 0);
        assert es[0..] + PathEntries(ps, [ps[0].root][1..]) == es;
      }
    } else {
      ScanAlong(ps, LivePages(ps));
      assert PathLeaves(ps, LivePages(ps)) == Leaves(ps);
    }
  }

  /** A scan that starts on a path. */
  lemma ScanAlong(ps: seq<Page>, path: seq<int>)
    requires Path(ps, path)
    ensures Yields(ps, Cursor(path[0], 0, false), PathEntries(ps, path))
  {
    PathYields(ps, path, 0);
    PathEntriesHead(ps, path);
    assert ps[path[0]].es[0..] == ps[path[0]].es;
  }

  // ----- Insertion keeps the scan complete -----

  lemma SplitChained(ps: seq<Page>, i: nat, left: seq<Entry>, right: seq<Entry>)
    requires Shaped(ps) && Chained(ps) && Root(ps).Internal? && i < |LivePages(ps)| && left != [] && right != []
    ensures Shaped(SplitPages(ps, i, left, right)) && Chained(SplitPages(ps, i, left, right))
  {
    SplitPagesShape(ps, i, left, right);
    var ps1, live, live1 := SplitPages(ps, i, left, right), LivePages(ps), LivePages(SplitPages(ps, i, left, right));
    forall j | 0 <= j < |live1| ensures ps1[live1[j]].es != [] {
      if j < i {
        assert live1[j] == live[j] != live[i];
      } else if j > i + 1 {
        assert live1[j] == live[j - 1] != live[i];
      }
    }
    forall j | 0 <= j < |live1| - 1 ensures ps1[live1[j]].next == live1[j + 1] {
      if j < i {
        assert live1[j] == live[j] != live[i];
      } else if j > i + 1 {
        assert live1[j] == live[j - 1] != live[i];
      }
    }
    SplitEnds(ps, i, left, right);
  }

  lemma SplitEnds(ps: seq<Page>, i: nat, left: seq<Entry>, right: seq<Entry>)
    requires Shaped(ps) && Chained(ps) && Root(ps).Internal? && i < |LivePages(ps)| && left != [] && right != []
    ensures var live, ps1 := LivePages(ps), SplitPages(ps, i, left, right);
            if i == |live| - 1 then EndsScan(ps1, ps1[|ps|].next)
            else ps1[live[|live| - 1]] == ps[live[|live| - 1]] && EndsScan(ps1, ps1[live[|live| - 1]].next)
  {
    var live := LivePages(ps);
    assert EndsScan(ps, ps[live[|live| - 1]].next);
    assert ps[live[i]].es != [];
  }

  lemma SplitBackward(ps: seq<Page>, i: nat, left: seq<Entry>, right: seq<Entry>)
    requires Shaped(ps) && Linked(ps) && Backward(ps) && Root(ps).Internal? && i < |LivePages(ps)| && left != [] && right != []
    ensures Shaped(SplitPages(ps, i, left, right)) && Backward(SplitPages(ps, i, left, right))
  {
    SplitPagesShape(ps, i, left, right);
    var ps1, live, live1 := SplitPages(ps, i, left, right), LivePages(ps), LivePages(SplitPages(ps, i, left, right));
    forall a, b | 0 <= a <= b < |live1| ensures ps1[live1[a]].prev != live1[b] {
      if a == i + 1 {
        assert ps1[live1[a]].prev == live[i];
        assert b == i + 1 || live1[b] == live[b - 1];
      } else {
        var a0 := if a <= i then a else a - 1;
        assert live1[a] == live[a0] && ps1[live1[a]].prev == ps[live[a0]].prev < |ps|;
        assert b == i + 1 || live1[b] == live[if b <= i then b else b - 1];
      }
    }
  }

  lemma InsertKeepsScan(cfg: Config, ps: seq<Page>, k: Row, rid: RowId)
    requires Inv(cfg, ps) && Usable(cfg) && Chained(ps) && Backward(ps) && !Loses(cfg, ps, k)
    ensures var ps1 := Insert(cfg, ps, k, rid).pages;
            Shaped(ps1) && Chained(ps1) && Backward(ps1)
  {
    hide Less, Sorted, Separated, Flatten;
    var i, p := DescentIndex(ps, k), DescentPage(ps, k);
    var ps1 := Insert(cfg, ps, k, rid).pages;
    if |ps[p].es| < cfg.leafCap {
      ReplaceLeaf(ps, i, ps[p].(es := LeafInsert(ps[p].es, k, rid)));
      ReplaceKeepsChain(ps, i, LeafInsert(ps[p].es, k, rid));
    } else {
      var (left, right) := SplitInsert(ps[p].es, k, rid);
      if Root(ps).Leaf? {
        assert LivePages(ps1) == [p, |ps|];
      } else {
        assert ps1 == SplitPages(ps, i, left, right);
        SplitChained(ps, i, left, right);
        SplitBackward(ps, i, left, right);
      }
    }
  }

  lemma ReplaceKeepsChain(ps: seq<Page>, i: nat, es: seq<Entry>)
    requires Shaped(ps) && Chained(ps) && Backward(ps) && i < |LivePages(ps)|
    requires Root(ps).Internal? ==> es != []
    ensures var p := LivePages(ps)[i]; var ps1 := ps[p := ps[p].(es := es)];
            Shaped(ps1) && Chained(ps1) && Backward(ps1)
  {
    var p, live := LivePages(ps)[i], LivePages(ps);
    ReplaceLeaf(ps, i, ps[p].(es := es));
    if Root(ps).Internal? {
      assert ps[p].es != [];
      assert EndsScan(ps, ps[live[|live| - 1]].next);
    }
  }

  // ----- Removal -----

  /** Leaf i of a two-level tree with more than one leaf and a complete chain. */
  ghost predicate Droppable(ps: seq<Page>, i: nat) {
    Shaped(ps) && Linked(ps) && Root(ps).Internal? && |Root(ps).kids| > 2 && Chained(ps) && Backward(ps) &&
    i < |LivePages(ps)|
  }

  /** Leaf i is linked back to its true predecessor; or it is the last one and linked back to no
      leaf in use. */
  ghost predicate Bridged(ps: seq<Page>, i: nat)
    requires Shaped(ps) && i < |LivePages(ps)|
  {
    var live, prev := LivePages(ps), ps[LivePages(ps)[i]].prev;
    i > 0 && (prev == live[i - 1] || (i == |live| - 1 && prev !in live))
  }

  /** What a caller can tell before a removal: it does not empty a leaf of a two-level tree, or
      it empties the only leaf, or one that is bridged. */
  ghost predicate SafeRemove(ps: seq<Page>, k: Row)
    requires Shaped(ps)
  {
    var es := ps[DescentPage(ps, k)].es;
    Root(ps).Leaf? || FindKey(es, k) == |es| || |es| > 1 || |LivePages(ps)| == 1 ||
    Bridged(ps, DescentIndex(ps, k))
  }

  /** The links that dropping leaf i changes: the next link of the page it is linked back to. */
  lemma DropNext(ps: seq<Page>, i: nat, q: int)
    requires Shaped(ps) && Linked(ps) && Root(ps).Internal? && i < |LivePages(ps)| && |Root(ps).kids| > 2
    requires IsLeafPage(ps, q) && ps[LivePages(ps)[i]].prev != LivePages(ps)[i]
    ensures var p, ps1 := LivePages(ps)[i], DropPages(ps, i);
            IsLeafPage(ps1, q) &&
            ps1[q].next == (if q == ps[p].prev then ps[p].next else ps[q].next) &&
            ps1[q].es == (if q == p then [] else ps[q].es) &&
            ps1[q].prev == (if q == ps[p].next then ps[p].prev else ps[q].prev)
  {
    DropPagesShape(ps, i);
    var p := LivePages(ps)[i];
    EmptiedLinked(ps, p);
    UnlinkKeeps(ps[p := ps[p].(es := [])], p);
  }

  lemma DropBackward(ps: seq<Page>, i: nat)
    requires Droppable(ps, i)
    ensures Shaped(DropPages(ps, i)) && Backward(DropPages(ps, i))
  {
    DropPagesShape(ps, i);
    var ps1, live := DropPages(ps, i), LivePages(ps);
    var live1 := LivePages(ps1);
    forall a, b | 0 <= a <= b < |live1| ensures ps1[live1[a]].prev != live1[b] {
      var a0, b0 := if a < i then a else a + 1, if b < i then b else b + 1;
      assert live1[a] == live[a0] && live1[b] == live[b0];
      DropNext(ps, i, live[a0]);
      if a0 != i + 1 {
        NextOnly(ps, i, a0);
      }
    }
  }

  lemma NextOnly(ps: seq<Page>, i: nat, a: nat)
    requires Shaped(ps) && Root(ps).Internal? && Chained(ps)
    requires i < |LivePages(ps)| && a < |LivePages(ps)| && a != i + 1
    ensures LivePages(ps)[a] != ps[LivePages(ps)[i]].next
  {
    var live := LivePages(ps);
    assert ps[live[a]].es != [];
    if i + 1 < |live| {
      assert ps[live[i]].next == live[i + 1];
    } else {
      assert EndsScan(ps, ps[live[i]].next);
    }
  }

  lemma DropNonEmpty(ps: seq<Page>, i: nat, j: nat)
    requires Droppable(ps, i) && j < |LivePages(ps)| - 1
    ensures var ps1, q := DropPages(ps, i), RemoveAt(LivePages(ps), i)[j];
            IsLeafPage(ps1, q) && ps1[q].es != []
  {
    var live := LivePages(ps);
    var q := live[if j < i then j else j + 1];
    assert q != live[i] && ps[q].es != [];
    DropNext(ps, i, q);
  }

  lemma DropLinks(ps: seq<Page>, i: nat, j: nat)
    requires Droppable(ps, i) && Bridged(ps, i) && j < |LivePages(ps)| - 2
    ensures var ps1, live1 := DropPages(ps, i), RemoveAt(LivePages(ps), i);
            IsLeafPage(ps1, live1[j]) && ps1[live1[j]].next == live1[j + 1]
  {
    var live := LivePages(ps);
    var j0 := if j < i then j else j + 1;
    DropNext(ps, i, live[j0]);
    assert ps[live[j0]].next == live[j0 + 1];
    assert j0 != i - 1 ==> live[j0] != live[i - 1];
  }

  /** A safe removal keeps the chain. */
  lemma DropChained(ps: seq<Page>, i: nat)
    requires Droppable(ps, i) && Bridged(ps, i)
    ensures Shaped(DropPages(ps, i)) && Chained(DropPages(ps, i))
  {
    hide Flatten, Less, Sorted, Unlink;
    DropPagesShape(ps, i);
    var ps1, live1 := DropPages(ps, i), RemoveAt(LivePages(ps), i);
    forall j | 0 <= j < |live1| ensures ps1[live1[j]].es != [] {
      DropNonEmpty(ps, i, j);
    }
    forall j | 0 <= j < |live1| - 1 ensures ps1[live1[j]].next == live1[j + 1] {
      DropLinks(ps, i, j);
    }
    DropEnds(ps, i);
  }

  lemma DropEnds(ps: seq<Page>, i: nat)
    requires Droppable(ps, i) && Bridged(ps, i)
    ensures var ps1, live := DropPages(ps, i), LivePages(ps);
            var last := if i == |live| - 1 then live[i - 1] else live[|live| - 1];
            IsLeafPage(ps1, last) && EndsScan(ps1, ps1[last].next)
  {
    DropPagesShape(ps, i);
    var live, p := LivePages(ps), LivePages(ps)[i];
    var last := if i == |live| - 1 then live[i - 1] else live[|live| - 1];
    DropNext(ps, i, last);
    assert EndsScan(ps, ps[live[|live| - 1]].next);
    var next := DropPages(ps, i)[last].next;
    if next != INVALID {
      DropNext(ps, i, next);
    }
  }

  /** What is left of a two-level tree after leaf i has been dropped, and where its scan starts. */
  lemma DropStart(cfg: Config, ps: seq<Page>, i: nat)
    requires Inv(cfg, ps) && Root(ps).Internal? && i < |LivePages(ps)| && |Root(ps).kids| > 2 && Chained(ps)
    ensures var ps1 := DropPages(ps, i);
            Inv(cfg, ps1) && Root(ps1).Internal? && Start(ps1) == Cursor(LivePages(ps)[0], 0, false) &&
            AllEntries(ps1) == Flatten(Leaves(ps)[..i]) + Flatten(Leaves(ps)[i + 1..])
  {
    hide Less, Sorted, Separated, Linked, Flatten;
    DropKeepsInv(cfg, ps, i);
  }

  lemma FlattenNonEmpty(ls: seq<seq<Entry>>)
    requires ls != [] && ls[0] != []
    ensures |Flatten(ls)| > 0
  {
  }

  /** Emptying the first of several leaves makes the scan give nothing. */
  lemma BreaksFirst(cfg: Config, ps: seq<Page>)
    requires Inv(cfg, ps) && Droppable(ps, 0)
    ensures Shaped(DropPages(ps, 0)) && !ScanComplete(DropPages(ps, 0))
  {
    var ps1, ls := DropPages(ps, 0), Leaves(ps);
    DropStart(cfg, ps, 0);
    DropNext(ps, 0, LivePages(ps)[0]);
    FlattenNonEmpty(ls[1..]);
    assert Yields(ps1, Start(ps1), []);
  }

  /** A scan along a path that misses entries is not complete. */
  lemma ShortPath(ps: seq<Page>, path: seq<int>)
    requires Shaped(ps) && Path(ps, path) && Start(ps) == Cursor(path[0], 0, false)
    requires |PathEntries(ps, path)| < |AllEntries(ps)|
    ensures !ScanComplete(ps)
  {
    ScanAlong(ps, path);
    if ScanComplete(ps) {
      YieldsUnique(ps, Start(ps), AllEntries(ps), PathEntries(ps, path));
    }
  }

  /** A leaf in use after leaf i has been dropped. */
  lemma DroppedLeaf(ps: seq<Page>, i: nat, j: nat)
    requires Droppable(ps, i) && j < |LivePages(ps)|
    ensures var ps1, q, p := DropPages(ps, i), LivePages(ps)[j], ps[LivePages(ps)[i]];
            IsLeafPage(ps1, q) && ps1[q].es == (if j == i then [] else Leaves(ps)[j]) && Leaves(ps)[j] != [] &&
            ps1[q].next == if q == p.prev then p.next else ps[q].next
  {
    var q := LivePages(ps)[j];
    assert ps[q].es != [];
    DropNext(ps, i, q);
  }

  lemma ChainNext(ps: seq<Page>, j: nat)
    requires Shaped(ps) && Root(ps).Internal? && Chained(ps) && j + 1 < |LivePages(ps)|
    ensures ps[LivePages(ps)[j]].next == LivePages(ps)[j + 1]
  {
  }

  lemma DanglingPath(ps: seq<Page>, i: nat)
    requires Droppable(ps, i) && 0 < i < |LivePages(ps)| - 1 && ps[LivePages(ps)[i]].prev !in LivePages(ps)
    ensures var ps1, path := DropPages(ps, i), LivePages(ps)[..i];
            Path(ps1, path) && PathLeaves(ps1, path) == Leaves(ps)[..i]
  {
    var ps1, live := DropPages(ps, i), LivePages(ps);
    forall j | 0 <= j < i
      ensures IsLeafPage(ps1, live[j]) && ps1[live[j]].next == live[j + 1] && ps1[live[j]].es == Leaves(ps)[j] != []
    {
      DroppedLeaf(ps, i, j);
      ChainNext(ps, j);
    }
    DroppedLeaf(ps, i, i);
    assert EndsScan(ps1, ps1[live[i - 1]].next);
  }

  /** Emptying a middle leaf that is linked back to a leaf out of use leaves it in the chain:
      the scan stops there. */
  lemma BreaksDangling(cfg: Config, ps: seq<Page>, i: nat)
    requires Inv(cfg, ps) && Droppable(ps, i)
    requires 0 < i < |LivePages(ps)| - 1 && ps[LivePages(ps)[i]].prev !in LivePages(ps)
    ensures Shaped(DropPages(ps, i)) && !ScanComplete(DropPages(ps, i))
  {
    hide Less, Sorted, Separated, Linked, Flatten;
    var ls := Leaves(ps);
    DropStart(cfg, ps, i);
    DanglingPath(ps, i);
    DroppedLeaf(ps, i, i + 1);
    FlattenNonEmpty(ls[i + 1..]);
    ShortPath(DropPages(ps, i), LivePages(ps)[..i]);
  }

  ghost function SkippingPath(ps: seq<Page>, i: nat, m: nat): seq<int>
    requires Shaped(ps) && m < i < |LivePages(ps)|
  {
    LivePages(ps)[..m + 1] + LivePages(ps)[i + 1..]
  }

  lemma SkippingLeaf(ps: seq<Page>, i: nat, m: nat, j: nat)
    requires Droppable(ps, i) && m + 1 < i && ps[LivePages(ps)[i]].prev == LivePages(ps)[m]
    requires j < |SkippingPath(ps, i, m)|
    ensures var ps1, path := DropPages(ps, i), SkippingPath(ps, i, m);
            IsLeafPage(ps1, path[j]) && (j + 1 < |path| ==> ps1[path[j]].next == path[j + 1]) &&
            ps1[path[j]].es == (Leaves(ps)[..m + 1] + Leaves(ps)[i + 1..])[j] != []
  {
    hide DropPages, Leaves;
    var live, path := LivePages(ps), SkippingPath(ps, i, m);
    var j0 := if j <= m then j else i + j - m;
    assert path[j] == live[j0] && (Leaves(ps)[..m + 1] + Leaves(ps)[i + 1..])[j] == Leaves(ps)[j0];
    DroppedLeaf(ps, i, j0);
    if j + 1 < |path| {
      ChainNext(ps, if j == m then i else j0);
      assert path[j + 1] == if j == m then live[i + 1] else live[j0 + 1];
    }
  }

  /** The end of the chain is still an end. */
  lemma DropKeepsEnd(ps: seq<Page>, i: nat, next: int)
    requires Droppable(ps, i) && EndsScan(ps, next)
    ensures EndsScan(DropPages(ps, i), next)
  {
    hide DropPages, Leaves;
    if next != INVALID {
      DropNext(ps, i, next);
    }
  }

  lemma SkippingEnds(ps: seq<Page>, i: nat, m: nat)
    requires Droppable(ps, i) && m + 1 < i && ps[LivePages(ps)[i]].prev == LivePages(ps)[m]
    ensures var ps1, path := DropPages(ps, i), SkippingPath(ps, i, m);
            IsLeafPage(ps1, path[|path| - 1]) && EndsScan(ps1, ps1[path[|path| - 1]].next)
  {
    hide DropPages, Leaves, EndsScan;
    var live := LivePages(ps);
    var next := ps[live[|live| - 1]].next;
    assert EndsScan(ps, next);
    DroppedLeaf(ps, i, if i == |live| - 1 then m else |live| - 1);
    DropKeepsEnd(ps, i, next);
  }

  lemma SkippingIsPath(ps: seq<Page>, i: nat, m: nat)
    requires Droppable(ps, i) && m + 1 < i && ps[LivePages(ps)[i]].prev == LivePages(ps)[m]
    ensures var ps1, path := DropPages(ps, i), SkippingPath(ps, i, m);
            Path(ps1, path) && PathLeaves(ps1, path) == Leaves(ps)[..m + 1] + Leaves(ps)[i + 1..]
  {
    hide DropPages;
    var ps1, path, ls := DropPages(ps, i), SkippingPath(ps, i, m), Leaves(ps);
    forall j | 0 <= j < |path|
      ensures IsLeafPage(ps1, path[j]) && ps1[path[j]].es == (ls[..m + 1] + ls[i + 1..])[j] != []
    {
      SkippingLeaf(ps, i, m, j);
    }
    forall j | 0 <= j < |path| - 1 ensures ps1[path[j]].next == path[j + 1] {
      SkippingLeaf(ps, i, m, j);
    }
    SkippingEnds(ps, i, m);
  }

  /** Emptying a leaf that is linked back past its predecessor drops the leaves in between. */
  lemma BreaksSkipping(cfg: Config, ps: seq<Page>, i: nat, m: nat)
    requires Inv(cfg, ps) && Droppable(ps, i)
    requires m + 1 < i && ps[LivePages(ps)[i]].prev == LivePages(ps)[m]
    ensures Shaped(DropPages(ps, i)) && !ScanComplete(DropPages(ps, i))
  {
    DropStart(cfg, ps, i);
    SkippingIsPath(ps, i, m);
    DroppedLeaf(ps, i, m + 1);
    SkippedShorter(Leaves(ps), i, m);
    ShortPath(DropPages(ps, i), SkippingPath(ps, i, m));
  }

  lemma SkippedShorter(ls: seq<seq<Entry>>, i: nat, m: nat)
    requires m + 1 < i < |ls| && ls[m + 1] != []
    ensures |Flatten(ls[..m + 1] + ls[i + 1..])| < |Flatten(ls[..i]) + Flatten(ls[i + 1..])|
  {
    FlattenConcat(ls[..m + 1], ls[i + 1..]);
    FlattenConcat(ls[..m + 1], ls[m + 1..i]);
    assert ls[..i] == ls[..m + 1] + ls[m + 1..i];
    FlattenNonEmpty(ls[m + 1..i]);
  }

  // ----- The theorems -----

  ghost predicate ScanInv(ps: seq<Page>)
    requires Shaped(ps)
  {
    Chained(ps) && Backward(ps)
  }

  lemma DropScan(cfg: Config, ps: seq<Page>, i: nat)
    requires Inv(cfg, ps) && Droppable(ps, i)
    ensures var ps1 := DropPages(ps, i);
            Inv(cfg, ps1) && (ScanComplete(ps1) <==> Bridged(ps, i)) && (Bridged(ps, i) ==> ScanInv(ps1))
  {
    var live, prev := LivePages(ps), ps[LivePages(ps)[i]].prev;
    DropStart(cfg, ps, i);
    if i == 0 {
      BreaksFirst(cfg, ps);
    } else if Bridged(ps, i) {
      DropChained(ps, i);
      DropBackward(ps, i);
      ChainedScan(cfg, DropPages(ps, i));
    } else if prev in live {
      var m :| 0 <= m < |live| && live[m] == prev;
      forall n | i <= n < |live| ensures live[n] != prev {
      }
      BreaksSkipping(cfg, ps, i, m);
    } else {
      BreaksDangling(cfg, ps, i);
    }
  }

  /** A removal from a tree with a complete chain keeps the scan complete if and only if it is
      safe, and then it keeps the chain too. */
  lemma RemoveScan(cfg: Config, ps: seq<Page>, k: Row)
    requires Inv(cfg, ps) && ScanInv(ps)
    ensures var ps1 := Remove(ps, k).0;
            Inv(cfg, ps1) && (ScanComplete(ps1) <==> SafeRemove(ps, k)) && (SafeRemove(ps, k) ==> ScanInv(ps1))
  {
    var i, es := DescentIndex(ps, k), ps[DescentPage(ps, k)].es;
    var ps1 := Remove(ps, k).0;
    RemoveCorrect(cfg, ps, k);
    if FindKey(es, k) == |es| {
      ChainedScan(cfg, ps1);
    } else if Root(ps).Leaf? || |es| > 1 {
      ReplaceKeepsChain(ps, i, RemoveAt(es, FindKey(es, k)));
      ChainedScan(cfg, ps1);
    } else if |LivePages(ps)| == 1 {
      CollapseKeepsInv(cfg, ps);
      assert ps1 == CollapsePages(ps);
      ChainedScan(cfg, ps1);
    } else {
      assert RemoveAt(es, FindKey(es, k)) == [];
      assert ps1 == DropPages(ps, i);
      DropScan(cfg, ps, i);
    }
  }

  /** A step of a run whose scans stay complete: inserts as allowed, removals safe. */
  ghost predicate ScanStep(cfg: Config, ps: seq<Page>, op: Operation)
    requires Shaped(ps)
  {
    Allowed(cfg, ps, op) && (op.RemoveOp? ==> SafeRemove(ps, op.key))
  }

  ghost predicate ScanRun(cfg: Config, ps: seq<Page>, ops: seq<Operation>, ps1: seq<Page>)
    requires Usable(cfg)
    decreases |ops|
  {
    if ops == [] then ps1 == ps
    else Shaped(ps) && ScanStep(cfg, ps, ops[0]) && ScanRun(cfg, Step(cfg, ps, ops[0]), ops[1..], ps1)
  }

  lemma {:induction false} ScanRunKeeps(cfg: Config, ps: seq<Page>, ops: seq<Operation>, ps1: seq<Page>)
    requires Usable(cfg) && Inv(cfg, ps) && ScanInv(ps) && ScanRun(cfg, ps, ops, ps1)
    ensures Inv(cfg, ps1) && ScanInv(ps1) && Contents(ps1) == MapRun(Contents(ps), ops)
    decreases |ops|
  {
    if ops != [] {
      StepCorrect(cfg, ps, ops[0]);
      if ops[0].InsertOp? {
        InsertKeepsScan(cfg, ps, ops[0].key, ops[0].rid);
      } else {
        RemoveScan(cfg, ps, ops[0].key);
      }
      ScanRunKeeps(cfg, Step(cfg, ps, ops[0]), ops[1..], ps1);
    }
  }

  /** After any run of allowed insertions and safe removals on a fresh index, iterating read()
      ends and gives every binding of the plain map exactly once, in strictly ascending order. */
  lemma ScanIsMap(cfg: Config, ops: seq<Operation>, ps: seq<Page>)
    requires Usable(cfg) && ScanRun(cfg, FreshPages(), ops, ps)
    ensures Inv(cfg, ps) && ScanComplete(ps)
    ensures Sorted(AllEntries(ps)) && ToMap(AllEntries(ps)) == MapRun(map[], ops)
  {
    FreshInv(cfg);
    ScanRunKeeps(cfg, FreshPages(), ops, ps);
    ChainedScan(cfg, ps);
  }
}
