/** A deletion in the slotted page that stops between two of its cell writes. The length is written
    first, then the cells of the later rows are copied one by one from the highest down, and then
    the cells that have become free are cleared. */
module CellStops {
  import opened Rows
  import opened CellPage
  import FP = FlexiblePage

  /** The page when the length of row k has been written and the cells from lo on have been copied. */
  ghost function Stopped(cells: seq<cell>, size: nat, k: nat, lo: nat): (r: seq<cell>)
    requires Sound(cells, size) && k < Count(cells)
    ensures |r| == |cells|
  {
    var ls := Lengths(cells, size);
    var len, before := ls[k], Sum(ls[..k]);
    RowInside(cells, size, k);
    seq(|cells|, i requires 0 <= i < |cells| =>
      if i == k + 1 then 0 else if lo + len <= i <= size - before then cells[i - len] else cells[i])
  }

  /** How far the copying may have come. */
  ghost predicate Reached(cells: seq<cell>, size: nat, k: nat, lo: nat)
    requires Sound(cells, size) && k < Count(cells)
  {
    var ls := Lengths(cells, size);
    size - Sum(ls) <= lo <= size - Sum(ls[..k]) - ls[k] + 1
  }

  /** These are the states of the first loop of an erasure, from none of the copies to all. */
  lemma StoppedIsRaised(cells: seq<cell>, size: nat, k: nat, lo: nat)
    requires Sound(cells, size) && k < Count(cells) && Reached(cells, size, k, lo)
    ensures var ls := Lengths(cells, size);
            Sum(ls[..k]) <= size &&
            Stopped(cells, size, k, lo) == FP.Raised(cells[k + 1 := 0], ls[k], lo, size - Sum(ls[..k]))
  {
    var ls := Lengths(cells, size);
    RowInside(cells, size, k);
  }

  lemma StoppedLengths(cells: seq<cell>, size: nat, k: nat, lo: nat)
    requires Sound(cells, size) && k < Count(cells) && Reached(cells, size, k, lo)
    ensures var r := Stopped(cells, size, k, lo);
            Sound(r, size) && Count(r) == Count(cells) && Lengths(r, size) == Lengths(cells, size)[k := 0]
  {
    var r, ls := Stopped(cells, size, k, lo), Lengths(cells, size);
    RowInside(cells, size, k);
    assert Lengths(r, size) == ls[k := 0];
    SumReplace(ls, k, 0);
  }

  /** A later row reads the cells that have been copied right; for each of the others it reads what
      lies higher by the length of the deleted row. */
  lemma StoppedLaterRow(cells: seq<cell>, size: nat, k: nat, lo: nat, j: nat, t: nat)
    requires Sound(cells, size) && k < j < Count(cells) && Reached(cells, size, k, lo)
    requires t < Lengths(cells, size)[j]
    ensures var r, len, at := Stopped(cells, size, k, lo), Lengths(cells, size)[k], RowStart(Lengths(cells, size), size, j) + t;
            Sound(r, size) && Count(r) == Count(cells) && |RowAt(r, size, j)| == Lengths(cells, size)[j] &&
            0 <= at && at + len < |cells| &&
            RowAt(cells, size, j)[t] == CellChar(cells[at]) &&
            RowAt(r, size, j)[t] == CellChar(cells[if at >= lo then at else at + len])
  {
    hide Sum;
    StoppedLengths(cells, size, k, lo);
    var r, ls := Stopped(cells, size, k, lo), Lengths(cells, size);
    LaterRowInside(ls, size, k, j);
    RowInside(cells, size, j);
    RowInside(cells, size, k);
    RowInside(r, size, j);
    var at := RowStart(ls, size, j) + t;
    assert RowStart(Lengths(r, size), size, j) + t == at + ls[k];
  }

  /** Above row k a stopped deletion has written nothing, or the one cell that it writes there. */
  lemma StoppedCellAbove(cells: seq<cell>, size: nat, k: nat, lo: nat, i: nat)
    requires Sound(cells, size) && k < Count(cells) && Reached(cells, size, k, lo)
    requires size - Sum(Lengths(cells, size)[..k]) <= i < |cells|
    ensures Stopped(cells, size, k, lo)[i] ==
            if lo + Lengths(cells, size)[k] + Sum(Lengths(cells, size)[..k]) > size then cells[i]
            else Deleted(cells, size, k)[i]
  {
    RowInside(cells, size, k);
    DeletedCellAbove(cells, size, k, i);
    hide Deleted;
  }

  /** Rows above row k depend on the lengths before it and the cells above it only. */
  lemma SameRowAbove(a: seq<cell>, b: seq<cell>, size: nat, k: nat, j: nat)
    requires Sound(a, size) && Sound(b, size) && |a| == |b| && j < k < Count(a) == Count(b)
    requires Lengths(a, size)[..k] == Lengths(b, size)[..k]
    requires forall i :: size - Sum(Lengths(a, size)[..k]) <= i < |a| && 0 <= i ==> a[i] == b[i]
    ensures RowAt(a, size, j) == RowAt(b, size, j)
  {
    var ls, ms := Lengths(a, size), Lengths(b, size);
    assert ls[..j + 1] == ls[..k][..j + 1] == ms[..j + 1] && ls[j] == ls[..k][j] == ms[j];
    SumPrefix(ls, j + 1, k);
    RowInside(a, size, j);
    var start := RowStart(ls, size, j);
    assert a[start..start + ls[j]] == b[start..start + ls[j]];
  }

  /** The deleted row is empty from the start; an earlier row has changed as by the whole deletion
      as soon as the first cell has been copied. */
  lemma StoppedEarlierRow(cells: seq<cell>, size: nat, k: nat, lo: nat, j: nat)
    requires Sound(cells, size) && j <= k < Count(cells) && Reached(cells, size, k, lo)
    ensures var r, rows, ls := Stopped(cells, size, k, lo), RowList(cells, size), Lengths(cells, size);
            Sound(r, size) && Count(r) == Count(cells) &&
            RowAt(r, size, j) ==
              if j == k then []
              else if lo + ls[k] + Sum(ls[..k]) > size then rows[j]
              else DeletedRows(rows, k)[j]
  {
    StoppedLengths(cells, size, k, lo);
    if j < k {
      var r, d, ls := Stopped(cells, size, k, lo), Deleted(cells, size, k), Lengths(cells, size);
      DeletedEarlierRow(cells, size, k, j);
      DeletedLengths(cells, size, k);
      assert ls[k := 0][..k] == ls[..k];
      hide Sum, Deleted, Stopped, DeletedRows, Reached, RowAt, Lengths;
      forall i | size - Sum(ls[..k]) <= i < |cells| && 0 <= i
        ensures r[i] == if lo + ls[k] + Sum(ls[..k]) > size then cells[i] else d[i]
      {
        StoppedCellAbove(cells, size, k, lo, i);
      }
      SameRowAbove(r, if lo + ls[k] + Sum(ls[..k]) > size then cells else d, size, k, j);
    }
  }

  // ----- Later rows -----

  /** The rows from row j on read in r as they do in cells. */
  ghost predicate SameFrom(cells: seq<cell>, r: seq<cell>, size: nat, from: nat)
    requires Sound(cells, size) && Sound(r, size) && Count(r) == Count(cells)
  {
    forall j :: from <= j < Count(cells) ==> RowAt(r, size, j) == RowAt(cells, size, j)
  }

  function CharAt(cells: seq<cell>, i: int): byte {
    if 0 <= i < |cells| then CellChar(cells[i]) else 0
  }

  /** Character t of row j has been copied, or is the one that lies higher by the length of row k. */
  predicate CharUndisturbed(cells: seq<cell>, size: nat, k: nat, lo: nat, j: nat, t: nat)
    requires 0 < size < |cells| && Count(cells) < size && k < Count(cells) && j < Count(cells)
  {
    var ls := Lengths(cells, size);
    var at := RowStart(ls, size, j) + t;
    at < lo ==> CharAt(cells, at + ls[k]) == CharAt(cells, at)
  }

  ghost predicate RowUndisturbed(cells: seq<cell>, size: nat, k: nat, lo: nat, j: nat)
    requires Sound(cells, size) && k < Count(cells) && j < Count(cells)
  {
    forall t: nat :: t < Lengths(cells, size)[j] ==> CharUndisturbed(cells, size, k, lo, j, t)
  }

  ghost predicate Undisturbed(cells: seq<cell>, size: nat, k: nat, lo: nat, from: nat)
    requires Sound(cells, size) && k < Count(cells)
  {
    forall j: nat :: from <= j < Count(cells) ==> RowUndisturbed(cells, size, k, lo, j)
  }

  lemma StoppedRowSame(cells: seq<cell>, size: nat, k: nat, lo: nat, j: nat)
    requires Sound(cells, size) && k < j < Count(cells) && Reached(cells, size, k, lo)
    ensures var r := Stopped(cells, size, k, lo);
            Sound(r, size) && Count(r) == Count(cells) &&
            (RowAt(r, size, j) == RowAt(cells, size, j) <==> RowUndisturbed(cells, size, k, lo, j))
  {
    StoppedLengths(cells, size, k, lo);
    hide Sum, Stopped, RowStart, Sound, Reached;
    var r, ls := Stopped(cells, size, k, lo), Lengths(cells, size);
    var a, b := RowAt(r, size, j), RowAt(cells, size, j);
    assert |a| == ls[j] == |b|;
    assert a == b <==> forall t: nat :: t < |a| ==> a[t] == b[t];
    hide RowAt, Lengths;
    forall t: nat | t < ls[j]
      ensures a[t] == b[t] <==> CharUndisturbed(cells, size, k, lo, j, t)
    {
      StoppedLaterRow(cells, size, k, lo, j, t);
    }
  }

  /** Where a deletion has stopped in its first loop, later rows read the same exactly if their
      characters that have not been copied are not disturbed. */
  lemma StoppedLaterRows(cells: seq<cell>, size: nat, k: nat, lo: nat, from: nat)
    requires Sound(cells, size) && k < Count(cells) && k < from && Reached(cells, size, k, lo)
    ensures var r := Stopped(cells, size, k, lo);
            Sound(r, size) && Count(r) == Count(cells) &&
            (SameFrom(cells, r, size, from) <==> Undisturbed(cells, size, k, lo, from))
  {
    StoppedLengths(cells, size, k, lo);
    hide Stopped, RowAt, Reached, Sum, RowUndisturbed;
    forall j: nat | from <= j < Count(cells)
      ensures RowAt(Stopped(cells, size, k, lo), size, j) == RowAt(cells, size, j) <==> RowUndisturbed(cells, size, k, lo, j)
    {
      StoppedRowSame(cells, size, k, lo, j);
    }
  }

  // ----- The second loop -----

  /** The page when all copies have been made and the free cells below hi have been cleared. */
  ghost function Cleared(cells: seq<cell>, size: nat, k: nat, hi: nat): (r: seq<cell>)
    requires Sound(cells, size) && k < Count(cells)
    ensures |r| == |cells|
  {
    var lo := size - Sum(Lengths(cells, size));
    var r := Stopped(cells, size, k, lo);
    seq(|cells|, i requires 0 <= i < |cells| => if lo <= i < hi then 0 else r[i])
  }

  /** Once all copies have been made the page reads as after the whole deletion. */
  lemma AllCopied(cells: seq<cell>, size: nat, k: nat)
    requires Sound(cells, size) && k < Count(cells)
    ensures var r := Stopped(cells, size, k, size - Sum(Lengths(cells, size)));
            Reached(cells, size, k, size - Sum(Lengths(cells, size))) && Sound(r, size) &&
            RowList(r, size) == DeletedRows(RowList(cells, size), k)
  {
    var ls := Lengths(cells, size);
    var lo := size - Sum(ls);
    SumNext(ls, k);
    SumPrefix(ls, k + 1, |ls|);
    assert ls[..|ls|] == ls;
    StoppedLengths(cells, size, k, lo);
    hide Sum, Stopped, Sound, Nearest;
    var r, rows := Stopped(cells, size, k, lo), RowList(cells, size);
    forall j | 0 <= j < Count(cells) ensures RowAt(r, size, j) == DeletedRows(rows, k)[j] {
      if j <= k {
        StoppedEarlierRow(cells, size, k, lo, j);
      } else {
        CopiedRow(cells, size, k, j);
      }
    }
    hide RowAt, DeletedRows;
  }

  lemma CopiedRow(cells: seq<cell>, size: nat, k: nat, j: nat)
    requires Sound(cells, size) && k < j < Count(cells) && Reached(cells, size, k, size - Sum(Lengths(cells, size)))
    ensures var r := Stopped(cells, size, k, size - Sum(Lengths(cells, size)));
            Sound(r, size) && Count(r) == Count(cells) &&
            RowAt(r, size, j) == DeletedRows(RowList(cells, size), k)[j]
  {
    var ls := Lengths(cells, size);
    LaterRowInside(ls, size, k, j);
    StoppedRowSame(cells, size, k, size - Sum(ls), j);
    hide Stopped, Sum;
  }

  /** Clearing touches no row. */
  lemma ClearedRows(cells: seq<cell>, size: nat, k: nat, hi: nat)
    requires Sound(cells, size) && k < Count(cells)
    requires hi <= size - Sum(Lengths(cells, size)) + Lengths(cells, size)[k]
    ensures var r := Cleared(cells, size, k, hi);
            Sound(r, size) && RowList(r, size) == DeletedRows(RowList(cells, size), k)
  {
    var ls := Lengths(cells, size);
    AllCopied(cells, size, k);
    StoppedLengths(cells, size, k, size - Sum(ls));
    SumReplace(ls, k, 0);
    hide Stopped, RowList, DeletedRows;
    FreeCells(Stopped(cells, size, k, size - Sum(ls)), size, Cleared(cells, size, k, hi));
  }

  // ----- The writes of a deletion -----

  /** How many cells the first loop copies. */
  ghost function Copies(cells: seq<cell>, size: nat, k: nat): (n: nat)
    requires Sound(cells, size) && k < Count(cells)
    ensures n >= 1 && size - Sum(Lengths(cells, size)) + n - 1 + Lengths(cells, size)[k] + Sum(Lengths(cells, size)[..k]) == size
  {
    var ls := Lengths(cells, size);
    SumNext(ls, k);
    SumPrefix(ls, k + 1, |ls|);
    assert ls[..|ls|] == ls;
    Sum(ls) - Sum(ls[..k]) - ls[k] + 1
  }

  /** All cell writes of a deletion in their order: the length, the copies, the cleared cells. */
  ghost function DeleteWrites(cells: seq<cell>, size: nat, k: nat): (ws: seq<Write>)
    requires Sound(cells, size) && k < Count(cells)
    ensures |ws| == 1 + Copies(cells, size, k) + Lengths(cells, size)[k] && Within(cells, ws)
  {
    var ls := Lengths(cells, size);
    var n, bottom := Copies(cells, size, k), size - Sum(ls);
    seq(1 + n + ls[k], x requires 0 <= x < 1 + n + ls[k] =>
      if x == 0 then Write(k + 1, 0)
      else if x <= n then Write(bottom + n - x + ls[k], cells[bottom + n - x])
      else Write(bottom + x - 1 - n, 0))
  }

  /** The page after the first m writes. */
  ghost function StopAt(cells: seq<cell>, size: nat, k: nat, m: nat): (r: seq<cell>)
    requires Sound(cells, size) && k < Count(cells)
    ensures |r| == |cells|
  {
    var n, bottom := Copies(cells, size, k), size - Sum(Lengths(cells, size));
    if m == 0 then cells
    else if m <= 1 + n then Stopped(cells, size, k, bottom + n - (m - 1))
    else Cleared(cells, size, k, bottom + (m - 1 - n))
  }

  lemma {:induction false} PrefixIsStop(cells: seq<cell>, size: nat, k: nat, m: nat)
    requires Sound(cells, size) && k < Count(cells) && m <= |DeleteWrites(cells, size, k)|
    ensures var ws := DeleteWrites(cells, size, k)[..m];
            Within(cells, ws) && ApplyAll(cells, ws) == StopAt(cells, size, k, m)
  {
    hide DeleteWrites, Copies, Lengths, Sound;
    var ws := DeleteWrites(cells, size, k);
    if m > 0 {
      hide StopAt;
      PrefixIsStop(cells, size, k, m - 1);
      assert ws[..m][..m - 1] == ws[..m - 1];
      NextStop(cells, size, k, m);
    }
  }

  lemma NextStop(cells: seq<cell>, size: nat, k: nat, m: nat)
    requires Sound(cells, size) && k < Count(cells) && 0 < m <= |DeleteWrites(cells, size, k)|
    ensures var w := DeleteWrites(cells, size, k)[m - 1];
            w.index < |cells| && Apply(StopAt(cells, size, k, m - 1), w) == StopAt(cells, size, k, m)
  {
    hide Sum, Stopped, Cleared;
    var ls, n, bottom := Lengths(cells, size), Copies(cells, size, k), size - Sum(Lengths(cells, size));
    if m == 1 {
      FirstStep(cells, size, k);
    } else if m <= 1 + n {
      CopyStep(cells, size, k, bottom + n - (m - 1));
    } else {
      ClearStep(cells, size, k, bottom + (m - 2 - n));
    }
  }

  lemma FirstStep(cells: seq<cell>, size: nat, k: nat)
    requires Sound(cells, size) && k < Count(cells)
    ensures var lo := size - Sum(Lengths(cells, size)) + Copies(cells, size, k);
            Reached(cells, size, k, lo) && k + 1 < |cells| && cells[k + 1 := 0] == Stopped(cells, size, k, lo)
  {
    RowInside(cells, size, k);
  }

  lemma CopyStep(cells: seq<cell>, size: nat, k: nat, lo: nat)
    requires Sound(cells, size) && k < Count(cells) && Reached(cells, size, k, lo) && Reached(cells, size, k, lo + 1)
    ensures var len := Lengths(cells, size)[k];
            lo + len < |cells| && Stopped(cells, size, k, lo + 1)[lo + len := cells[lo]] == Stopped(cells, size, k, lo)
  {
    RowInside(cells, size, k);
    hide Sum;
  }

  lemma ClearStep(cells: seq<cell>, size: nat, k: nat, hi: nat)
    requires Sound(cells, size) && k < Count(cells) && hi < |cells| && size - Sum(Lengths(cells, size)) <= hi
    ensures var bottom := size - Sum(Lengths(cells, size));
            Cleared(cells, size, k, bottom) == Stopped(cells, size, k, bottom) &&
            Cleared(cells, size, k, hi)[hi := 0] == Cleared(cells, size, k, hi + 1)
  {
    hide Sum, Stopped;
  }

  /** All of the writes together are the deletion. */
  lemma DeleteWritesDelete(cells: seq<cell>, size: nat, k: nat)
    requires Sound(cells, size) && k < Count(cells)
    ensures ApplyAll(cells, DeleteWrites(cells, size, k)) == Deleted(cells, size, k)
  {
    var ws := DeleteWrites(cells, size, k);
    PrefixIsStop(cells, size, k, |ws|);
    assert ws[..|ws|] == ws;
    RowInside(cells, size, k);
    hide Sum;
  }
}
