/** The slotted page of the master's storage (master/persistent_kv/flexible_page.cpp): rows of
    characters over cells of four nibbles, growing down from the end of the page, their lengths
    growing up behind the count in cell 0. */
module CellPage {
  import opened Rows

  type nibble = x: int | 0 <= x < 16
  type cell = x: int | 0 <= x < 0x1_0000

  // ----- Rows in cells -----

  function Sum(ls: seq<nat>): nat {
    if ls == [] then 0 else ls[0] + Sum(ls[1..])
  }

  lemma {:induction false} SumConcat(a: seq<nat>, b: seq<nat>)
    ensures Sum(a + b) == Sum(a) + Sum(b)
  {
    if a == [] {
      assert a + b == b;
    } else {
      SumConcat(a[1..], b);
      assert (a + b)[1..] == a[1..] + b;
    }
  }

  /** What a character leaves in a cell: its signed value modulo 2^16. */
  function CharCell(c: byte): cell {
    if c < 128 then c else c - 256 + 0x1_0000
  }

  /** A signed character keeps its value, modulo 2^16. */
  lemma SignExtended(c: int)
    requires -128 <= c < 128
    ensures CharCell(c % 256) == c % 0x1_0000
  {
  }

  /** The character that a cell is narrowed to. */
  function CellChar(x: cell): byte {
    x % 256
  }

  function RowCells(row: Text): (cs: seq<cell>)
    ensures |cs| == |row|
  {
    seq(|row|, i requires 0 <= i < |row| => CharCell(row[i]))
  }

  function RowChars(cs: seq<cell>): (row: Text)
    ensures |row| == |cs|
  {
    seq(|cs|, i requires 0 <= i < |cs| => CellChar(cs[i]))
  }

  lemma CharsRoundTrip(row: Text)
    ensures RowChars(RowCells(row)) == row
  {
  }

  /** The page is the first size cells; the file has at least one cell more. */
  ghost predicate InFile(cells: seq<cell>, size: nat) {
    0 < size < |cells|
  }

  function Count(cells: seq<cell>): nat
    requires |cells| > 0
  {
    cells[0]
  }

  /** The stored lengths. */
  function Lengths(cells: seq<cell>, size: nat): (ls: seq<nat>)
    requires InFile(cells, size) && Count(cells) < size
    ensures |ls| == Count(cells)
  {
    seq(Count(cells), i requires 0 <= i < Count(cells) => cells[1 + i] as nat)
  }

  /** Count, lengths and rows are separate regions of the page. */
  ghost predicate Sound(cells: seq<cell>, size: nat) {
    InFile(cells, size) && Count(cells) < size && 1 + Count(cells) + Sum(Lengths(cells, size)) <= size
  }

  /** The first cell of row i. */
  function RowStart(ls: seq<nat>, size: nat, i: nat): int
    requires i < |ls|
  {
    size - Sum(ls[..i + 1])
  }

  lemma {:induction false} SumPrefix(ls: seq<nat>, i: nat, j: nat)
    requires i <= j <= |ls|
    ensures Sum(ls[..i]) <= Sum(ls[..j])
  {
    SumConcat(ls[..i], ls[i..j]);
    assert ls[..j] == ls[..i] + ls[i..j];
  }

  lemma SumNext(ls: seq<nat>, i: nat)
    requires i < |ls|
    ensures Sum(ls[..i + 1]) == Sum(ls[..i]) + ls[i]
  {
    SumConcat(ls[..i], [ls[i]]);
    assert ls[..i + 1] == ls[..i] + [ls[i]];
    assert Sum([ls[i]]) == ls[i] + Sum([ls[i]][1..]);
  }

  lemma RowInside(cells: seq<cell>, size: nat, i: nat)
    requires Sound(cells, size) && i < Count(cells)
    ensures var ls := Lengths(cells, size);
            1 + Count(cells) <= RowStart(ls, size, i) && RowStart(ls, size, i) + ls[i] == size - Sum(ls[..i])
  {
    var ls := Lengths(cells, size);
    SumPrefix(ls, i + 1, |ls|);
    assert ls[..|ls|] == ls;
    SumNext(ls, i);
  }

  ghost function RowAt(cells: seq<cell>, size: nat, i: nat): (row: Text)
    requires Sound(cells, size) && i < Count(cells)
    ensures |row| == Lengths(cells, size)[i]
  {
    RowInside(cells, size, i);
    var ls := Lengths(cells, size);
    RowChars(cells[RowStart(ls, size, i)..RowStart(ls, size, i) + ls[i]])
  }

  /** The list of rows that the page holds. */
  ghost function RowList(cells: seq<cell>, size: nat): (rows: seq<Text>)
    requires Sound(cells, size)
    ensures |rows| == Count(cells)
  {
    seq(Count(cells), i requires 0 <= i < Count(cells) => RowAt(cells, size, i))
  }

  // ----- Writes -----

  /** One write of a value into a cell. */
  datatype Write = Write(index: nat, value: int)

  function Apply(cells: seq<cell>, w: Write): (r: seq<cell>)
    requires w.index < |cells|
    ensures |r| == |cells|
  {
    cells[w.index := w.value % 0x1_0000]
  }

  ghost predicate Within(cells: seq<cell>, ws: seq<Write>) {
    forall i :: 0 <= i < |ws| ==> ws[i].index < |cells|
  }

  function ApplyAll(cells: seq<cell>, ws: seq<Write>): (r: seq<cell>)
    requires Within(cells, ws)
    ensures |r| == |cells|
    decreases |ws|
  {
    if ws == [] then cells
    else
      assert forall i :: 0 <= i < |ws| - 1 ==> ws[..|ws| - 1][i] == ws[i];
      Apply(ApplyAll(cells, ws[..|ws| - 1]), ws[|ws| - 1])
  }

  // ----- Insertion -----

  ghost predicate Fits(cells: seq<cell>, size: nat, row: Text)
    requires Sound(cells, size)
  {
    Sum(Lengths(cells, size)) + |row| + 2 + Count(cells) <= size
  }

  /** The writes of an insertion in their order: the row's cells, its length, the count. */
  ghost function InsertWrites(cells: seq<cell>, size: nat, row: Text): (ws: seq<Write>)
    requires Sound(cells, size) && Fits(cells, size, row)
    ensures |ws| == |row| + 2 && Within(cells, ws)
  {
    var start := size - Sum(Lengths(cells, size)) - |row|;
    seq(|row| + 2, i requires 0 <= i < |row| + 2 =>
      if i < |row| then Write(start + i, CharCell(row[i]))
      else if i == |row| then Write(1 + Count(cells), |row|)
      else Write(0, Count(cells) + 1))
  }

  /** A cell outside the count, the lengths and the rows may hold anything. */
  lemma FreeCells(cells: seq<cell>, size: nat, cells1: seq<cell>)
    requires Sound(cells, size) && |cells1| == |cells|
    requires forall i :: 0 <= i < 1 + Count(cells) ==> cells1[i] == cells[i]
    requires forall i :: size - Sum(Lengths(cells, size)) <= i < size ==> cells1[i] == cells[i]
    ensures Sound(cells1, size) && RowList(cells1, size) == RowList(cells, size)
  {
    assert Lengths(cells1, size) == Lengths(cells, size);
    forall i | 0 <= i < Count(cells) ensures RowAt(cells1, size, i) == RowAt(cells, size, i) {
      var ls := Lengths(cells, size);
      RowInside(cells, size, i);
      SumPrefix(ls, i + 1, |ls|);
      assert ls[..|ls|] == ls;
      var lo := RowStart(ls, size, i);
      assert cells1[lo..lo + ls[i]] == cells[lo..lo + ls[i]];
    }
  }

  /** Before the count is written, the page holds the rows it held. */
  lemma {:induction false} InsertPrefix(cells: seq<cell>, size: nat, row: Text, m: nat)
    requires Sound(cells, size) && Fits(cells, size, row) && m <= |row| + 1
    ensures var ws := InsertWrites(cells, size, row)[..m];
            Within(cells, ws) && ApplyAll(cells, ws)[0] == cells[0] &&
            Sound(ApplyAll(cells, ws), size) && RowList(ApplyAll(cells, ws), size) == RowList(cells, size)
  {
    InsertCells(cells, size, row, m);
    FreeCells(cells, size, ApplyAll(cells, InsertWrites(cells, size, row)[..m]));
  }

  /** The cells after the first m writes of an insertion. */
  lemma {:induction false} InsertCells(cells: seq<cell>, size: nat, row: Text, m: nat)
    requires Sound(cells, size) && Fits(cells, size, row) && m <= |row| + 1
    ensures var ws := InsertWrites(cells, size, row)[..m];
            Within(cells, ws) &&
            var r := ApplyAll(cells, ws);
            var start := size - Sum(Lengths(cells, size)) - |row|;
            forall i :: 0 <= i < |cells| ==>
              r[i] == if start <= i < start + |row| && i - start < m then CharCell(row[i - start])
                      else if i == 1 + Count(cells) && m == |row| + 1 then |row| % 0x1_0000
                      else cells[i]
  {
    var all := InsertWrites(cells, size, row);
    var ws := all[..m];
    if m > 0 {
      InsertCells(cells, size, row, m - 1);
      assert ws[..m - 1] == all[..m - 1] && ws[m - 1] == all[m - 1];
    }
  }

  /** The cells after a whole insertion. */
  ghost function Inserted(cells: seq<cell>, size: nat, row: Text): (r: seq<cell>)
    requires Sound(cells, size) && Fits(cells, size, row)
  {
    ApplyAll(cells, InsertWrites(cells, size, row))
  }

  lemma InsertedCells(cells: seq<cell>, size: nat, row: Text)
    requires Sound(cells, size) && Fits(cells, size, row)
    ensures var r := Inserted(cells, size, row);
            var start := size - Sum(Lengths(cells, size)) - |row|;
            |r| == |cells| &&
            forall i :: 0 <= i < |cells| ==>
              r[i] == if start <= i < start + |row| then CharCell(row[i - start])
                      else if i == 1 + Count(cells) then |row| % 0x1_0000
                      else if i == 0 then (Count(cells) + 1) % 0x1_0000
                      else cells[i]
  {
    InsertCells(cells, size, row, |row| + 1);
    var ws := InsertWrites(cells, size, row);
    assert ws[..|row| + 2] == ws;
    assert ws[..|ws| - 1] == ws[..|row| + 1];
  }

  /** The lengths after an insertion. */
  lemma InsertedLengths(cells: seq<cell>, size: nat, row: Text)
    requires Sound(cells, size) && Fits(cells, size, row) && |row| < 0x1_0000 && Count(cells) < 0xFFFF
    ensures var r := Inserted(cells, size, row);
            Sound(r, size) && Lengths(r, size) == Lengths(cells, size) + [|row|]
  {
    InsertedCells(cells, size, row);
    var r := Inserted(cells, size, row);
    assert Lengths(r, size) == Lengths(cells, size) + [|row|];
    SumConcat(Lengths(cells, size), [|row|]);
  }

  lemma InsertedOldRow(cells: seq<cell>, size: nat, row: Text, i: nat)
    requires Sound(cells, size) && Fits(cells, size, row) && |row| < 0x1_0000 && Count(cells) < 0xFFFF
    requires i < Count(cells)
    ensures var r := Inserted(cells, size, row);
            Sound(r, size) && Count(r) == Count(cells) + 1 && RowAt(r, size, i) == RowAt(cells, size, i)
  {
    InsertedLengths(cells, size, row);
    InsertedCells(cells, size, row);
    var r, ls := Inserted(cells, size, row), Lengths(cells, size);
    assert Lengths(r, size)[..i + 1] == ls[..i + 1];
    RowInside(cells, size, i);
    SumPrefix(ls, i + 1, |ls|);
    assert ls[..|ls|] == ls;
    var lo := RowStart(ls, size, i);
    assert r[lo..lo + ls[i]] == cells[lo..lo + ls[i]];
  }

  lemma InsertedNewRow(cells: seq<cell>, size: nat, row: Text)
    requires Sound(cells, size) && Fits(cells, size, row) && |row| < 0x1_0000 && Count(cells) < 0xFFFF
    ensures var r := Inserted(cells, size, row);
            Sound(r, size) && Count(r) == Count(cells) + 1 && RowAt(r, size, Count(cells)) == row
  {
    hide Sum, CharCell;
    InsertedLengths(cells, size, row);
    InsertedCells(cells, size, row);
    var r, ls := Inserted(cells, size, row), Lengths(cells, size);
    assert Lengths(r, size)[..Count(cells) + 1] == ls + [|row|];
    SumConcat(ls, [|row|]);
    var lo := size - Sum(ls) - |row|;
    RowInside(r, size, Count(cells));
    assert r[lo..lo + |row|] == RowCells(row);
    CharsRoundTrip(row);
  }

  /** A whole insertion appends the row, except that the 65536th row makes the page read as empty. */
  lemma InsertAppends(cells: seq<cell>, size: nat, row: Text)
    requires Sound(cells, size) && Fits(cells, size, row) && |row| < 0x1_0000
    ensures var r := Inserted(cells, size, row);
            Sound(r, size) &&
            RowList(r, size) == if Count(cells) < 0xFFFF then RowList(cells, size) + [row] else []
  {
    var r := Inserted(cells, size, row);
    if Count(cells) < 0xFFFF {
      InsertedNewRow(cells, size, row);
      forall i | 0 <= i < Count(cells) ensures RowAt(r, size, i) == RowAt(cells, size, i) {
        InsertedOldRow(cells, size, row, i);
      }
    } else {
      InsertedCells(cells, size, row);
      assert Lengths(r, size) == [];
    }
  }

  // ----- Deletion -----

  /** The last non-empty row before row k; k if there is none. */
  function Nearest(rows: seq<Text>, k: nat): (m: nat)
    requires k <= |rows|
    ensures m <= k && (m < k ==> rows[m] != [])
    ensures forall j :: 0 <= j < k && (m == k || m < j) ==> rows[j] == []
    decreases k
  {
    if k == 0 then 0
    else if rows[k - 1] != [] then k - 1
    else
      var m := Nearest(rows, k - 1);
      if m == k - 1 then k else m
  }

  /** What a deletion makes of the rows: row k is empty, and its first character has replaced
      that of the nearest non-empty row before it. */
  function DeletedRows(rows: seq<Text>, k: nat): (r: seq<Text>)
    requires k < |rows|
    ensures |r| == |rows|
  {
    if rows[k] == [] then rows
    else
      var m := Nearest(rows, k);
      if m == k then rows[k := []] else rows[k := []][m := rows[m][0 := rows[k][0]]]
  }

  /** A deletion leaves every other row alone exactly if row k is empty, or no earlier row holds
      anything, or the nearest one begins with the same character. */
  lemma DeletionIsLocal(rows: seq<Text>, k: nat)
    requires k < |rows|
    ensures var m := Nearest(rows, k);
            DeletedRows(rows, k) == rows[k := []] <==> rows[k] == [] || m == k || rows[m][0] == rows[k][0]
  {
    var m, r := Nearest(rows, k), DeletedRows(rows, k);
    if rows[k] != [] && m < k {
      assert r[m][0] == rows[k][0];
      if rows[m][0] == rows[k][0] {
        assert rows[m][0 := rows[k][0]] == rows[m];
      } else {
        assert rows[k := []][m] != r[m];
      }
    }
  }

  /** The cells after the two loops of a deletion. */
  ghost function Deleted(cells: seq<cell>, size: nat, k: nat): (r: seq<cell>)
    requires Sound(cells, size) && k < Count(cells)
    ensures |r| == |cells|
  {
    var ls := Lengths(cells, size);
    var len, before, all := ls[k], Sum(ls[..k]), Sum(ls);
    RowInside(cells, size, k);
    seq(|cells|, i requires 0 <= i < |cells| =>
      if i == k + 1 then 0
      else if size - all <= i < size - all + len then 0
      else if size - all + len <= i < size - before || (i == size - before && len > 0) then cells[i - len]
      else cells[i])
  }

  lemma {:induction false} SumReplace(ls: seq<nat>, k: nat, x: nat)
    requires k < |ls|
    ensures Sum(ls[k := x]) == Sum(ls) - ls[k] + x
  {
    if k > 0 {
      SumReplace(ls[1..], k - 1, x);
      assert ls[k := x][1..] == ls[1..][k - 1 := x];
    } else {
      assert ls[k := x][1..] == ls[1..];
    }
  }

  lemma DeletedLengths(cells: seq<cell>, size: nat, k: nat)
    requires Sound(cells, size) && k < Count(cells)
    ensures var r := Deleted(cells, size, k);
            Sound(r, size) && Lengths(r, size) == Lengths(cells, size)[k := 0]
  {
    var r, ls := Deleted(cells, size, k), Lengths(cells, size);
    RowInside(cells, size, k);
    assert Lengths(r, size) == ls[k := 0];
    SumReplace(ls, k, 0);
  }

  lemma LaterRowInside(ls: seq<nat>, size: nat, k: nat, j: nat)
    requires k < j < |ls|
    ensures var lo := RowStart(ls, size, j);
            RowStart(ls[k := 0], size, j) == lo + ls[k] &&
            size - Sum(ls) <= lo && lo + ls[j] + ls[k] <= size - Sum(ls[..k])
  {
    assert ls[k := 0][..j + 1] == ls[..j + 1][k := 0];
    SumReplace(ls[..j + 1], k, 0);
    SumNext(ls, k);
    SumNext(ls, j);
    SumPrefix(ls, k + 1, j);
    SumPrefix(ls, j + 1, |ls|);
    assert ls[..|ls|] == ls;
  }

  lemma DeletedLaterRow(cells: seq<cell>, size: nat, k: nat, j: nat)
    requires Sound(cells, size) && k < j < Count(cells)
    ensures var r := Deleted(cells, size, k);
            Sound(r, size) && Count(r) == Count(cells) && RowAt(r, size, j) == RowAt(cells, size, j)
  {
    hide Sum;
    DeletedLengths(cells, size, k);
    var r, ls := Deleted(cells, size, k), Lengths(cells, size);
    var lo := RowStart(ls, size, j);
    LaterRowInside(ls, size, k, j);
    RowInside(cells, size, j);
    assert r[lo + ls[k]..lo + ls[k] + ls[j]] == cells[lo..lo + ls[j]];
    hide Sound, Deleted, RowStart;
  }

  /** In the rows before row k a deletion writes one cell, the first above row k. */
  lemma DeletedCellAbove(cells: seq<cell>, size: nat, k: nat, i: nat)
    requires Sound(cells, size) && k < Count(cells)
    requires size - Sum(Lengths(cells, size)[..k]) <= i < |cells|
    ensures var len, first := Lengths(cells, size)[k], size - Sum(Lengths(cells, size)[..k]);
            first - len >= 0 &&
            Deleted(cells, size, k)[i] == if i == first && len > 0 then cells[first - len] else cells[i]
  {
    var ls := Lengths(cells, size);
    RowInside(cells, size, k);
    SumNext(ls, k);
    SumPrefix(ls, k + 1, |ls|);
    assert ls[..|ls|] == ls;
  }

  /** Row j before row k begins at the cell above row k exactly if it is the nearest non-empty one. */
  lemma NearestStart(ls: seq<nat>, rows: seq<Text>, size: nat, k: nat, j: nat)
    requires |rows| == |ls| && (forall i :: 0 <= i < |ls| ==> |rows[i]| == ls[i])
    requires j < k < |ls| && ls[j] > 0
    ensures RowStart(ls, size, j) >= size - Sum(ls[..k])
    ensures RowStart(ls, size, j) == size - Sum(ls[..k]) <==> j == Nearest(rows, k)
  {
    var between := ls[j + 1..k];
    assert ls[..k] == ls[..j + 1] + between;
    SumConcat(ls[..j + 1], between);
    SumZeros(between);
    var m := Nearest(rows, k);
    assert rows[j] != [];
    if j < m < k {
      assert between[m - j - 1] == ls[m];
    } else if m == j {
      forall x | 0 <= x < |between| ensures between[x] == 0 {
        assert rows[j + 1 + x] == [];
      }
    }
  }

  lemma FirstCharacter(cells: seq<cell>, size: nat, k: nat)
    requires Sound(cells, size) && k < Count(cells) && Lengths(cells, size)[k] > 0
    ensures var start := RowStart(Lengths(cells, size), size, k);
            1 <= start < |cells| && RowAt(cells, size, k)[0] == CellChar(cells[start])
  {
    RowInside(cells, size, k);
  }

  /** The cells of row j before row k as a deletion leaves them. */
  lemma DeletedEarlierCells(cells: seq<cell>, size: nat, k: nat, j: nat, i: nat)
    requires Sound(cells, size) && j < k < Count(cells)
    requires var lo := RowStart(Lengths(cells, size), size, j); lo <= i < lo + Lengths(cells, size)[j]
    ensures var ls := Lengths(cells, size);
            0 <= RowStart(ls, size, k) < |cells| && i < |cells| &&
            Deleted(cells, size, k)[i] ==
              if i == RowStart(ls, size, j) && ls[k] > 0 && j == Nearest(RowList(cells, size), k)
              then cells[RowStart(ls, size, k)] else cells[i]
  {
    var ls, rows := Lengths(cells, size), RowList(cells, size);
    assert forall i :: 0 <= i < |ls| ==> |rows[i]| == ls[i];
    RowInside(cells, size, j);
    RowInside(cells, size, k);
    NearestStart(ls, rows, size, k, j);
    hide RowStart, RowList, Nearest;
    DeletedCellAbove(cells, size, k, i);
  }

  lemma DeletedEarlierRow(cells: seq<cell>, size: nat, k: nat, j: nat)
    requires Sound(cells, size) && j < k < Count(cells)
    ensures var r, rows := Deleted(cells, size, k), RowList(cells, size);
            Sound(r, size) && Count(r) == Count(cells) && RowAt(r, size, j) == DeletedRows(rows, k)[j]
  {
    DeletedLengths(cells, size, k);
    var r, ls, rows := Deleted(cells, size, k), Lengths(cells, size), RowList(cells, size);
    assert ls[k := 0][..j + 1] == ls[..j + 1];
    RowInside(cells, size, j);
    if ls[k] > 0 {
      FirstCharacter(cells, size, k);
    }
    forall x | 0 <= x < ls[j] ensures RowAt(r, size, j)[x] == DeletedRows(rows, k)[j][x] {
      var i := RowStart(ls, size, j) + x;
      DeletedEarlierCells(cells, size, k, j, i);
      hide Sound, Deleted, Nearest, Sum, Lengths;
      assert rows[j][x] == CellChar(cells[i]);
      assert RowAt(r, size, j)[x] == CellChar(r[i]);
    }
    assert |RowAt(r, size, j)| == ls[j];
  }

  lemma {:induction false} SumZeros(ls: seq<nat>)
    ensures Sum(ls) == 0 <==> forall i :: 0 <= i < |ls| ==> ls[i] == 0
  {
    if ls != [] {
      SumZeros(ls[1..]);
      assert forall i :: 0 < i < |ls| ==> ls[i] == ls[1..][i - 1];
    }
  }

  /** A deletion empties its row and does to the others what DeletedRows says. */
  lemma DeleteEmpties(cells: seq<cell>, size: nat, k: nat)
    requires Sound(cells, size) && k < Count(cells)
    ensures var r := Deleted(cells, size, k);
            Sound(r, size) && RowList(r, size) == DeletedRows(RowList(cells, size), k)
  {
    DeletedLengths(cells, size, k);
    var r, rows := Deleted(cells, size, k), RowList(cells, size);
    forall j | 0 <= j < Count(cells) ensures RowAt(r, size, j) == DeletedRows(rows, k)[j] {
      if j < k {
        DeletedEarlierRow(cells, size, k, j);
      } else if k < j {
        DeletedLaterRow(cells, size, k, j);
      }
    }
  }
}
