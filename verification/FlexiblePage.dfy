/** The slotted page object of the master (master/persistent_kv/flexible_page.cpp) on its file of
    one nibble a byte: each operation is the one on cells, and so the one on the list of rows. */
module FlexiblePage {
  import opened Rows
  import opened CellPage

  function FromNibbles(ns: seq<nibble>): nat {
    if ns == [] then 0 else ns[0] + 16 * FromNibbles(ns[1..])
  }

  function ToNibbles(value: int, w: nat): (ns: seq<nibble>)
    ensures |ns| == w
    decreases w
  {
    if w == 0 then [] else [value % 16] + ToNibbles(value / 16, w - 1)
  }

  lemma Tail(value: int, w: nat)
    requires w > 0
    ensures ToNibbles(value, w)[0] == value % 16 && ToNibbles(value, w)[1..] == ToNibbles(value / 16, w - 1)
  {
  }

  lemma {:induction false} ZeroNibbles(ns: seq<nibble>)
    requires forall i :: 0 <= i < |ns| ==> ns[i] == 0
    ensures FromNibbles(ns) == 0
  {
    if ns != [] {
      ZeroNibbles(ns[1..]);
    }
  }

  lemma FromNibble(ns: seq<nibble>, i: nat)
    requires i < |ns|
    ensures FromNibbles(ns[i..]) == ns[i] + 16 * FromNibbles(ns[i + 1..])
  {
    assert ns[i..][1..] == ns[i + 1..];
  }

  lemma NextNibble(value: int, w: nat)
    ensures FromNibbles(ToNibbles(value, w + 1)) == value % 16 + 16 * FromNibbles(ToNibbles(value / 16, w))
  {
    Tail(value, w + 1);
  }

  /** Four nibbles keep a value modulo 2^16. */
  lemma NibblesOfValue(value: int)
    ensures FromNibbles(ToNibbles(value, 4)) == value % 0x1_0000
  {
    hide FromNibbles, ToNibbles;
    var a := value / 16;
    var b := a / 16;
    var c := b / 16;
    NextNibble(value, 3);
    NextNibble(a, 2);
    NextNibble(b, 1);
    NextNibble(c, 0);
    ZeroNibbles(ToNibbles(c / 16, 0));
    assert b % 16 + 16 * (c % 16) == b % 256 by {
      Remainder(b, 256, c / 16, b % 16 + 16 * (c % 16));
    }
    assert a % 16 + 16 * (b % 256) == a % 4096 by {
      Remainder(a, 4096, b / 256, a % 16 + 16 * (b % 256));
    }
    Remainder(value, 0x1_0000, a / 4096, value % 16 + 16 * (a % 4096));
  }

  /** The lowest nibble comes first, and a negative value is in two's complement. */
  lemma NibbleOrder(a: nibble, b: nibble, c: nibble, d: nibble, k: int)
    ensures ToNibbles(a + 16 * b + 256 * c + 4096 * d + 0x1_0000 * k, 4) == [a, b, c, d]
  {
    hide ToNibbles;
    var e := d + 16 * k;
    Tail(e, 1);
    NibbleFirst(c, e, 1);
    NibbleFirst(b, c + 16 * e, 2);
    NibbleFirst(a, b + 16 * (c + 16 * e), 3);
  }

  lemma NibbleFirst(a: nibble, v: int, w: nat)
    ensures ToNibbles(a + 16 * v, w + 1) == [a] + ToNibbles(v, w)
  {
    Tail(a + 16 * v, w + 1);
  }

  lemma Remainder(x: int, m: int, q: int, r: int)
    requires m > 0 && x == m * q + r && 0 <= r < m
    ensures x % m == r
  {
    var d := x / m - q;
    assert r - x % m == m * d;
    assert d >= 1 ==> m * d >= m;
    assert d <= -1 ==> m * d <= -m;
  }

  lemma {:induction false} NibblesBound(ns: seq<nibble>)
    ensures |ns| == 4 ==> FromNibbles(ns) < 0x1_0000
    ensures |ns| == 3 ==> FromNibbles(ns) < 4096
    ensures |ns| == 2 ==> FromNibbles(ns) < 256
    ensures |ns| == 1 ==> FromNibbles(ns) < 16
  {
    if ns != [] {
      NibblesBound(ns[1..]);
    }
  }

  /** Cell i of the file: four nibbles, the lowest first. */
  function CellAt(file: seq<nibble>, i: nat): cell
    requires 4 * i + 4 <= |file|
  {
    NibblesBound(file[4 * i..4 * i + 4]);
    FromNibbles(file[4 * i..4 * i + 4])
  }

  function FileCells(file: seq<nibble>): (cells: seq<cell>)
    ensures |cells| == |file| / 4
  {
    seq(|file| / 4, i requires 0 <= i < |file| / 4 => CellAt(file, i))
  }

  lemma CellOfNibbles(file: seq<nibble>, i: nat)
    requires 4 * i + 4 <= |file|
    ensures FileCells(file)[i] == FromNibbles(file[4 * i..4 * i + 4])
  {
  }

  lemma CellStored(file: seq<nibble>, file1: seq<nibble>, index: nat, value: int)
    requires 4 * index + 4 <= |file| == |file1|
    requires file1[4 * index..4 * index + 4] == ToNibbles(value, 4)
    requires forall i :: 0 <= i < |file| && !(4 * index <= i < 4 * index + 4) ==> file1[i] == file[i]
    ensures FileCells(file1) == FileCells(file)[index := value % 0x1_0000]
  {
    hide FromNibbles, ToNibbles;
    NibblesOfValue(value);
    forall i | 0 <= i < |file| / 4 && i != index ensures CellAt(file1, i) == CellAt(file, i) {
      assert file1[4 * i..4 * i + 4] == file[4 * i..4 * i + 4];
    }
  }

  /** The cells from lo on copied len higher, up to top. */
  ghost function Raised(cells: seq<cell>, len: nat, lo: nat, top: nat): (r: seq<cell>)
    requires top < |cells|
    ensures |r| == |cells|
  {
    seq(|cells|, i requires 0 <= i < |cells| => if lo + len <= i <= top then cells[i - len] else cells[i])
  }

  ghost function Zeroed(cells: seq<cell>, lo: nat, hi: nat): (r: seq<cell>)
    ensures |r| == |cells|
  {
    seq(|cells|, i requires 0 <= i < |cells| => if lo <= i < hi then 0 else cells[i])
  }

  /** The cells after the loops of eraseRow. */
  ghost function Erased(cells: seq<cell>, size: nat, len: nat, before: nat, all: nat): (r: seq<cell>)
    requires before + len <= all < size < |cells|
    ensures |r| == |cells|
  {
    seq(|cells|, i requires 0 <= i < |cells| =>
      if size - all <= i < size - all + len then 0
      else if size - all + len <= i <= size - before then cells[i - len]
      else cells[i])
  }

  lemma DeletedIsErased(cells: seq<cell>, size: nat, k: nat)
    requires Sound(cells, size) && k < Count(cells)
    ensures var ls := Lengths(cells, size);
            Sum(ls[..k]) + ls[k] <= Sum(ls) < size &&
            Deleted(cells, size, k) == Erased(cells[k + 1 := 0], size, ls[k], Sum(ls[..k]), Sum(ls))
  {
    var ls := Lengths(cells, size);
    SumNext(ls, k);
    SumPrefix(ls, k + 1, |ls|);
    assert ls[..|ls|] == ls;
  }

  class FlexiblePage {
    const size: nat
    const file: array<nibble>

    ghost function Cells(): seq<cell>
      reads file
    {
      FileCells(file[..])
    }

    ghost predicate Valid()
      reads file
    {
      0 < size && file.Length == 8 * size && Sound(Cells(), size)
    }

    ghost function Rows(): (rows: seq<Text>)
      requires Valid()
      reads file
      ensures |rows| == Count(Cells())
    {
      RowList(Cells(), size)
    }

    /** A page over a file that has just been created. */
    constructor (size: nat)
      requires size > 0
      ensures Valid() && fresh(file) && this.size == size && Rows() == []
    {
      this.size := size;
      file := new nibble[8 * size](_ => 0);
      new;
      ZeroNibbles(file[..][0..4]);
      assert Cells()[0] == 0;
    }

    method GetByIndex(index: nat) returns (answer: int)
      requires 4 * index + 4 <= file.Length
      ensures answer == Cells()[index]
    {
      hide FromNibbles, FileCells;
      var at := 4 * index;
      ghost var n := file[at..at + 4];
      CellOfNibbles(file[..], index);
      assert file[..][at..at + 4] == n && n[4..] == [] && n[0..] == n;
      ZeroNibbles([]);
      answer := 0;
      var i := 3;
      while i >= 0
        invariant -1 <= i <= 3
        invariant answer == if i >= 0 then 16 * FromNibbles(n[i + 1..]) else FromNibbles(n)
      {
        FromNibble(n, i);
        answer := answer + file[at + i];
        if i != 0 {
          answer := answer * 16;
        }
        i := i - 1;
      }
    }

    method SetByIndex(index: nat, value: int)
      requires 4 * index + 4 <= file.Length
      modifies file
      ensures Cells() == old(Cells())[index := value % 0x1_0000]
    {
      ghost var n := ToNibbles(value, 4);
      var rest, i := value, 0;
      while i < 4
        invariant 0 <= i <= 4
        invariant ToNibbles(rest, 4 - i) == n[i..]
        invariant forall j :: 0 <= j < i ==> file[4 * index + j] == n[j]
        invariant forall j :: 0 <= j < file.Length && !(4 * index <= j < 4 * index + i) ==> file[j] == old(file[j])
      {
        Tail(rest, 4 - i);
        assert n[i..][0] == n[i] && n[i..][1..] == n[i + 1..];
        file[4 * index + i] := rest % 16;
        rest := rest / 16;
        i := i + 1;
      }
      assert file[4 * index..4 * index + 4] == n;
      CellStored(old(file[..]), file[..], index, value);
    }

    method GetSizesRows() returns (answers: seq<nat>)
      requires Valid()
      ensures answers == Lengths(Cells(), size)
    {
      var cnt := GetByIndex(0);
      answers := [];
      var i := 0;
      while i < cnt
        invariant 0 <= i <= cnt && cnt == Count(Cells())
        invariant answers == Lengths(Cells(), size)[..i]
      {
        var length := GetByIndex(i + 1);
        answers := answers + [length];
        i := i + 1;
      }
    }

    method GetRowCount() returns (answer: int)
      requires Valid()
      ensures answer == |Rows()|
    {
      answer := GetByIndex(0);
    }

    method Total(lengths: seq<nat>, n: nat) returns (sum: nat)
      requires n <= |lengths|
      ensures sum == Sum(lengths[..n])
    {
      sum := 0;
      for i := 0 to n
        invariant sum == Sum(lengths[..i])
      {
        SumNext(lengths, i);
        sum := sum + lengths[i];
      }
    }

    method GetCells(start: nat, length: nat) returns (row: Text)
      requires start + length <= file.Length / 4
      ensures row == RowChars(Cells()[start..start + length])
    {
      hide FileCells;
      row := [];
      for i := 0 to length
        invariant row == RowChars(Cells()[start..start + i])
      {
        var x := GetByIndex(start + i);
        row := row + [x % 256];
      }
    }

    /** Row index, None where the program throws. */
    method GetRow(index: int) returns (answer: Option<Text>)
      requires Valid()
      ensures answer == if 0 <= index < |Rows()| then Some(Rows()[index]) else None
    {
      var lengths := GetSizesRows();
      if index < 0 || index >= |lengths| {
        return None;
      }
      var realIndex := Total(lengths, index + 1);
      RowInside(Cells(), size, index);
      var row := GetCells(size - realIndex, lengths[index]);
      answer := Some(row);
    }

    /** The cell writes of an insertion, in the order of InsertWrites. */
    method WriteRow(row: Text, sum: nat, count: nat)
      requires Valid() && Fits(Cells(), size, row)
      requires sum == Sum(Lengths(Cells(), size)) && count == Count(Cells())
      modifies file
      ensures Cells() == Inserted(old(Cells()), size, row)
    {
      hide FileCells;
      ghost var was := Cells();
      ghost var ws := InsertWrites(was, size, row);
      var i := 0;
      assert ws[..0] == [];
      while i < |row|
        invariant 0 <= i <= |row|
        invariant Within(was, ws[..i]) && Cells() == ApplyAll(was, ws[..i])
      {
        SetByIndex(size - sum - |row| + i, CharCell(row[i]));
        Further(was, ws, i);
        i := i + 1;
      }
      SetByIndex(1 + count, |row|);
      Further(was, ws, |row|);
      SetByIndex(0, count + 1);
      Further(was, ws, |row| + 1);
      assert ws[..|ws|] == ws;
    }

    /** Appends a row if it fits; rows of 2^16 characters and more fail the program's assertion. */
    method InsertRow(row: Text) returns (r: (bool, int))
      requires Valid()
      requires Fits(Cells(), size, row) ==> |row| < 0x1_0000
      modifies file
      ensures Valid()
      ensures r == if old(Fits(Cells(), size, row)) then (true, old(|Rows()|)) else (false, -1)
      ensures Cells() == if r.0 then Inserted(old(Cells()), size, row) else old(Cells())
      ensures Rows() == if !r.0 then old(Rows()) else if old(|Rows()|) < 0xFFFF then old(Rows()) + [row] else []
    {
      var lengths := GetSizesRows();
      var sum := Total(lengths, |lengths|);
      assert lengths[..|lengths|] == lengths;
      if sum + |row| + 2 + |lengths| > size {
        return (false, -1);
      }
      InsertAppends(Cells(), size, row);
      WriteRow(row, sum, |lengths|);
      r := (true, |lengths|);
    }

    method EraseRow(len: nat, before: nat, all: nat)
      requires before + len <= all < size && file.Length == 8 * size
      modifies file
      ensures Cells() == Erased(old(Cells()), size, len, before, all)
    {
      hide FileCells;
      ghost var was := Cells();
      var i := size - len - before;
      while i >= size - all
        invariant size - all - 1 <= i <= size - len - before
        invariant Cells() == Raised(was, len, i + 1, size - before)
        decreases i
      {
        var x := GetByIndex(i);
        SetByIndex(i + len, x);
        i := i - 1;
      }
      i := size - all;
      while i < size - all + len
        invariant size - all <= i <= size - all + len
        invariant Cells() == Zeroed(Raised(was, len, size - all, size - before), size - all, i)
      {
        SetByIndex(i, 0);
        i := i + 1;
      }
      assert Cells() == Erased(was, size, len, before, all);
    }

    method DeleteRow(index: nat)
      requires Valid() && index < |Rows()|
      modifies file
      ensures Valid()
      ensures Cells() == Deleted(old(Cells()), size, index)
      ensures Rows() == DeletedRows(old(Rows()), index)
    {
      hide FileCells, Deleted, DeletedRows, Erased;
      var lengths := GetSizesRows();
      var len := lengths[index];
      var before := Total(lengths, index);
      var all := Total(lengths, |lengths|);
      assert lengths[..|lengths|] == lengths;
      DeletedIsErased(Cells(), size, index);
      DeleteEmpties(Cells(), size, index);
      SetByIndex(index + 1, 0);
      EraseRow(len, before, all);
    }
  }

  lemma Further(cells: seq<cell>, ws: seq<Write>, i: nat)
    requires Within(cells, ws) && i < |ws|
    ensures Within(cells, ws[..i]) && Within(cells, ws[..i + 1])
    ensures ApplyAll(cells, ws[..i + 1]) == ApplyAll(cells, ws[..i])[ws[i].index := ws[i].value % 0x1_0000]
  {
    assert ws[..i + 1][..i] == ws[..i];
  }
}
