/** The byte codec of rows (lib/sql/marshal.cpp). */
module Marshal {
  import opened Rows
  import opened Bytes
  import opened Schemas

  // ----- The bit mask of nulls -----

  function Power2(i: nat): (p: nat)
    ensures p >= 1
  {
    if i == 0 then 1 else 2 * Power2(i - 1)
  }

  /** The test mask & (1 << i). */
  predicate Bit(mask: nat, i: nat) {
    if i == 0 then mask % 2 == 1 else Bit(mask / 2, i - 1)
  }

  function NullBits(row: Row): nat {
    if row == [] then 0 else (if row[0].Null? then 1 else 0) + 2 * NullBits(row[1..])
  }

  lemma NullBitsHalves(row: Row)
    requires row != []
    ensures NullBits(row) % 2 == (if row[0].Null? then 1 else 0) && NullBits(row) / 2 == NullBits(row[1..])
  {
  }

  lemma {:induction false} NullBitsMeaning(row: Row, i: nat)
    ensures Bit(NullBits(row), i) <==> i < |row| && row[i].Null?
  {
    hide NullBits;
    if row == [] {
      assert NullBits(row) == 0 by { EmptyNullBits(); }
      ZeroBits(i);
    } else {
      NullBitsHalves(row);
      if i > 0 {
        NullBitsMeaning(row[1..], i - 1);
      }
    }
  }

  lemma EmptyNullBits()
    ensures NullBits([]) == 0
  {
  }

  lemma {:induction false} ZeroBits(i: nat)
    ensures !Bit(0, i)
  {
    if i > 0 {
      ZeroBits(i - 1);
    }
  }

  lemma {:induction false} NullBitsAppend(row: Row, v: Value)
    ensures NullBits(row + [v]) == NullBits(row) + (if v.Null? then Power2(|row|) else 0)
  {
    if row == [] {
      assert row + [v] == [v];
      assert NullBits([v][1..]) == 0;
    } else {
      NullBitsAppend(row[1..], v);
      assert (row + [v])[1..] == row[1..] + [v];
    }
  }

  lemma {:induction false} NullBitsBound(row: Row)
    ensures NullBits(row) < Power2(|row|)
  {
    if row != [] {
      NullBitsBound(row[1..]);
    }
  }

  lemma {:induction false} Power2IsLimit(w: nat)
    ensures Power2(8 * w) == Limit(w)
  {
    if w > 0 {
      Power2IsLimit(w - 1);
      var n := 8 * (w - 1);
      assert Power2(n + 2) == 4 * Power2(n);
      assert Power2(n + 4) == 4 * Power2(n + 2);
      assert Power2(n + 6) == 4 * Power2(n + 4);
      assert Power2(n + 8) == 4 * Power2(n + 6);
    }
  }

  lemma {:induction false} Power2Monotone(m: nat, n: nat)
    requires m <= n
    ensures Power2(m) <= Power2(n)
    decreases n - m
  {
    if m < n {
      Power2Monotone(m + 1, n);
    }
  }

  /** The mask of a row of at most 64 columns fits its 64-bit field. */
  lemma NullBitsFit(row: Row)
    requires |row| <= 64
    ensures NullBits(row) < TWO_64
  {
    NullBitsBound(row);
    Power2Monotone(|row|, 64);
    Power2IsLimit(8);
    Limits();
  }

  // ----- Rows and schemas that belong together -----

  /** The value is null or of the column's type, and a varchar is within its length. */
  predicate Fits(col: Column, v: Value) {
    v.Null? ||
    match col.typ
    case Boolean => v.Bool?
    case UInt64 => v.UInt?
    case Int64 => v.Int?
    case Varchar => v.Str? && |v.s| <= col.length
    case String => v.Str?
    case Vector => false
  }

  predicate RowFits(schema: Schema, row: Row) {
    |row| == |schema| && forall i :: 0 <= i < |row| ==> Fits(schema[i], row[i])
  }

  /** What the codec preserves: a varchar without NUL bytes, a string whose length fits a byte. */
  predicate Faithful(col: Column, v: Value) {
    v.Str? ==> if col.typ == Varchar then 0 !in v.s else |v.s| <= 255
  }

  predicate RowFaithful(schema: Schema, row: Row)
    requires |row| == |schema|
  {
    forall i :: 0 <= i < |row| ==> Faithful(schema[i], row[i])
  }

  predicate Supported(schema: Schema) {
    |schema| < 64 && forall i :: 0 <= i < |schema| ==> schema[i].typ != Vector
  }

  // ----- The encoding -----

  function Zeros(n: nat): (bs: Bytes)
    ensures |bs| == n && forall i :: 0 <= i < n ==> bs[i] == 0
  {
    seq(n, i => 0)
  }

  function EncodeColumn(col: Column, v: Value): Bytes
    requires Fits(col, v)
  {
    match v
    case Null => []
    case Bool(b) => [if b then 1 else 0]
    case UInt(u) => ToBytes(u, 8)
    case Int(i) => ToBytes(Unsigned64(i), 8)
    case Str(s) => if col.typ == Varchar then s + Zeros(col.length - |s|) else [|s| % 256] + s
  }

  /** The columns from i on. */
  function EncodeColumns(schema: Schema, row: Row, i: nat): Bytes
    requires RowFits(schema, row) && i <= |schema|
    decreases |schema| - i
  {
    if i == |schema| then [] else EncodeColumn(schema[i], row[i]) + EncodeColumns(schema, row, i + 1)
  }

  function EncodeRow(schema: Schema, row: Row): Bytes
    requires RowFits(schema, row)
  {
    ToBytes(NullBits(row), 8) + EncodeColumns(schema, row, 0)
  }

  /** A column of each type, and a row. */
  function SampleSchema(): Schema {
    [Column([97], Boolean, 0), Column([98], Int64, 0), Column([99], UInt64, 0), Column([100], Varchar, 3), Column([101], String, 0)]
  }

  function SampleRow(): Row {
    [Bool(true), Null, UInt(258), Str([97, 98]), Str([120, 121, 122])]
  }

  lemma SampleColumns()
    ensures RowFits(SampleSchema(), SampleRow())
    ensures EncodeColumn(SampleSchema()[0], SampleRow()[0]) == [1]
    ensures EncodeColumn(SampleSchema()[1], SampleRow()[1]) == []
    ensures EncodeColumn(SampleSchema()[2], SampleRow()[2]) == [2, 1, 0, 0, 0, 0, 0, 0]
    ensures EncodeColumn(SampleSchema()[3], SampleRow()[3]) == [97, 98, 0]
    ensures EncodeColumn(SampleSchema()[4], SampleRow()[4]) == [3, 120, 121, 122]
  {
    LowBytes(2, 1);
    hide ToBytes;
  }

  lemma SampleMask()
    ensures NullBits(SampleRow()) == 2
  {
    var row := SampleRow();
    assert NullBits(row[4..]) == 0;
    assert row[3..][1..] == row[4..] && NullBits(row[3..]) == 0;
    assert row[2..][1..] == row[3..] && NullBits(row[2..]) == 0;
    assert row[1..][1..] == row[2..] && NullBits(row[1..]) == 1;
  }

  lemma ColumnsStep(schema: Schema, row: Row, i: nat)
    requires RowFits(schema, row) && i < |schema|
    ensures EncodeColumns(schema, row, i) == EncodeColumn(schema[i], row[i]) + EncodeColumns(schema, row, i + 1)
  {
  }

  lemma FiveColumns(schema: Schema, row: Row)
    requires RowFits(schema, row) && |schema| == 5
    ensures EncodeColumns(schema, row, 0) ==
            EncodeColumn(schema[0], row[0]) + (EncodeColumn(schema[1], row[1]) +
            (EncodeColumn(schema[2], row[2]) + (EncodeColumn(schema[3], row[3]) + EncodeColumn(schema[4], row[4]))))
  {
    hide EncodeColumn;
    var e := EncodeColumn(schema[4], row[4]);
    ColumnsStep(schema, row, 4);
    assert EncodeColumns(schema, row, 5) == [] && e + [] == e;
    hide EncodeColumns;
    ColumnsStep(schema, row, 3);
    ColumnsStep(schema, row, 2);
    ColumnsStep(schema, row, 1);
    ColumnsStep(schema, row, 0);
  }

  /** The row as bytes: the mask of the nulls, a byte, eight bytes, a string filled up with NULs to its
      column's length, and a string behind a byte with its length. */
  lemma RowLayout()
    ensures var schema, row := SampleSchema(), SampleRow();
            RowFits(schema, row) &&
            EncodeRow(schema, row) ==
            [2, 0, 0, 0, 0, 0, 0, 0] + ([1] + ([] + ([2, 1, 0, 0, 0, 0, 0, 0] + ([97, 98, 0] + [3, 120, 121, 122]))))
  {
    hide EncodeColumn, EncodeColumns, ToBytes, NullBits;
    SampleColumns();
    SampleMask();
    LowBytes(2, 0);
    FiveColumns(SampleSchema(), SampleRow());
  }

  lemma LowBytes(a: byte, b: byte)
    ensures ToBytes(a + 256 * b, 8) == [a, b, 0, 0, 0, 0, 0, 0]
  {
    Limits();
    LittleEndian(a, b, 0, 0);
    LittleEndian(0, 0, 0, 0);
    ToBytesSplit(a + 256 * b, 0, 4, 4);
  }

  // ----- The decoding -----

  /** The bytes before the first NUL. */
  function UntilNul(bs: Bytes): (s: Text)
    ensures |s| <= |bs| && 0 !in s && s == bs[..|s|]
    ensures |s| < |bs| ==> bs[|s|] == 0
  {
    if bs == [] || bs[0] == 0 then [] else [bs[0]] + UntilNul(bs[1..])
  }

  /** The value at the front of bs and the number of bytes it takes; None if bs is too short. */
  function DecodeColumn(col: Column, bs: Bytes): (r: Option<(Value, nat)>)
    ensures r.Some? ==> r.value.1 <= |bs| && Fits(col, r.value.0)
  {
    match col.typ
    case Boolean => if |bs| < 1 then None else Some((Bool(bs[0] != 0), 1))
    case UInt64 => if |bs| < 8 then None else Some((UInt(DecodeUInt64(bs[..8])), 8))
    case Int64 => if |bs| < 8 then None else Some((Int(Signed64(DecodeUInt64(bs[..8]))), 8))
    case Varchar => if |bs| < col.length then None else Some((Str(UntilNul(bs[..col.length])), col.length))
    case String => if |bs| < 1 || |bs| - 1 < bs[0] then None else Some((Str(bs[1..][..bs[0]]), 1 + bs[0] as nat))
    case Vector => None
  }

  /** The value at the front of bs in column i: null by the mask, or decoded. */
  function DecodeFirst(schema: Schema, nulls: nat, i: nat, bs: Bytes): (r: Option<(Value, nat)>)
    requires i < |schema|
    ensures r.Some? ==> r.value.1 <= |bs| && Fits(schema[i], r.value.0)
  {
    if Bit(nulls, i) then Some((Null, 0)) else DecodeColumn(schema[i], bs)
  }

  /** The columns from i on. */
  function DecodeColumns(schema: Schema, nulls: nat, i: nat, bs: Bytes): (r: Option<(Row, nat)>)
    requires i <= |schema|
    ensures r.Some? ==> |r.value.0| == |schema| - i && r.value.1 <= |bs|
    decreases |schema| - i
  {
    if i == |schema| then Some(([], 0))
    else
      var first := DecodeFirst(schema, nulls, i, bs);
      if first.None? then None
      else
        var rest := DecodeColumns(schema, nulls, i + 1, bs[first.value.1..]);
        if rest.None? then None else Some(([first.value.0] + rest.value.0, first.value.1 + rest.value.1))
  }

  /** Each of the columns from i on is null or of its column's type. */
  ghost predicate ColumnsFit(schema: Schema, i: nat, columns: Row) {
    |columns| == |schema| - i && forall j :: i <= j < |schema| ==> Fits(schema[j], columns[j - i])
  }

  lemma {:induction false} DecodeColumnsFit(schema: Schema, nulls: nat, i: nat, bs: Bytes)
    requires i <= |schema| && DecodeColumns(schema, nulls, i, bs).Some?
    ensures ColumnsFit(schema, i, DecodeColumns(schema, nulls, i, bs).value.0)
    decreases |schema| - i
  {
    hide DecodeFirst;
    if i < |schema| {
      DecodeColumnsFit(schema, nulls, i + 1, bs[DecodeFirst(schema, nulls, i, bs).value.1..]);
    }
  }

  function DecodeRow(schema: Schema, bs: Bytes): (r: Option<(Row, nat)>)
    ensures r.Some? ==> RowFits(schema, r.value.0) && 8 <= r.value.1 <= |bs|
  {
    if |bs| < 8 then None
    else
      var rest := DecodeColumns(schema, DecodeUInt64(bs[..8]), 0, bs[8..]);
      if rest.None? then None
      else
        DecodeColumnsFit(schema, DecodeUInt64(bs[..8]), 0, bs[8..]);
        Some((rest.value.0, 8 + rest.value.1))
  }

  // ----- Round trip -----

  lemma {:induction false} UntilNulPadded(s: Text, n: nat)
    ensures UntilNul(s + Zeros(n)) == s <==> 0 !in s
  {
    if s == [] {
      assert s + Zeros(n) == Zeros(n);
    } else if s[0] != 0 {
      UntilNulPadded(s[1..], n);
      assert (s + Zeros(n))[1..] == s[1..] + Zeros(n);
      assert s == [s[0]] + s[1..];
    }
  }

  /** Decoding a stored value gives it back exactly when the codec is faithful to it. */
  lemma ColumnRoundTrip(col: Column, v: Value, rest: Bytes)
    requires Fits(col, v) && !v.Null?
    ensures var bs := EncodeColumn(col, v);
            if Faithful(col, v) then DecodeColumn(col, bs + rest) == Some((v, |bs|))
            else DecodeColumn(col, bs + rest).Some? ==> DecodeColumn(col, bs + rest).value.0 != v
  {
    var bs := EncodeColumn(col, v);
    match v
    case Bool(b) =>
    case UInt(u) =>
      UInt64RoundTrip(u);
      assert (bs + rest)[..8] == bs;
    case Int(i) =>
      UInt64RoundTrip(Unsigned64(i));
      assert (bs + rest)[..8] == bs;
    case Str(s) =>
      if col.typ == Varchar {
        UntilNulPadded(s, col.length - |s|);
        assert (bs + rest)[..col.length] == bs;
      } else if |s| <= 255 {
        assert (bs + rest)[1..][..|s|] == s;
      }
  }

  /** The mask that belongs to a row. */
  ghost predicate IsMask(nulls: nat, row: Row) {
    forall j :: 0 <= j < |row| ==> (Bit(nulls, j) <==> row[j].Null?)
  }

  /** Decoding one column of a stored row. */
  lemma FirstRoundTrip(schema: Schema, row: Row, nulls: nat, i: nat, rest: Bytes)
    requires RowFits(schema, row) && i < |schema| && IsMask(nulls, row)
    ensures var bs := EncodeColumn(schema[i], row[i]);
            var r := DecodeFirst(schema, nulls, i, bs + rest);
            if Faithful(schema[i], row[i]) then r == Some((row[i], |bs|))
            else r.Some? ==> r.value.0 != row[i]
  {
    if !row[i].Null? {
      ColumnRoundTrip(schema[i], row[i], rest);
    }
  }

  /** Decoding goes on where the column just read ends. */
  lemma DecodeStep(schema: Schema, nulls: nat, i: nat, bs: Bytes, v: Value, n: nat)
    requires i < |schema| && DecodeFirst(schema, nulls, i, bs) == Some((v, n))
    ensures DecodeColumns(schema, nulls, i, bs) ==
            var r := DecodeColumns(schema, nulls, i + 1, bs[n..]);
            if r.None? then None else Some(([v] + r.value.0, n + r.value.1))
  {
  }

  lemma Slices(a: Bytes, b: Bytes, c: Bytes)
    ensures a + b + c == a + (b + c) && (a + b + c)[..|a|] == a && (a + b + c)[|a|..] == b + c
  {
  }

  lemma FirstOf(schema: Schema, row: Row, nulls: nat, i: nat, others: Bytes, rest: Bytes)
    requires RowFits(schema, row) && i < |schema| && IsMask(nulls, row) && Faithful(schema[i], row[i])
    ensures var first := EncodeColumn(schema[i], row[i]);
            DecodeFirst(schema, nulls, i, first + others + rest) == Some((row[i], |first|)) &&
            (first + others + rest)[|first|..] == others + rest
  {
    FirstRoundTrip(schema, row, nulls, i, others + rest);
    Slices(EncodeColumn(schema[i], row[i]), others, rest);
  }

  lemma {:induction false} FaithfulColumns(schema: Schema, row: Row, nulls: nat, i: nat, rest: Bytes)
    requires RowFits(schema, row) && i <= |schema| && IsMask(nulls, row)
    requires forall j :: i <= j < |row| ==> Faithful(schema[j], row[j])
    ensures var bs := EncodeColumns(schema, row, i);
            DecodeColumns(schema, nulls, i, bs + rest) == Some((row[i..], |bs|))
    decreases |schema| - i
  {
    hide DecodeFirst, EncodeColumn;
    if i < |schema| {
      var first, others := EncodeColumn(schema[i], row[i]), EncodeColumns(schema, row, i + 1);
      FaithfulColumns(schema, row, nulls, i + 1, rest);
      FirstOf(schema, row, nulls, i, others, rest);
      DecodeStep(schema, nulls, i, first + others + rest, row[i], |first|);
      assert row[i..] == [row[i]] + row[i + 1..];
    }
  }

  lemma {:induction false} UnfaithfulColumns(schema: Schema, row: Row, nulls: nat, i: nat, at: nat, rest: Bytes)
    requires RowFits(schema, row) && i <= at < |schema| && IsMask(nulls, row)
    requires !Faithful(schema[at], row[at]) && forall j :: i <= j < at ==> Faithful(schema[j], row[j])
    ensures var r := DecodeColumns(schema, nulls, i, EncodeColumns(schema, row, i) + rest);
            r.Some? ==> r.value.0 != row[i..]
    decreases at - i
  {
    var first, others := EncodeColumn(schema[i], row[i]), EncodeColumns(schema, row, i + 1);
    FirstRoundTrip(schema, row, nulls, i, others + rest);
    Slices(first, others, rest);
    if i < at {
      UnfaithfulColumns(schema, row, nulls, i + 1, at, rest);
      DecodeStep(schema, nulls, i, first + others + rest, row[i], |first|);
      assert row[i..][1..] == row[i + 1..];
    } else {
      assert row[i..][0] == row[i];
    }
  }

  lemma RowMask(schema: Schema, row: Row, rest: Bytes)
    requires |schema| <= 64 && RowFits(schema, row)
    ensures var bs := EncodeRow(schema, row) + rest;
            DecodeUInt64(bs[..8]) == NullBits(row) && bs[8..] == EncodeColumns(schema, row, 0) + rest
  {
    NullBitsFit(row);
    UInt64RoundTrip(NullBits(row));
    Slices(ToBytes(NullBits(row), 8), EncodeColumns(schema, row, 0), rest);
  }

  lemma NullBitsIsMask(row: Row)
    ensures IsMask(NullBits(row), row)
  {
    forall j | 0 <= j < |row| ensures Bit(NullBits(row), j) <==> row[j].Null? {
      NullBitsMeaning(row, j);
    }
  }

  /** A stored row is read back, whatever bytes follow it, if the codec is faithful to its values. */
  lemma RowRoundTrip(schema: Schema, row: Row, rest: Bytes)
    requires |schema| <= 64 && RowFits(schema, row) && RowFaithful(schema, row)
    ensures var bs := EncodeRow(schema, row);
            DecodeRow(schema, bs + rest) == Some((row, |bs|))
  {
    RowMask(schema, row, rest);
    NullBitsIsMask(row);
    FaithfulColumns(schema, row, NullBits(row), 0, rest);
    assert row[0..] == row;
  }

  /** ... and only then. */
  lemma RowRoundTripOnlyIf(schema: Schema, row: Row, rest: Bytes)
    requires |schema| <= 64 && RowFits(schema, row) && !RowFaithful(schema, row)
    ensures var r := DecodeRow(schema, EncodeRow(schema, row) + rest);
            r.Some? ==> r.value.0 != row
  {
    RowMask(schema, row, rest);
    NullBitsIsMask(row);
    var at := FirstUnfaithful(schema, row, 0);
    UnfaithfulColumns(schema, row, NullBits(row), 0, at, rest);
    assert row[0..] == row;
  }

  lemma FirstUnfaithful(schema: Schema, row: Row, i: nat) returns (at: nat)
    requires |schema| == |row| && exists j :: i <= j < |row| && !Faithful(schema[j], row[j])
    ensures i <= at < |row| && !Faithful(schema[at], row[at])
    ensures forall j :: i <= j < at ==> Faithful(schema[j], row[j])
    decreases |row| - i
  {
    if Faithful(schema[i], row[i]) {
      at := FirstUnfaithful(schema, row, i + 1);
    } else {
      at := i;
    }
  }

  // ----- Sizes -----

  /** The bytes of a column without the characters of a string. */
  function FixedSize(col: Column): nat {
    match col.typ
    case Boolean => 1
    case UInt64 => 8
    case Int64 => 8
    case Varchar => col.length
    case String => 1
    case Vector => 0
  }

  function FixedColumns(schema: Schema, nulls: nat): nat {
    if schema == [] then 0
    else (if nulls % 2 == 1 then 0 else FixedSize(schema[0])) + FixedColumns(schema[1..], nulls / 2)
  }

  /** The characters of the strings in the columns from i on. */
  function StringBytes(schema: Schema, row: Row, i: nat): nat
    requires RowFits(schema, row) && i <= |schema|
    decreases |schema| - i
  {
    if i == |schema| then 0
    else (if row[i].Str? && schema[i].typ == String then |row[i].s| else 0) + StringBytes(schema, row, i + 1)
  }

  lemma {:induction false} ColumnsSize(schema: Schema, row: Row, i: nat)
    requires RowFits(schema, row) && i <= |schema|
    ensures |EncodeColumns(schema, row, i)| == FixedColumns(schema[i..], NullBits(row[i..])) + StringBytes(schema, row, i)
    decreases |schema| - i
  {
    if i < |schema| {
      ColumnsSize(schema, row, i + 1);
      assert schema[i..][1..] == schema[i + 1..] && row[i..][1..] == row[i + 1..];
      NullBitsHalves(row[i..]);
    }
  }

  /** Sizing predicts the encoding: the fixed part, with nulls skipped, and the characters of the strings. */
  lemma RowSize(schema: Schema, row: Row)
    requires RowFits(schema, row)
    ensures |EncodeRow(schema, row)| == 8 + FixedColumns(schema, NullBits(row)) + StringBytes(schema, row, 0)
  {
    ColumnsSize(schema, row, 0);
    assert schema[0..] == schema && row[0..] == row;
  }

  predicate NoStrings(schema: Schema) {
    forall i :: 0 <= i < |schema| ==> schema[i].typ != String && schema[i].typ != Vector
  }

  function FixedSpace(schema: Schema): nat {
    8 + FixedColumns(schema, 0)
  }

  /** Without strings, any bytes of the fixed size decode to a row that the codec preserves. */
  lemma {:induction false} FixedColumnsDecode(schema: Schema, nulls: nat, i: nat, bs: Bytes)
    requires NoStrings(schema) && i <= |schema| && |bs| >= FixedColumns(schema[i..], 0)
    ensures var r := DecodeColumns(schema, nulls, i, bs);
            r.Some? && forall j :: 0 <= j < |r.value.0| ==> Faithful(schema[i + j], r.value.0[j])
    decreases |schema| - i
  {
    if i < |schema| {
      assert schema[i..][1..] == schema[i + 1..];
      FirstFaithful(schema, nulls, i, bs);
      var n := DecodeFirst(schema, nulls, i, bs).value.1;
      FixedColumnsDecode(schema, nulls, i + 1, bs[n..]);
    }
  }

  lemma FirstFaithful(schema: Schema, nulls: nat, i: nat, bs: Bytes)
    requires NoStrings(schema) && i < |schema| && |bs| >= FixedSize(schema[i])
    ensures var r := DecodeFirst(schema, nulls, i, bs);
            r.Some? && r.value.1 <= FixedSize(schema[i]) && Faithful(schema[i], r.value.0)
  {
  }

  lemma FixedRowDecodes(schema: Schema, bs: Bytes)
    requires NoStrings(schema) && |bs| >= FixedSpace(schema)
    ensures var r := DecodeRow(schema, bs); r.Some? && RowFaithful(schema, r.value.0)
  {
    assert schema[0..] == schema;
    FixedColumnsDecode(schema, DecodeUInt64(bs[..8]), 0, bs[8..]);
  }

  lemma {:induction false} FixedColumnsMost(schema: Schema, nulls: nat)
    ensures FixedColumns(schema, nulls) <= FixedColumns(schema, 0)
  {
    if schema != [] {
      FixedColumnsMost(schema[1..], nulls / 2);
    }
  }

  lemma {:induction false} NoStringBytes(schema: Schema, row: Row, i: nat)
    requires NoStrings(schema) && RowFits(schema, row) && i <= |schema|
    ensures StringBytes(schema, row, i) == 0
    decreases |schema| - i
  {
    if i < |schema| {
      NoStringBytes(schema, row, i + 1);
    }
  }

  /** Without strings, a row takes at most the fixed size. */
  lemma FixedRowSize(schema: Schema, row: Row)
    requires NoStrings(schema) && RowFits(schema, row)
    ensures |EncodeRow(schema, row)| <= FixedSpace(schema)
  {
    RowSize(schema, row);
    NoStringBytes(schema, row, 0);
    FixedColumnsMost(schema, NullBits(row));
  }

  /** bs starts with the columns from i on of some row; they are columns. */
  ghost predicate DecodesTo(schema: Schema, nulls: nat, i: nat, bs: Bytes, columns: Row)
    requires i <= |schema|
  {
    var r := DecodeColumns(schema, nulls, i, bs);
    r.Some? && r.value.0 == columns
  }

  lemma DecodesToStep(schema: Schema, nulls: nat, i: nat, bs: Bytes, row: Row, v: Value, n: nat)
    requires i < |schema| == |row| && DecodesTo(schema, nulls, i, bs, row[i..])
    requires DecodeFirst(schema, nulls, i, bs) == Some((v, n))
    ensures v == row[i] && DecodesTo(schema, nulls, i + 1, bs[n..], row[i + 1..])
  {
    DecodeStep(schema, nulls, i, bs, v, n);
    assert row[i..][0] == row[i] && row[i..][1..] == row[i + 1..];
  }

  ghost predicate Written(was: Bytes, at: nat, bs: Bytes, now: Bytes) {
    at + |bs| <= |was| && now == Overwrite(was, at, bs)
  }

  lemma WrittenStep(was: Bytes, at: nat, a: Bytes, mid: Bytes, b: Bytes, now: Bytes)
    requires Written(was, at, a, mid) && Written(mid, at + |a|, b, now)
    ensures Written(was, at, a + b, now)
  {
    OverwriteConcat(was, at, a, b);
  }

  lemma NextPiece(whole: Bytes, n: nat, bs: Bytes, rest: Bytes)
    requires n <= |whole| && whole[n..] == bs + rest
    ensures n + |bs| <= |whole| && whole[n + |bs|..] == rest && whole[..n + |bs|] == whole[..n] + bs
  {
    assert whole == whole[..n] + (bs + rest);
  }

  // ----- The codec on a buffer -----

  class Marshaller {
    const schema: Schema

    constructor (schema: Schema)
      requires Supported(schema)
      ensures this.schema == schema
    {
      this.schema := schema;
    }

    method GetNulls(row: Row) returns (nulls: nat)
      ensures nulls == NullBits(row)
    {
      nulls := 0;
      var bit := 1;
      for index := 0 to |row|
        invariant nulls == NullBits(row[..index]) && bit == Power2(index)
      {
        NullBitsAppend(row[..index], row[index]);
        assert row[..index + 1] == row[..index] + [row[index]];
        if row[index].Null? {
          nulls := nulls + bit;
        }
        bit := 2 * bit;
      }
      assert row[..|row|] == row;
    }

    method CalculateFixedRowSpace(nulls: nat) returns (result: nat)
      ensures result == 8 + FixedColumns(schema, nulls)
    {
      result := 8;
      var mask := nulls;
      for i := 0 to |schema|
        invariant result + FixedColumns(schema[i..], mask) == 8 + FixedColumns(schema, nulls)
      {
        assert schema[i..][1..] == schema[i + 1..];
        if mask % 2 == 0 {
          result := result + FixedSize(schema[i]);
        }
        mask := mask / 2;
      }
    }

    /** The bytes that SerializeRow writes. */
    method GetRowSpace(row: Row) returns (result: nat)
      requires RowFits(schema, row)
      ensures result == |EncodeRow(schema, row)|
    {
      var nulls := GetNulls(row);
      result := CalculateFixedRowSpace(nulls);
      RowSize(schema, row);
      for index := 0 to |schema|
        invariant result + StringBytes(schema, row, index) == |EncodeRow(schema, row)|
      {
        NullBitsMeaning(row, index);
        if !Bit(nulls, index) && schema[index].typ == String {
          result := result + |row[index].s|;
        }
      }
    }

    /** Writes row at position at and nothing else; end is the position after it. */
    method SerializeRow(data: array<byte>, at: nat, row: Row) returns (end: nat)
      requires RowFits(schema, row) && |row| < 64
      requires at + |EncodeRow(schema, row)| <= data.Length
      modifies data
      ensures end == at + |EncodeRow(schema, row)|
      ensures data[..] == Overwrite(old(data[..]), at, EncodeRow(schema, row))
    {
      var nulls := GetNulls(row);
      Store(data, at, nulls, 8);
      ghost var mid := data[..];
      end := SerializeColumns(data, at + 8, nulls, row);
      WrittenStep(old(data[..]), at, ToBytes(nulls, 8), mid, EncodeColumns(schema, row, 0), data[..]);
    }

    method SerializeColumns(data: array<byte>, at: nat, nulls: nat, row: Row) returns (end: nat)
      requires RowFits(schema, row) && nulls == NullBits(row)
      requires at + |EncodeColumns(schema, row, 0)| <= data.Length
      modifies data
      ensures end == at + |EncodeColumns(schema, row, 0)|
      ensures Written(old(data[..]), at, EncodeColumns(schema, row, 0), data[..])
    {
      end := at;
      hide EncodeColumn;
      ghost var whole, n: nat := EncodeColumns(schema, row, 0), 0;
      assert Written(old(data[..]), at, [], data[..]) && whole[..0] == [] && whole[0..] == whole;
      for index := 0 to |schema|
        invariant n <= |whole| && end == at + n && whole[n..] == EncodeColumns(schema, row, index)
        invariant Written(old(data[..]), at, whole[..n], data[..])
      {
        ghost var before, bs := data[..], EncodeColumn(schema[index], row[index]);
        NextPiece(whole, n, bs, EncodeColumns(schema, row, index + 1));
        end := SerializeNext(data, end, nulls, row, index);
        WrittenStep(old(data[..]), at, whole[..n], before, bs, data[..]);
        n := n + |bs|;
      }
      assert whole[..n] == whole;
    }

    method SerializeNext(data: array<byte>, at: nat, nulls: nat, row: Row, index: nat) returns (end: nat)
      requires RowFits(schema, row) && nulls == NullBits(row) && index < |schema|
      requires at + |EncodeColumn(schema[index], row[index])| <= data.Length
      modifies data
      ensures end == at + |EncodeColumn(schema[index], row[index])|
      ensures Written(old(data[..]), at, EncodeColumn(schema[index], row[index]), data[..])
    {
      NullBitsMeaning(row, index);
      end := at;
      if !Bit(nulls, index) {
        end := SerializeColumn(data, at, schema[index], row[index]);
      }
    }

    static method SerializeColumn(data: array<byte>, at: nat, col: Column, v: Value) returns (end: nat)
      requires Fits(col, v) && !v.Null? && at + |EncodeColumn(col, v)| <= data.Length
      modifies data
      ensures end == at + |EncodeColumn(col, v)|
      ensures data[..] == Overwrite(old(data[..]), at, EncodeColumn(col, v))
    {
      match col.typ
      case Boolean =>
        data[at] := if v.b then 1 else 0;
        end := at + 1;
      case UInt64 =>
        Store(data, at, v.u, 8);
        end := at + 8;
      case Int64 =>
        Store(data, at, Unsigned64(v.i), 8);
        end := at + 8;
      case Varchar =>
        WriteText(data, at, v.s);
        WriteZeros(data, at + |v.s|, col.length - |v.s|);
        OverwriteConcat(old(data[..]), at, v.s, Zeros(col.length - |v.s|));
        end := at + col.length;
      case String =>
        data[at] := |v.s| % 256;
        assert data[..] == Overwrite(old(data[..]), at, [|v.s| % 256]);
        WriteText(data, at + 1, v.s);
        OverwriteConcat(old(data[..]), at, [|v.s| % 256], v.s);
        end := at + 1 + |v.s|;
    }

    static method WriteText(data: array<byte>, at: nat, s: Text)
      requires at + |s| <= data.Length
      modifies data
      ensures data[..] == Overwrite(old(data[..]), at, s)
    {
      for i := 0 to |s|
        invariant forall j :: 0 <= j < i ==> data[at + j] == s[j]
        invariant forall j :: 0 <= j < data.Length && !(at <= j < at + i) ==> data[j] == old(data[j])
      {
        data[at + i] := s[i];
      }
      assert data[..] == Overwrite(old(data[..]), at, s);
    }

    static method WriteZeros(data: array<byte>, at: nat, n: nat)
      requires at + n <= data.Length
      modifies data
      ensures data[..] == Overwrite(old(data[..]), at, Zeros(n))
    {
      forall i | 0 <= i < n { data[at + i] := 0; }
      assert data[..] == Overwrite(old(data[..]), at, Zeros(n));
    }

    /** Reads the row at position at, where the buffer holds one. */
    method DeserializeRow(data: array<byte>, at: nat) returns (row: Row)
      requires |schema| < 64 && at <= data.Length && DecodeRow(schema, data[at..]).Some?
      ensures row == DecodeRow(schema, data[at..]).value.0
    {
      hide DecodeFirst;
      ghost var whole := DecodeRow(schema, data[at..]).value.0;
      assert data[at..][..8] == data[at..at + 8] && data[at..][8..] == data[at + 8..];
      var nulls := Load(data, at, 8);
      FromBytesBound(data[at..at + 8]);
      Limits();
      var pos: nat := at + 8;
      row := [];
      for index := 0 to |schema|
        invariant pos <= data.Length && DecodesTo(schema, nulls, index, data[pos..], whole[index..])
        invariant row == whole[..index]
      {
        var v, n := DeserializeNext(data, pos, nulls, index);
        DecodesToStep(schema, nulls, index, data[pos..], whole, v, n);
        row, pos := row + [v], pos + n;
      }
    }

    method DeserializeNext(data: array<byte>, at: nat, nulls: nat, index: nat) returns (v: Value, n: nat)
      requires index < |schema| && at <= data.Length && DecodeFirst(schema, nulls, index, data[at..]).Some?
      ensures DecodeFirst(schema, nulls, index, data[at..]) == Some((v, n)) && data[at..][n..] == data[at + n..]
    {
      v, n := Null, 0;
      if !Bit(nulls, index) {
        v, n := DeserializeColumn(data, at, schema[index]);
      }
    }

    static method DeserializeColumn(data: array<byte>, at: nat, col: Column) returns (v: Value, n: nat)
      requires at <= data.Length && DecodeColumn(col, data[at..]).Some?
      ensures (v, n) == DecodeColumn(col, data[at..]).value
    {
      match col.typ
      case Boolean =>
        v, n := Bool(data[at] != 0), 1;
      case UInt64 =>
        assert data[at..][..8] == data[at..at + 8];
        v, n := UInt(DecodeUInt64(data[at..at + 8])), 8;
      case Int64 =>
        assert data[at..][..8] == data[at..at + 8];
        v, n := Int(Signed64(DecodeUInt64(data[at..at + 8]))), 8;
      case Varchar =>
        assert data[at..][..col.length] == data[at..at + col.length];
        v, n := Str(UntilNul(data[at..at + col.length])), col.length;
      case String =>
        var length := data[at] as nat;
        assert data[at..][1..][..length] == data[at + 1..at + 1 + length];
        v, n := Str(data[at + 1..at + 1 + length]), 1 + length;
    }
  }

  // ----- Rows one after another -----

  function EncodeRows(schema: Schema, rows: seq<Row>): Bytes
    requires forall i :: 0 <= i < |rows| ==> RowFits(schema, rows[i])
  {
    if rows == [] then [] else EncodeRow(schema, rows[0]) + EncodeRows(schema, rows[1..])
  }

  function RowLengths(schema: Schema, rows: seq<Row>): seq<nat>
    requires forall i :: 0 <= i < |rows| ==> RowFits(schema, rows[i])
  {
    if rows == [] then [] else [|EncodeRow(schema, rows[0])|] + RowLengths(schema, rows[1..])
  }

  /** The client's loop: decode a row, advance by its length. None where a row runs past the end. */
  function DecodeRows(schema: Schema, lengths: seq<nat>, bs: Bytes): Option<seq<Row>>
    decreases |lengths|
  {
    if lengths == [] then Some([])
    else
      var row := DecodeRow(schema, bs);
      if row.None? || |bs| < lengths[0] then None
      else
        var rest := DecodeRows(schema, lengths[1..], bs[lengths[0]..]);
        if rest.None? then None else Some([row.value.0] + rest.value)
  }

  /** Concatenated rows and the list of their lengths decode to the same rows. */
  lemma {:induction false} RowsRoundTrip(schema: Schema, rows: seq<Row>)
    requires |schema| <= 64
    requires forall i :: 0 <= i < |rows| ==> RowFits(schema, rows[i]) && RowFaithful(schema, rows[i])
    ensures DecodeRows(schema, RowLengths(schema, rows), EncodeRows(schema, rows)) == Some(rows)
  {
    hide DecodeRow, EncodeRow, RowFits, RowFaithful;
    if rows != [] {
      var first, others := EncodeRow(schema, rows[0]), EncodeRows(schema, rows[1..]);
      RowsRoundTrip(schema, rows[1..]);
      RowRoundTrip(schema, rows[0], others);
      assert (first + others)[|first|..] == others;
      assert rows == [rows[0]] + rows[1..];
    }
  }
}
