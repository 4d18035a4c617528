/** Values, rows and row identifiers (lib/sql/row.h). */
module Rows {

  datatype Option<+T> = None | Some(value: T)

  type byte = x: int | 0 <= x < 256

  /** The bytes of a std::string. */
  type Text = seq<byte>

  const TWO_63: int := 0x8000_0000_0000_0000
  const TWO_64: int := 0x1_0000_0000_0000_0000

  type uint64 = x: int | 0 <= x < TWO_64
  type int64 = x: int | -TWO_63 <= x < TWO_63
  type int32 = x: int | -0x8000_0000 <= x < 0x8000_0000

  /** The alternatives of the variant, in its declaration order. */
  datatype Kind = NullKind | BoolKind | UIntKind | IntKind | StrKind

  datatype Value = Null | Bool(b: bool) | UInt(u: uint64) | Int(i: int64) | Str(s: Text)
  {
    function Kind(): Kind {
      match this
      case Null => NullKind
      case Bool(_) => BoolKind
      case UInt(_) => UIntKind
      case Int(_) => IntKind
      case Str(_) => StrKind
    }
  }

  type Row = seq<Value>

  /** One type shape: the same number of columns and the same alternative in each. */
  predicate SameShape(a: Row, b: Row) {
    |a| == |b| && forall i :: 0 <= i < |a| ==> a[i].Kind() == b[i].Kind()
  }

  datatype RowId = RowId(page: int32, row: int32)
}
