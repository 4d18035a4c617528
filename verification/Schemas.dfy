/** Table schemas (lib/sql/schema.h). */
module Schemas {
  import opened Rows

  type uint32 = x: int | 0 <= x < 0x1_0000_0000

  datatype Type = Boolean | UInt64 | Int64 | Varchar | String | Vector

  datatype Column = Column(name: Text, typ: Type, length: uint32)

  type Schema = seq<Column>
}
