/** Values shared by the storage, transaction and query modules. */
module Common {
  datatype Option<+T> = None | Some(value: T)

  /** Where a record lives: page and slot within its table file. */
  datatype RecordID = RecordID(pageId: int, slotNum: int)

  /** A field is an int32 or a string. */
  datatype FieldValue = IntV(i: int) | StrV(s: string)

  type Row = seq<FieldValue>

  function Digit(d: nat): char
    requires d < 10
  {
    '0' + d as char
  }

  /** std::to_string of a non-negative number. */
  function Decimal(n: nat): string {
    if n < 10 then [Digit(n)] else Decimal(n / 10) + [Digit(n % 10)]
  }
}
