/** Schemas, and rows as fixed-width bytes. */
module Record {
  import opened Common
  import opened FileManager

  datatype DataType = INT | STRING

  datatype Column = Column(name: string, tp: DataType, length: nat)

  type Schema = seq<Column>

  const INT_SIZE: nat := 4
  const TWO_32: nat := 0x1_0000_0000

  function Width(c: Column): nat { if c.tp == INT then INT_SIZE else c.length }

  /** Where column n starts; for n == |s|, the size of a record. */
  function Offset(s: Schema, n: nat): nat
    requires n <= |s|
  {
    if n == 0 then 0 else Offset(s, n - 1) + Width(s[n - 1])
  }

  function RecordSize(s: Schema): nat { Offset(s, |s|) }

  /** The schema's constructor: fails (the source throws) on a STRING without a length. */
  method NewSchema(cols: seq<Column>) returns (ok: bool, recordSize: nat)
    ensures ok <==> forall i :: 0 <= i < |cols| && cols[i].tp == STRING ==> cols[i].length > 0
    ensures ok ==> recordSize == RecordSize(cols)
  {
    recordSize := 0;
    for i := 0 to |cols|
      invariant recordSize == Offset(cols, i)
      invariant forall j :: 0 <= j < i && cols[j].tp == STRING ==> cols[j].length > 0
    {
      match cols[i].tp
      case INT => recordSize := recordSize + INT_SIZE;
      case STRING =>
        if cols[i].length == 0 { return false, 0; }
        recordSize := recordSize + cols[i].length;
    }
    return true, recordSize;
  }

  // ---------- fields ----------

  /** The characters of a std::string are bytes. */
  predicate Bytes(s: string) { forall i :: 0 <= i < |s| ==> s[i] as int < 256 }

  /** What the validating constructor of a record lets through (and the types of the
      source: 32-bit integers, strings of bytes). */
  predicate FieldOk(c: Column, v: FieldValue) {
    match c.tp
    case INT => v.IntV? && -0x8000_0000 <= v.i < 0x8000_0000
    case STRING => v.StrV? && |v.s| <= c.length && Bytes(v.s)
  }

  predicate RowOk(s: Schema, row: Row) {
    |row| == |s| && forall i :: 0 <= i < |s| ==> FieldOk(s[i], row[i])
  }

  function LowByte(u: int): Byte { u % 256 }

  /** An int32 in two's complement, low byte first. */
  function IntBytes(v: int): (b: seq<Byte>)
    ensures |b| == INT_SIZE
  {
    var u0 := v % TWO_32;
    var u1 := u0 / 256;
    var u2 := u1 / 256;
    [LowByte(u0), LowByte(u1), LowByte(u2), LowByte(u2 / 256)]
  }

  function BytesInt(b: seq<Byte>): int
    requires |b| == INT_SIZE
  {
    var b0: int, b1: int, b2: int, b3: int := b[0], b[1], b[2], b[3];
    var u := b0 + 256 * (b1 + 256 * (b2 + 256 * b3));
    if u < 0x8000_0000 then u else u - TWO_32
  }

  lemma IntRoundTrip(v: int)
    requires -0x8000_0000 <= v < 0x8000_0000
    ensures BytesInt(IntBytes(v)) == v
  {
    var u0 := v % TWO_32;
    var u1 := u0 / 256;
    var u2 := u1 / 256;
    var u3 := u2 / 256;
    assert u0 == if v >= 0 then v else v + TWO_32;
    assert u0 == 256 * u1 + LowByte(u0) && u1 == 256 * u2 + LowByte(u1) && u2 == 256 * u3 + LowByte(u2);
    assert u3 < 256 && LowByte(u3) == u3;
  }

  function StringBytes(s: string): (b: seq<Byte>)
    requires Bytes(s)
    ensures |b| == |s|
  {
    seq(|s|, i requires 0 <= i < |s| => s[i] as int)
  }

  function CharsOf(b: seq<Byte>): string {
    seq(|b|, i requires 0 <= i < |b| => b[i] as char)
  }

  /** Everything before the first NUL. */
  function Cut(s: string): string {
    if s == [] || s[0] == '\0' then [] else [s[0]] + Cut(s[1..])
  }

  function FieldBytes(c: Column, v: FieldValue): (b: seq<Byte>)
    requires FieldOk(c, v)
    ensures |b| == Width(c)
  {
    match v
    case IntV(i) => IntBytes(i)
    case StrV(s) => StringBytes(s) + ZeroBytes(c.length - |s|)
  }

  function FieldOf(c: Column, b: seq<Byte>): FieldValue
    requires |b| == Width(c)
  {
    if c.tp == INT then IntV(BytesInt(b)) else StrV(Cut(CharsOf(b)))
  }

  function CutField(v: FieldValue): FieldValue {
    if v.StrV? then StrV(Cut(v.s)) else v
  }

  lemma {:induction false} CutPadded(s: string, b: seq<Byte>)
    requires Bytes(s) && |b| >= |s|
    requires (forall i :: 0 <= i < |s| ==> b[i] == s[i] as int) && (forall i :: |s| <= i < |b| ==> b[i] == 0)
    ensures Cut(CharsOf(b)) == Cut(s)
    decreases |s|
  {
    var t := CharsOf(b);
    if s != [] && s[0] != '\0' {
      assert t[1..] == CharsOf(b[1..]) && t[0] == s[0];
      CutPadded(s[1..], b[1..]);
    } else if b != [] {
      assert t[0] == '\0';
    }
  }

  lemma FieldRoundTrip(c: Column, v: FieldValue)
    requires FieldOk(c, v)
    ensures FieldOf(c, FieldBytes(c, v)) == CutField(v)
  {
    match v
    case IntV(i) => IntRoundTrip(i);
    case StrV(s) => CutPadded(s, FieldBytes(c, v));
  }

  predicate NulFree(s: string) { '\0' !in s }

  lemma {:induction false} CutNulFree(s: string)
    ensures Cut(s) == s <==> NulFree(s)
    ensures |Cut(s)| <= |s| && (Bytes(s) ==> Bytes(Cut(s)))
  {
    if s != [] {
      CutNulFree(s[1..]);
      assert s == [s[0]] + s[1..];
      if s[0] != '\0' { assert Cut(s)[1..] == Cut(s[1..]); }
    }
  }

  /** The bytes, as they stand in the page. */
  lemma ByteFormat()
    ensures IntBytes(1) == [1, 0, 0, 0] && IntBytes(0x01020304) == [4, 3, 2, 1] && IntBytes(-2) == [254, 255, 255, 255]
    ensures FieldBytes(Column("c", STRING, 4), StrV("ab")) == [97, 98, 0, 0]
  {
  }

  /** The record size is four bytes for each INT and the length of each STRING. */
  lemma RecordSizeIs(s: Schema, c: Column)
    ensures RecordSize([]) == 0
    ensures RecordSize(s + [c]) == RecordSize(s) + if c.tp == INT then 4 else c.length
  {
    SameOffset(s, c, |s|);
  }

  lemma {:induction false} SameOffset(s: Schema, c: Column, n: nat)
    requires n <= |s|
    ensures Offset(s + [c], n) == Offset(s, n)
  {
    if n > 0 { SameOffset(s, c, n - 1); }
  }

  // ---------- rows ----------

  function Encode(s: Schema, row: Row, n: nat): (b: seq<Byte>)
    requires RowOk(s, row) && n <= |s|
    ensures |b| == Offset(s, n)
  {
    if n == 0 then [] else Encode(s, row, n - 1) + FieldBytes(s[n - 1], row[n - 1])
  }

  lemma {:induction false} OffsetUp(s: Schema, m: nat, n: nat)
    requires m <= n <= |s|
    ensures Offset(s, m) <= Offset(s, n)
  {
    if m < n { OffsetUp(s, m, n - 1); }
  }

  function FieldAt(s: Schema, b: seq<Byte>, i: nat): (f: seq<Byte>)
    requires i < |s| && |b| >= RecordSize(s)
    ensures |f| == Width(s[i])
  {
    OffsetUp(s, i + 1, |s|);
    b[Offset(s, i)..Offset(s, i + 1)]
  }

  function Decode(s: Schema, b: seq<Byte>): (row: Row)
    requires |b| >= RecordSize(s)
    ensures |row| == |s|
  {
    seq(|s|, i requires 0 <= i < |s| => FieldOf(s[i], FieldAt(s, b, i)))
  }

  function Serialized(s: Schema, row: Row): (b: seq<Byte>)
    requires RowOk(s, row)
    ensures |b| == RecordSize(s)
  {
    Encode(s, row, |s|)
  }

  function CutRow(row: Row): (r: Row)
    ensures |r| == |row|
  {
    seq(|row|, i requires 0 <= i < |row| => CutField(row[i]))
  }

  lemma {:induction false} EncodePrefix(s: Schema, row: Row, m: nat, n: nat)
    requires RowOk(s, row) && m <= n <= |s|
    ensures Encode(s, row, m) <= Encode(s, row, n)
    decreases n
  {
    hide RowOk, FieldOk, FieldBytes;
    if m < n { EncodePrefix(s, row, m, n - 1); }
  }

  /** Column i occupies the bytes from the sum of the widths before it. */
  lemma ColumnPlace(s: Schema, row: Row, i: nat)
    requires RowOk(s, row) && i < |s|
    ensures FieldAt(s, Serialized(s, row), i) == FieldBytes(s[i], row[i])
  {
    OffsetUp(s, i + 1, |s|);
    EncodePrefix(s, row, i + 1, |s|);
    var b := Serialized(s, row);
    assert b[..Offset(s, i + 1)] == Encode(s, row, i + 1) == Encode(s, row, i) + FieldBytes(s[i], row[i]);
    assert b[Offset(s, i)..Offset(s, i + 1)] == b[..Offset(s, i + 1)][Offset(s, i)..];
  }

  /** Reading back what was written gives the row with each string cut at its first NUL:
      the row itself exactly if no string has one. */
  lemma RowRoundTrip(s: Schema, row: Row)
    requires RowOk(s, row)
    ensures Decode(s, Serialized(s, row)) == CutRow(row)
    ensures Decode(s, Serialized(s, row)) == row <==> forall i :: 0 <= i < |row| && row[i].StrV? ==> NulFree(row[i].s)
    ensures RowOk(s, CutRow(row))
  {
    hide Serialized, FieldAt, FieldBytes, FieldOf, Cut;
    var d, c := Decode(s, Serialized(s, row)), CutRow(row);
    forall i | 0 <= i < |s|
      ensures d[i] == c[i] && FieldOk(s[i], c[i])
      ensures c[i] == row[i] <==> (row[i].StrV? ==> NulFree(row[i].s))
    {
      ColumnPlace(s, row, i);
      FieldRoundTrip(s[i], row[i]);
      if row[i].StrV? { CutNulFree(row[i].s); }
    }
    assert d == c;
    if d != row {
      assert exists i :: 0 <= i < |row| && c[i] != row[i];
    }
  }

  // ---------- the loops ----------

  /** memcpy into a buffer. */
  method Copy(buffer: array<Byte>, offset: nat, b: seq<Byte>)
    requires offset + |b| <= buffer.Length
    modifies buffer
    ensures buffer[..] == old(buffer[..offset]) + b + old(buffer[offset + |b|..])
  {
    for i := 0 to |b|
      invariant buffer[..] == old(buffer[..offset]) + b[..i] + old(buffer[offset + i..])
    {
      buffer[offset + i] := b[i];
      assert b[..i + 1] == b[..i] + [b[i]];
    }
    assert b[..|b|] == b;
  }

  method PutField(buffer: array<Byte>, offset: nat, c: Column, v: FieldValue)
    requires FieldOk(c, v) && offset + Width(c) <= buffer.Length
    modifies buffer
    ensures buffer[..offset + Width(c)] == old(buffer[..offset]) + FieldBytes(c, v)
  {
    match v
    case IntV(i) => Copy(buffer, offset, IntBytes(i));
    case StrV(str) =>
      Copy(buffer, offset, StringBytes(str));
      assert buffer[..offset + |str|] == old(buffer[..offset]) + StringBytes(str);
      Copy(buffer, offset + |str|, ZeroBytes(c.length - |str|));
  }

  /** Fails (the source throws) if the row does not fit the schema. */
  method Serialize(s: Schema, row: Row) returns (ok: bool, buffer: array<Byte>)
    ensures ok <==> RowOk(s, row)
    ensures ok <==> |row| == |s| && forall i :: 0 <= i < |s| ==>
              if s[i].tp == INT then row[i].IntV? && -0x8000_0000 <= row[i].i < 0x8000_0000
              else
                row[i].StrV? && |row[i].s| <= s[i].length
                && forall k :: 0 <= k < |row[i].s| ==> row[i].s[k] as int < 256
    ensures ok ==> fresh(buffer) && buffer[..] == Serialized(s, row)
  {
    FitsExact(s, row);
    if |row| != |s| || exists i :: 0 <= i < |s| && !FieldOk(s[i], row[i]) { return false, new Byte[0]; }
    buffer := WriteRow(s, row);
    return true, buffer;
  }

  lemma FitsExact(s: Schema, row: Row)
    ensures RowOk(s, row) <==> |row| == |s| && forall i :: 0 <= i < |s| ==> FieldOk(s[i], row[i])
  {
  }

  method WriteRow(s: Schema, row: Row) returns (buffer: array<Byte>)
    requires RowOk(s, row)
    ensures fresh(buffer) && buffer[..] == Serialized(s, row)
  {
    hide FieldOk, FieldBytes, Width;
    buffer := new Byte[RecordSize(s)](_ => 0);
    var offset := 0;
    for i := 0 to |s|
      invariant offset == Offset(s, i) <= buffer.Length
      invariant buffer[..offset] == Encode(s, row, i)
      invariant buffer.Length == RecordSize(s)
    {
      OffsetUp(s, i + 1, |s|);
      PutField(buffer, offset, s[i], row[i]);
      offset := offset + Width(s[i]);
    }
    assert buffer[..offset] == buffer[..];
  }

  method GetField(c: Column, b: seq<Byte>) returns (v: FieldValue)
    requires |b| == Width(c)
    ensures v == FieldOf(c, b)
  {
    if c.tp == INT { return IntV(BytesInt(b)); }
    var str := CharsOf(b);
    var pos := 0;
    while pos < |str| && str[pos] != '\0'
      invariant pos <= |str| && Cut(str) == str[..pos] + Cut(str[pos..])
    {
      assert str[pos..][1..] == str[pos + 1..] && str[..pos + 1] == str[..pos] + [str[pos]];
      pos := pos + 1;
    }
    assert Cut(str[pos..]) == [] && str[..pos] + [] == str[..pos];
    return StrV(str[..pos]);
  }

  method Deserialize(s: Schema, buffer: seq<Byte>) returns (values: Row)
    requires |buffer| >= RecordSize(s)
    ensures values == Decode(s, buffer)
  {
    hide FieldOf, Width, FieldAt, Decode;
    var offset := 0;
    values := [];
    for i := 0 to |s|
      invariant offset == Offset(s, i) && |values| == i
      invariant forall j :: 0 <= j < i ==> values[j] == FieldOf(s[j], FieldAt(s, buffer, j))
    {
      OffsetUp(s, i + 1, |s|);
      FieldAtIs(s, buffer, i);
      var v := GetField(s[i], buffer[offset..offset + Width(s[i])]);
      values := values + [v];
      offset := offset + Width(s[i]);
    }
    DecodeIs(s, buffer, values);
  }

  lemma FieldAtIs(s: Schema, b: seq<Byte>, i: nat)
    requires i < |s| && |b| >= RecordSize(s)
    ensures Offset(s, i) + Width(s[i]) <= |b| && FieldAt(s, b, i) == b[Offset(s, i)..Offset(s, i) + Width(s[i])]
  {
    OffsetUp(s, i + 1, |s|);
  }

  lemma DecodeIs(s: Schema, b: seq<Byte>, row: Row)
    requires |b| >= RecordSize(s) && |row| == |s|
    requires forall i :: 0 <= i < |s| ==> row[i] == FieldOf(s[i], FieldAt(s, b, i))
    ensures row == Decode(s, b)
  {
  }
}
