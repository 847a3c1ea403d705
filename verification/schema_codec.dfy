/** Schemas as bytes: a column count, then name, type and length of each column. */
module SchemaCodec {
  import opened Bytes
  import opened Options
  import opened Schemas
  import opened TupleCodec

  datatype DecodeError = NoCount | NoColumn | NoNameLength | NoBody | UnknownType

  datatype Decoded<+T> = Ok(value: T) | Err(error: DecodeError)

  /** A column and the 16-bit count of bytes it took. */
  datatype Taken = Taken(column: Column, size: nat)

  function TypeCode(t: TypeId): (n: nat)
    ensures n < 10 && TypeOfCode(n) == Some(t)
  {
    match t
    case INT32 => 0 case INT64 => 1 case UINT32 => 2 case UINT64 => 3 case FLOAT => 4
    case DOUBLE => 5 case BOOL => 6 case CHAR => 7 case VARCHAR => 8 case VARBINARY => 9
  }

  function TypeOfCode(n: nat): Option<TypeId> {
    match n
    case 0 => Some(INT32) case 1 => Some(INT64) case 2 => Some(UINT32) case 3 => Some(UINT64) case 4 => Some(FLOAT)
    case 5 => Some(DOUBLE) case 6 => Some(BOOL) case 7 => Some(CHAR) case 8 => Some(VARCHAR) case 9 => Some(VARBINARY)
    case _ => None
  }

  predicate ColumnOK(c: Column) { c.length < 0x1_0000 }

  function EncodeColumn(c: Column): seq<byte>
    requires ColumnOK(c)
  {
    PutU16(|c.name| % 0x1_0000) + c.name + PutU16(TypeCode(c.typ)) + PutU16(c.length)
  }

  function DecodeColumn(raw: seq<byte>): Decoded<Taken> {
    if |raw| < 2 then Err(NoNameLength)
    else
      var n := ReadU16(raw, 0);
      if |raw| < 2 + n + 4 then Err(NoBody)
      else
        match TypeOfCode(ReadU16(raw, 2 + n))
        case None => Err(UnknownType)
        case Some(t) => Ok(Taken(Column(raw[2..2 + n], t, ReadU16(raw, 2 + n + 2)), (2 + n + 4) % 0x1_0000))
  }

  /** The types in the order of their codes. */
  const TYPES: seq<TypeId> := [INT32, INT64, UINT32, UINT64, FLOAT, DOUBLE, BOOL, CHAR, VARCHAR, VARBINARY]

  /** The bytes of a column: name length, name, type and declared length, each number low byte first. */
  lemma ColumnBytes(c: Column)
    requires ColumnOK(c)
    ensures var e, n := EncodeColumn(c), |c.name|;
            && |e| == n + 6 && e[2..n + 2] == c.name
            && e[0] as nat == n % 256 && e[1] as nat == n / 256 % 256
            && (e[n + 2] as nat) < |TYPES| && TYPES[e[n + 2]] == c.typ && e[n + 3] == 0
            && e[n + 4] as nat == c.length % 256 && e[n + 5] as nat == c.length / 256
  {
    LengthDigits(|c.name|);
  }

  /** A column is read back with the number of bytes it took, whatever follows it. */
  lemma ColumnRoundTrip(c: Column, rest: seq<byte>)
    requires ColumnOK(c) && |c.name| < 0x1_0000
    ensures DecodeColumn(EncodeColumn(c) + rest) == Ok(Taken(c, |EncodeColumn(c)| % 0x1_0000))
  {
    hide PutU16, ReadU16, TypeCode, TypeOfCode;
    var raw, n := EncodeColumn(c) + rest, |c.name|;
    U16At(raw, 0, n);
    assert raw[2 + n..2 + n + 2] == PutU16(TypeCode(c.typ));
    U16At(raw, 2 + n, TypeCode(c.typ));
    assert raw[2 + n + 2..2 + n + 4] == PutU16(c.length);
    U16At(raw, 2 + n + 2, c.length);
    assert raw[2..2 + n] == c.name;
  }

  lemma U16At(raw: seq<byte>, at: nat, n: nat)
    requires n < 0x1_0000 && at + 2 <= |raw| && raw[at..at + 2] == PutU16(n)
    ensures ReadU16(raw, at) == n
  {
    assert raw[at] == PutU16(n)[0] && raw[at + 1] == PutU16(n)[1];
  }

  predicate ColumnsOK(s: Schema) {
    forall i | 0 <= i < |s| :: ColumnOK(s[i])
  }

  function EncodeColumns(s: Schema): seq<byte>
    requires ColumnsOK(s)
  {
    if s == [] then [] else EncodeColumn(s[0]) + EncodeColumns(s[1..])
  }

  /** Only as many columns as the 16-bit count says are written. */
  function EncodeSchema(s: Schema): seq<byte>
    requires ColumnsOK(s)
  {
    PutU16(|s| % 0x1_0000) + EncodeColumns(s[..|s| % 0x1_0000])
  }

  /** Read `n` columns from `offset` on; the offset has 16 bits. */
  function DecodeColumns(raw: seq<byte>, offset: nat, n: nat): Decoded<Schema>
    decreases n
  {
    if n == 0 then Ok([])
    else if |raw| < offset then Err(NoColumn)
    else
      match DecodeColumn(raw[offset..])
      case Err(e) => Err(e)
      case Ok(t) =>
        match DecodeColumns(raw, (offset + t.size) % 0x1_0000, n - 1)
        case Err(e) => Err(e)
        case Ok(rest) => Ok([t.column] + rest)
  }

  function DecodeSchema(raw: seq<byte>): Decoded<Schema> {
    if |raw| < 2 then Err(NoCount) else DecodeColumns(raw, 2, ReadU16(raw, 0))
  }

  /** Every column starts, and every name is, within 16 bits. */
  predicate Addressable(s: Schema, at: nat)
    requires ColumnsOK(s)
    decreases |s|
  {
    s == [] || (at < 0x1_0000 && |s[0].name| < 0x1_0000 && Addressable(s[1..], at + |EncodeColumn(s[0])|))
  }

  lemma {:induction false} ColumnsRoundTrip(s: Schema, raw: seq<byte>, at: nat)
    requires ColumnsOK(s) && Addressable(s, at) && at <= |raw| && raw[at..] == EncodeColumns(s)
    ensures DecodeColumns(raw, at % 0x1_0000, |s|) == Ok(s)
    decreases |s|
  {
    hide EncodeColumn, DecodeColumn;
    if s != [] {
      var n := |EncodeColumn(s[0])|;
      ColumnRoundTrip(s[0], EncodeColumns(s[1..]));
      assert raw[at + n..] == raw[at..][n..] == EncodeColumns(s[1..]);
      ColumnsRoundTrip(s[1..], raw, at + n);
      OffsetAdds(at, n);
      assert [s[0]] + s[1..] == s;
    }
  }

  lemma OffsetAdds(at: nat, n: nat)
    ensures (at % 0x1_0000 + n % 0x1_0000) % 0x1_0000 == (at + n) % 0x1_0000
  {
  }

  lemma EncodedParts(s: Schema)
    requires ColumnsOK(s) && |s| < 0x1_0000
    ensures var raw := EncodeSchema(s); |raw| >= 2 && ReadU16(raw, 0) == |s| && raw[2..] == EncodeColumns(s)
  {
    hide PutU16, ReadU16, EncodeColumns;
    var raw := EncodeSchema(s);
    assert s[..|s|] == s;
    assert raw[0..2] == PutU16(|s|);
    U16At(raw, 0, |s|);
  }

  /** A schema is read back as it was written. */
  lemma SchemaRoundTrip(s: Schema)
    requires ColumnsOK(s) && |s| < 0x1_0000 && Addressable(s, 2)
    ensures DecodeSchema(EncodeSchema(s)) == Ok(s)
  {
    hide EncodeSchema, EncodeColumns, ReadU16, DecodeColumns, Addressable, ColumnsOK;
    EncodedParts(s);
    ColumnsRoundTrip(s, EncodeSchema(s), 2);
  }

  // ---- where the round trip fails ----

  /** Of a schema with 65536 columns or more only as many are written, and read back, as the 16-bit count says. */
  lemma ManyColumnsAreCut(s: Schema)
    requires ColumnsOK(s) && Addressable(s[..|s| % 0x1_0000], 2)
    ensures DecodeSchema(EncodeSchema(s)) == Ok(s[..|s| % 0x1_0000])
    ensures DecodeSchema(EncodeSchema(s)) == Ok(s) <==> |s| < 0x1_0000
  {
    hide EncodeSchema, DecodeSchema, Addressable;
    var n := |s| % 0x1_0000;
    CutEncoded(s, n);
    SchemaRoundTrip(s[..n]);
    assert |s| < 0x1_0000 ==> s[..n] == s;
  }

  lemma CutEncoded(s: Schema, n: nat)
    requires ColumnsOK(s) && n == |s| % 0x1_0000
    ensures n <= |s| && n < 0x1_0000 && ColumnsOK(s[..n]) && EncodeSchema(s[..n]) == EncodeSchema(s)
  {
    hide EncodeColumns, PutU16;
    assert s[..n][..n] == s[..n];
  }

  lemma {:induction false} ColumnsReadAreShort(raw: seq<byte>, offset: nat, n: nat)
    requires DecodeColumns(raw, offset, n).Ok?
    ensures var s := DecodeColumns(raw, offset, n).value;
            |s| == n && forall i | 0 <= i < n :: |s[i].name| < 0x1_0000
    decreases n
  {
    if n > 0 {
      var t := DecodeColumn(raw[offset..]).value;
      NameReadIsShort(raw[offset..]);
      hide DecodeColumn;
      ColumnsReadAreShort(raw, (offset + t.size) % 0x1_0000, n - 1);
    }
  }

  lemma NameReadIsShort(raw: seq<byte>)
    requires DecodeColumn(raw).Ok?
    ensures |DecodeColumn(raw).value.column.name| < 0x1_0000
  {
    hide TypeOfCode;
  }

  /** No schema with 65536 columns, or a name of 65536 bytes, or more of either, is read back. */
  lemma SchemasReadAreShort(s: Schema)
    requires ColumnsOK(s) && DecodeSchema(EncodeSchema(s)) == Ok(s)
    ensures |s| < 0x1_0000 && forall i | 0 <= i < |s| :: |s[i].name| < 0x1_0000
  {
    hide EncodeSchema, DecodeColumns;
    var raw := EncodeSchema(s);
    ColumnsReadAreShort(raw, 2, ReadU16(raw, 0));
  }

  /**
   * Names within the limit are no guarantee: after a first column of 65534 bytes the 16-bit offset
   * starts again at the beginning, and the second column is given the name that it finds there.
   */
  lemma OffsetsWrapAround(a: Column, b: Column)
    requires ColumnOK(a) && ColumnOK(b) && |a.name| == 65528 && b.name != [248, 255]
    ensures !Addressable([a, b], 2) && DecodeSchema(EncodeSchema([a, b])) != Ok([a, b])
  {
    var s := [a, b];
    var raw := EncodeSchema(s);
    assert s[..2] == s && s[1..] == [b];
    WrappedBytes(a, EncodeColumns([b]));
    hide PutU16, EncodeColumn;
    assert raw == PutU16(2) + EncodeColumn(a) + EncodeColumns([b]);
    ColumnRoundTrip(a, EncodeColumns([b]));
    assert raw[2..] == EncodeColumn(a) + EncodeColumns([b]);
    hide EncodeColumns, EncodeSchema;
    assert raw[0..] == raw;
    SecondNameFound(raw, a);
  }

  lemma WrappedBytes(a: Column, rest: seq<byte>)
    requires ColumnOK(a) && |a.name| == 65528
    ensures |EncodeColumn(a)| == 65534
    ensures var raw := PutU16(2) + EncodeColumn(a) + rest; ReadU16(raw, 0) == 2 && raw[2..4] == [248, 255]
  {
    hide TypeCode;
  }

  lemma SecondNameFound(raw: seq<byte>, a: Column)
    requires |raw| >= 4 && ReadU16(raw, 0) == 2 && raw[2..4] == [248, 255] && raw[0..] == raw
    requires DecodeColumn(raw[2..]) == Ok(Taken(a, 65534))
    ensures DecodeSchema(raw).Ok? ==> |DecodeSchema(raw).value| == 2 && DecodeSchema(raw).value[1].name == [248, 255]
  {
    NameFound(raw);
    hide DecodeColumn;
    assert DecodeColumns(raw, 0, 1) == match DecodeColumn(raw) case Err(e) => Err(e) case Ok(t) => Ok([t.column] + []);
  }

  lemma NameFound(raw: seq<byte>)
    requires |raw| >= 4 && ReadU16(raw, 0) == 2 && raw[2..4] == [248, 255]
    ensures DecodeColumn(raw).Ok? ==> DecodeColumn(raw).value.column.name == [248, 255]
  {
    hide TypeOfCode;
  }

  // ---- the loops ----

  method Serialize(s: Schema) returns (out: seq<byte>)
    requires ColumnsOK(s)
    ensures out == EncodeSchema(s)
  {
    hide EncodeColumn;
    var n := |s| % 0x1_0000;
    out := PutU16(n);
    for i := 0 to n
      invariant out + EncodeColumns(s[..n][i..]) == EncodeSchema(s)
    {
      assert s[..n][i..][1..] == s[..n][i + 1..];
      out := out + EncodeColumn(s[i]);
    }
  }

  method Deserialize(raw: seq<byte>) returns (r: Decoded<Schema>)
    ensures r == DecodeSchema(raw)
  {
    hide DecodeColumn;
    if |raw| < 2 {
      return Err(NoCount);
    }
    var n := ReadU16(raw, 0);
    var columns: Schema, offset: nat := [], 2;
    PrependNothing(DecodeColumns(raw, 2, n));
    for i := 0 to n
      invariant DecodeSchema(raw) == Prepend(columns, DecodeColumns(raw, offset, n - i))
    {
      if |raw| < offset {
        return Err(NoColumn);
      }
      var taken := DecodeColumn(raw[offset..]);
      if taken.Err? {
        return Err(taken.error);
      }
      Appended(columns, taken.value.column);
      columns := columns + [taken.value.column];
      offset := (offset + taken.value.size) % 0x1_0000;
    }
    assert columns + [] == columns;
    r := Ok(columns);
  }

  function Prepend(columns: Schema, d: Decoded<Schema>): Decoded<Schema> {
    match d
    case Err(e) => Err(e)
    case Ok(rest) => Ok(columns + rest)
  }

  lemma PrependNothing(d: Decoded<Schema>)
    ensures Prepend([], d) == d
  {
    if d.Ok? {
      assert [] + d.value == d.value;
    }
  }

  lemma Appended(a: Schema, c: Column)
    ensures forall rest: Schema :: a + ([c] + rest) == a + [c] + rest
  {
  }
}
