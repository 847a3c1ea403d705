/** The bitmap of NULL columns at the start of a tuple. */
module NullBitmaps {
  import opened Bytes

  function Size(columns: nat): nat { (columns + 7) / 8 }

  function Bit(b: nat, i: nat): bool {
    if i == 0 then b % 2 == 1 else Bit(b / 2, i - 1)
  }

  function SetBit(b: nat, i: nat): nat {
    if i == 0 then b / 2 * 2 + 1 else b % 2 + 2 * SetBit(b / 2, i - 1)
  }

  function Pow2(n: nat): (p: nat)
    ensures p > 0
  {
    if n == 0 then 1 else 2 * Pow2(n - 1)
  }

  /** Bit `i` is the `i`-th binary digit. */
  lemma {:induction false} BitDigits(b: nat, i: nat)
    ensures Bit(b, i) <==> b / Pow2(i) % 2 == 1
  {
    if i > 0 {
      BitDigits(b / 2, i - 1);
      DivideTwice(b, 2, Pow2(i - 1));
    }
  }

  lemma {:induction false} SetBitBound(b: nat, i: nat, n: nat)
    requires i < n && b < Pow2(n)
    ensures SetBit(b, i) < Pow2(n)
  {
    if i > 0 {
      SetBitBound(b / 2, i - 1, n - 1);
    }
  }

  lemma {:induction false} SetBitSets(b: nat, i: nat, j: nat)
    ensures Bit(SetBit(b, i), j) <==> i == j || Bit(b, j)
  {
    if i > 0 && j > 0 {
      SetBitSets(b / 2, i - 1, j - 1);
    } else if i > 0 {
    } else if j > 0 {
      assert SetBit(b, i) / 2 == b / 2;
    }
  }

  function IsNull(bitmap: seq<byte>, column: nat): bool
    requires column / 8 < |bitmap|
  {
    Bit(bitmap[column / 8] as nat, column % 8)
  }

  function SetNull(bitmap: seq<byte>, column: nat): (r: seq<byte>)
    requires column / 8 < |bitmap|
    ensures |r| == |bitmap|
  {
    SetBitBound(bitmap[column / 8] as nat, column % 8, 8);
    assert Pow2(8) == 256 by {
      assert Pow2(4) == 16;
    }
    bitmap[column / 8 := SetBit(bitmap[column / 8] as nat, column % 8) as byte]
  }

  /** Marking a column changes the mark of no other column. */
  lemma SetNullMarks(bitmap: seq<byte>, i: nat, j: nat)
    requires i / 8 < |bitmap| && j / 8 < |bitmap|
    ensures IsNull(SetNull(bitmap, i), j) <==> i == j || IsNull(bitmap, j)
  {
    SetBitSets(bitmap[i / 8] as nat, i % 8, j % 8);
  }

  lemma {:induction false} NothingSet(i: nat)
    ensures !Bit(0, i)
  {
    if i > 0 {
      NothingSet(i - 1);
    }
  }
}

/** Columns of a schema and the values they take. */
module Schemas {
  import opened Bytes

  datatype TypeId = INT32 | INT64 | UINT32 | UINT64 | FLOAT | DOUBLE | BOOL | CHAR | VARCHAR | VARBINARY

  datatype Column = Column(name: seq<byte>, typ: TypeId, length: nat)

  type Schema = seq<Column>

  /** Floating-point values are their bit patterns. */
  datatype ColumnValue =
    | Null
    | Int64(i: int) | UInt64(n: nat) | Int32(i: int) | UInt32(n: nat)
    | Double(bits: seq<byte>) | Float(bits: seq<byte>)
    | Bool(b: bool) | Text(s: seq<byte>) | Blob(s: seq<byte>)

  function FixedSize(c: Column): nat {
    match c.typ
    case INT64 => 8 case UINT64 => 8 case DOUBLE => 8
    case INT32 => 4 case UINT32 => 4 case FLOAT => 4
    case BOOL => 1
    case CHAR => c.length
    case VARCHAR => 0 case VARBINARY => 0
  }

  predicate IsFixed(c: Column) { !c.typ.VARCHAR? && !c.typ.VARBINARY? }

  predicate Fits(c: Column, v: ColumnValue) {
    match v
    case Null => true
    case Int64(i) => c.typ.INT64? && -0x8000_0000_0000_0000 <= i < 0x8000_0000_0000_0000
    case UInt64(n) => c.typ.UINT64? && n < 0x1_0000_0000_0000_0000
    case Int32(i) => c.typ.INT32? && -0x8000_0000 <= i < 0x8000_0000
    case UInt32(n) => c.typ.UINT32? && n < 0x1_0000_0000
    case Double(bits) => c.typ.DOUBLE? && |bits| == 8
    case Float(bits) => c.typ.FLOAT? && |bits| == 4
    case Bool(_) => c.typ.BOOL?
    case Text(_) => c.typ.CHAR? || c.typ.VARCHAR?
    case Blob(_) => c.typ.VARBINARY?
  }

  /** One value of the right type for each column; the source throws for any other row. */
  predicate WellTyped(schema: Schema, row: seq<ColumnValue>) {
    |row| == |schema| && forall i | 0 <= i < |row| :: schema[i].length < 0x1_0000 && Fits(schema[i], row[i])
  }

  // ---- the bytes of one value ----

  function TwosComplement(i: int, w: nat): seq<byte>
    requires 0 <= i + Pow256(w)
  {
    ToLE(if i < 0 then i + Pow256(w) else i, w)
  }

  function Signed(bs: seq<byte>): int {
    var n := FromLE(bs);
    if 2 * n >= Pow256(|bs|) then n - Pow256(|bs|) else n
  }

  lemma SignedRoundTrip(i: int, w: nat)
    requires 0 <= 2 * i + Pow256(w) && 2 * i < Pow256(w)
    ensures Signed(TwosComplement(i, w)) == i
  {
    FromToLE(if i < 0 then i + Pow256(w) else i, w);
  }

  function Payload(c: Column, v: ColumnValue): seq<byte>
    requires Fits(c, v)
  {
    PowValues();
    match v
    case Null => []
    case Int64(i) => TwosComplement(i, 8)
    case UInt64(n) => ToLE(n, 8)
    case Int32(i) => TwosComplement(i, 4)
    case UInt32(n) => ToLE(n, 4)
    case Double(bits) => bits
    case Float(bits) => bits
    case Bool(b) => [if b then 1 else 0]
    case Text(s) => s
    case Blob(s) => s
  }

  /** Integers are little-endian, negative ones in two's complement. */
  lemma IntegerBytes(c: Column, v: ColumnValue, k: nat)
    requires Fits(c, v) && (v.Int64? || v.UInt64? || v.Int32? || v.UInt32?)
    requires k < if v.Int64? || v.UInt64? then 8 else 4
    ensures |Payload(c, v)| == if v.Int64? || v.UInt64? then 8 else 4
    ensures var digits := if v.UInt64? || v.UInt32? then v.n
                          else if v.i >= 0 then v.i
                          else if v.Int64? then v.i + 0x1_0000_0000_0000_0000 else v.i + 0x1_0000_0000;
            Payload(c, v)[k] as nat == digits / Pow256(k) % 256
  {
    PowValues();
    hide ToLE, Pow256;
    match v
    case Int64(i) => ToLEDigits(if i < 0 then i + Pow256(8) else i, 8, k);
    case UInt64(n) => ToLEDigits(n, 8, k);
    case Int32(i) => ToLEDigits(if i < 0 then i + Pow256(4) else i, 4, k);
    case UInt32(n) => ToLEDigits(n, 4, k);
  }

  /** A CHAR is read back without the zeros at its end. */
  function StripZeros(s: seq<byte>): seq<byte> {
    if s != [] && s[|s| - 1] == 0 then StripZeros(s[..|s| - 1]) else s
  }

  function FromPayload(c: Column, bs: seq<byte>): ColumnValue
    requires IsFixed(c) ==> |bs| == FixedSize(c)
  {
    match c.typ
    case INT64 => Int64(Signed(bs))
    case UINT64 => UInt64(FromLE(bs))
    case DOUBLE => Double(bs)
    case INT32 => Int32(Signed(bs))
    case UINT32 => UInt32(FromLE(bs))
    case FLOAT => Float(bs)
    case BOOL => Bool(bs[0] != 0)
    case CHAR => Text(StripZeros(bs))
    case VARCHAR => Text(bs)
    case VARBINARY => Blob(bs)
  }

  /** What is left of a value after a round trip. */
  function Stripped(c: Column, v: ColumnValue): ColumnValue {
    if c.typ.CHAR? && v.Text? then Text(StripZeros(v.s)) else v
  }

  lemma {:induction false} StripPadding(s: seq<byte>, n: nat)
    ensures StripZeros(s + Zeros(n)) == StripZeros(s)
  {
    if n > 0 {
      assert (s + Zeros(n))[..|s| + n - 1] == s + Zeros(n - 1);
      StripPadding(s, n - 1);
    } else {
      assert s + Zeros(0) == s;
    }
  }

  lemma StripsNothing(s: seq<byte>)
    ensures StripZeros(s) == s <==> s == [] || s[|s| - 1] != 0
  {
    if s != [] && s[|s| - 1] == 0 {
      StripShortens(s[..|s| - 1]);
    }
  }

  lemma {:induction false} StripShortens(s: seq<byte>)
    ensures |StripZeros(s)| <= |s|
  {
    if s != [] && s[|s| - 1] == 0 {
      StripShortens(s[..|s| - 1]);
    }
  }

  /** Reading back a value, padded with zeros if its column is fixed and longer. */
  lemma PayloadRoundTrip(c: Column, v: ColumnValue, bs: seq<byte>)
    requires Fits(c, v) && !v.Null?
    requires if IsFixed(c) then |Payload(c, v)| <= FixedSize(c)
              && bs == Payload(c, v) + Zeros(FixedSize(c) - |Payload(c, v)|)
             else bs == Payload(c, v)
    ensures FromPayload(c, bs) == Stripped(c, v)
  {
    PowValues();
    hide Pow256, ToLE, FromLE;
    match v
    case Int64(i) => SignedRoundTrip(i, 8); assert bs == Payload(c, v);
    case Int32(i) => SignedRoundTrip(i, 4); assert bs == Payload(c, v);
    case UInt64(n) => FromToLE(n, 8); assert bs == Payload(c, v);
    case UInt32(n) => FromToLE(n, 4); assert bs == Payload(c, v);
    case Text(s) =>
      if c.typ.CHAR? {
        StripPadding(s, FixedSize(c) - |s|);
      }
    case Blob(_) =>
    case Null =>
    case Double(_) => assert bs == Payload(c, v);
    case Float(_) => assert bs == Payload(c, v);
    case Bool(_) => assert bs == Payload(c, v);
  }
}

/** Rows as bytes: the NULL bitmap, then one cell per column in schema order. */
module TupleCodec {
  import opened Bytes
  import opened Options
  import opened NullBitmaps
  import opened Schemas

  datatype EncodeError = CharTooLong | VarcharTooLong | VarcharOverLimit

  datatype Encoded = Raw(bytes: seq<byte>) | Failed(error: EncodeError)

  function PutU16(n: nat): (s: seq<byte>)
    requires n < 0x1_0000
    ensures |s| == 2 && ReadU16(s, 0) == n
  {
    [(n % 256) as byte, (n / 256) as byte]
  }

  // ---- encoding ----

  /**
   * A NULL takes the space of its column all the same. The limits of VARBINARY are not
   * enforced: the checks for it stand in a branch that only CHAR and VARCHAR reach, so a
   * length beyond 16 bits is cut off.
   */
  function EncodeCell(c: Column, v: ColumnValue): Encoded
    requires Fits(c, v)
  {
    var bs := Payload(c, v);
    if !v.Null? && c.typ.CHAR? && |bs| > c.length then Failed(CharTooLong)
    else if !v.Null? && c.typ.VARCHAR? && c.length > 0 && |bs| > c.length then Failed(VarcharTooLong)
    else if !v.Null? && c.typ.VARCHAR? && |bs| > 0xFFFF then Failed(VarcharOverLimit)
    else if IsFixed(c) then Raw(if |bs| < FixedSize(c) then bs + Zeros(FixedSize(c) - |bs|) else bs)
    else Raw(PutU16(|bs| % 0x1_0000) + bs)
  }

  /** The bitmap with the NULLs among the first `n` columns marked. */
  function Bitmap(row: seq<ColumnValue>, n: nat): (b: seq<byte>)
    requires n <= |row|
    ensures |b| == Size(|row|)
  {
    if n == 0 then Zeros(Size(|row|))
    else if row[n - 1].Null? then SetNull(Bitmap(row, n - 1), n - 1) else Bitmap(row, n - 1)
  }

  /** The bitmap and the first `n` cells. */
  function EncodeTo(schema: Schema, row: seq<ColumnValue>, n: nat): Encoded
    requires WellTyped(schema, row) && n <= |row|
  {
    if n == 0 then Raw(Bitmap(row, |row|))
    else
      match EncodeTo(schema, row, n - 1)
      case Failed(e) => Failed(e)
      case Raw(out) =>
        match EncodeCell(schema[n - 1], row[n - 1])
        case Failed(e) => Failed(e)
        case Raw(cell) => Raw(out + cell)
  }

  function Encode(schema: Schema, row: seq<ColumnValue>): Encoded
    requires WellTyped(schema, row)
  {
    EncodeTo(schema, row, |row|)
  }

  lemma {:induction false} EncodeFails(schema: Schema, row: seq<ColumnValue>, k: nat, n: nat)
    requires WellTyped(schema, row) && k <= n <= |row| && EncodeTo(schema, row, k).Failed?
    ensures EncodeTo(schema, row, n) == EncodeTo(schema, row, k)
  {
    if k < n {
      EncodeFails(schema, row, k, n - 1);
    }
  }

  method Serialize(schema: Schema, row: seq<ColumnValue>) returns (r: Encoded)
    requires WellTyped(schema, row)
    ensures r == Encode(schema, row)
  {
    hide EncodeCell, SetNull;
    var out := Zeros(Size(|schema|));
    for i := 0 to |schema|
      invariant out == Bitmap(row, i)
    {
      if row[i].Null? {
        out := SetNull(out, i);
      }
    }
    for i := 0 to |schema|
      invariant EncodeTo(schema, row, i) == Raw(out)
    {
      var cell := SerializeCell(schema[i], row[i]);
      if cell.Failed? {
        EncodeFails(schema, row, i + 1, |row|);
        return cell;
      }
      out := out + cell.bytes;
    }
    r := Raw(out);
  }

  method SerializeCell(c: Column, v: ColumnValue) returns (r: Encoded)
    requires Fits(c, v) && c.length < 0x1_0000
    ensures r == EncodeCell(c, v)
  {
    var bs := Payload(c, v);
    if !v.Null? && (c.typ.CHAR? || c.typ.VARCHAR?) {
      if c.typ.CHAR? && |bs| > c.length {
        return Failed(CharTooLong);
      }
      if c.typ.VARCHAR? && c.length > 0 && |bs| > c.length {
        return Failed(VarcharTooLong);
      }
      if c.typ.VARCHAR? && |bs| > 0xFFFF {
        return Failed(VarcharOverLimit);
      }
    }
    var out := [];
    if IsFixed(c) {
      out := out + bs;
      if |out| < FixedSize(c) {
        out := out + Zeros(FixedSize(c) - |out|);
      }
    } else {
      out := PutU16(|bs| % 0x1_0000) + bs;
    }
    r := Raw(out);
  }

  // ---- decoding ----

  /**
   * Where column `n` is found to start, without the cut to 16 bits; None where the source
   * reads beyond the end of the bytes. A column of fixed size 0 counts as variable here.
   */
  function OffsetOf(raw: seq<byte>, schema: Schema, n: nat): Option<nat>
    requires n <= |schema|
  {
    if n == 0 then Some(Size(|schema|))
    else
      match OffsetOf(raw, schema, n - 1)
      case None => None
      case Some(at) =>
        if FixedSize(schema[n - 1]) > 0 then Some(at + FixedSize(schema[n - 1]))
        else if at % 0x1_0000 + 2 <= |raw| then Some(at + ReadU16(raw, at % 0x1_0000) + 2)
        else None
  }

  function DecodeCell(raw: seq<byte>, c: Column, offset: nat): Option<ColumnValue> {
    if IsFixed(c) then
      if offset + FixedSize(c) <= |raw| then Some(FromPayload(c, raw[offset..offset + FixedSize(c)])) else None
    else if offset + 2 > |raw| then None
    else
      var start, size := (offset + 2) % 0x1_0000, ReadU16(raw, offset);
      if start + size <= |raw| then Some(FromPayload(c, raw[start..start + size])) else None
  }

  function DecodeColumn(raw: seq<byte>, schema: Schema, i: nat): Option<ColumnValue>
    requires i < |schema|
  {
    if i / 8 >= |raw| then None
    else if IsNull(raw, i) then Some(Null)
    else
      match OffsetOf(raw, schema, i)
      case None => None
      case Some(at) => DecodeCell(raw, schema[i], at % 0x1_0000)
  }

  function DecodeTo(raw: seq<byte>, schema: Schema, n: nat): Option<seq<ColumnValue>>
    requires n <= |schema|
  {
    if n == 0 then Some([])
    else
      match DecodeTo(raw, schema, n - 1)
      case None => None
      case Some(row) =>
        match DecodeColumn(raw, schema, n - 1)
        case None => None
        case Some(v) => Some(row + [v])
  }

  /** None stands for reading beyond the end of the bytes. */
  function Decode(raw: seq<byte>, schema: Schema): Option<seq<ColumnValue>> {
    if OffsetOf(raw, schema, |schema|).None? then None else DecodeTo(raw, schema, |schema|)
  }

  lemma {:induction false} OffsetFails(raw: seq<byte>, schema: Schema, k: nat, n: nat)
    requires k <= n <= |schema| && OffsetOf(raw, schema, k).None?
    ensures OffsetOf(raw, schema, n).None?
  {
    if k < n {
      OffsetFails(raw, schema, k, n - 1);
    }
  }

  lemma {:induction false} DecodeFails(raw: seq<byte>, schema: Schema, k: nat, n: nat)
    requires k <= n <= |schema| && DecodeTo(raw, schema, k).None?
    ensures DecodeTo(raw, schema, n).None?
  {
    if k < n {
      DecodeFails(raw, schema, k, n - 1);
    }
  }

  /** `offset` is where column `i` is found to start, cut to 16 bits. */
  predicate CutOffset(raw: seq<byte>, schema: Schema, i: nat, offset: nat)
    requires i < |schema|
  {
    OffsetOf(raw, schema, i).Some? && offset == OffsetOf(raw, schema, i).value % 0x1_0000
  }

  method ComputeOffsets(raw: seq<byte>, schema: Schema) returns (offsets: Option<seq<nat>>)
    ensures offsets.None? <==> OffsetOf(raw, schema, |schema|).None?
    ensures offsets.Some? ==>
              |offsets.value| == |schema| && forall i: nat | i < |schema| :: CutOffset(raw, schema, i, offsets.value[i])
  {
    var result: seq<nat> := [];
    var offset: nat := Size(|schema|);
    for i := 0 to |schema|
      invariant |result| == i && OffsetOf(raw, schema, i) == Some(offset)
      invariant forall j: nat | j < i :: CutOffset(raw, schema, j, result[j])
    {
      assert CutOffset(raw, schema, i, offset % 0x1_0000);
      hide CutOffset, ReadU16, FixedSize;
      result := result + [offset % 0x1_0000];
      var fixed := FixedSize(schema[i]);
      if fixed > 0 {
        offset := offset + fixed;
      } else {
        if offset % 0x1_0000 + 2 > |raw| {
          OffsetFails(raw, schema, i + 1, |schema|);
          return None;
        }
        offset := offset + ReadU16(raw, offset % 0x1_0000) + 2;
      }
    }
    offsets := Some(result);
  }

  method Deserialize(raw: seq<byte>, schema: Schema) returns (r: Option<seq<ColumnValue>>)
    ensures r == Decode(raw, schema)
  {
    hide DecodeCell, OffsetOf, IsNull;
    var offsets := ComputeOffsets(raw, schema);
    if offsets.None? {
      return None;
    }
    var values: seq<ColumnValue> := [];
    for i := 0 to |schema|
      invariant DecodeTo(raw, schema, i) == Some(values)
    {
      assert CutOffset(raw, schema, i, offsets.value[i]);
      var v: Option<ColumnValue> := None;
      if i / 8 < |raw| {
        v := if IsNull(raw, i) then Some(Null) else DecodeCell(raw, schema[i], offsets.value[i]);
      }
      if v.None? {
        DecodeFails(raw, schema, i + 1, |schema|);
        return None;
      }
      values := values + [v.value];
    }
    r := Some(values);
  }

  // ---- the round trip ----

  /** The start of cell `n` in the encoded row. */
  function Start(schema: Schema, row: seq<ColumnValue>, n: nat): nat
    requires WellTyped(schema, row) && n <= |row|
  {
    if n == 0 then Size(|row|)
    else Start(schema, row, n - 1) + match EncodeCell(schema[n - 1], row[n - 1])
                                     case Raw(cell) => |cell|
                                     case Failed(_) => 0
  }

  /** What the 16-bit offsets and lengths of the format can hold, and no CHAR(0). */
  predicate Representable(schema: Schema, row: seq<ColumnValue>)
    requires WellTyped(schema, row)
  {
    forall i | 0 <= i < |row| ::
      && Start(schema, row, i) < 0x1_0000
      && (!IsFixed(schema[i]) ==> Start(schema, row, i) + 2 < 0x1_0000 && |Payload(schema[i], row[i])| < 0x1_0000)
      && (schema[i].typ.CHAR? ==> schema[i].length > 0)
  }

  lemma {:induction false} EncodedPrefix(schema: Schema, row: seq<ColumnValue>, i: nat, n: nat)
    requires WellTyped(schema, row) && i < n <= |row| && EncodeTo(schema, row, n).Raw?
    ensures EncodeTo(schema, row, i).Raw? && EncodeCell(schema[i], row[i]).Raw?
    ensures |EncodeTo(schema, row, i).bytes| == Start(schema, row, i)
    ensures var out, cell := EncodeTo(schema, row, n).bytes, EncodeCell(schema[i], row[i]).bytes;
            && Start(schema, row, i) + |cell| <= |out|
            && out[Start(schema, row, i)..Start(schema, row, i) + |cell|] == cell
    decreases n
  {
    hide EncodeCell, Bitmap;
    EncodedLength(schema, row, n - 1);
    if i < n - 1 {
      EncodedPrefix(schema, row, i, n - 1);
    }
  }

  lemma {:induction false} EncodedLength(schema: Schema, row: seq<ColumnValue>, n: nat)
    requires WellTyped(schema, row) && n <= |row| && EncodeTo(schema, row, n).Raw?
    ensures Size(|row|) <= |EncodeTo(schema, row, n).bytes| == Start(schema, row, n)
    ensures EncodeTo(schema, row, n).bytes[..Size(|row|)] == Bitmap(row, |row|)
  {
    hide EncodeCell, Bitmap;
    if n > 0 {
      EncodedLength(schema, row, n - 1);
    }
  }

  lemma {:induction false} BitmapMarks(row: seq<ColumnValue>, n: nat, i: nat)
    requires n <= |row| && i < |row|
    ensures IsNull(Bitmap(row, n), i) <==> i < n && row[i].Null?
  {
    hide IsNull, SetNull;
    if n == 0 {
      NothingMarked(Size(|row|), i);
    } else {
      BitmapMarks(row, n - 1, i);
      if row[n - 1].Null? {
        SetNullMarks(Bitmap(row, n - 1), n - 1, i);
      }
    }
  }

  lemma NothingMarked(size: nat, i: nat)
    requires i / 8 < size
    ensures !IsNull(Zeros(size), i)
  {
    NothingSet(i % 8);
  }

  /** Bit `i % 8` of byte `i / 8` says whether column `i` is NULL. */
  lemma NullBits(schema: Schema, row: seq<ColumnValue>, i: nat)
    requires WellTyped(schema, row) && i < |row| && Encode(schema, row).Raw?
    ensures var raw := Encode(schema, row).bytes;
            i / 8 < |raw| && (raw[i / 8] as nat / Pow2(i % 8) % 2 == 1 <==> row[i].Null?)
  {
    hide EncodeTo, Bit, Bitmap, SetNull, Pow2, Start;
    var raw := Encode(schema, row).bytes;
    EncodedLength(schema, row, |row|);
    assert raw[i / 8] == raw[..Size(|row|)][i / 8];
    BitmapMarks(row, |row|, i);
    BitDigits(raw[i / 8] as nat, i % 8);
  }

  /**
   * The bytes of an encoded row. The cells follow the bitmap without gaps: the value and zeros
   * up to the size of a fixed column, or the length of the value in two bytes, low byte first,
   * and the value.
   */
  lemma TupleBytes(schema: Schema, row: seq<ColumnValue>, i: nat)
    requires WellTyped(schema, row) && i < |row| && Encode(schema, row).Raw?
    ensures var raw, at, bs := Encode(schema, row).bytes, Start(schema, row, i), Payload(schema[i], row[i]);
            && Start(schema, row, 0) == (|row| + 7) / 8 && Start(schema, row, |row|) == |raw|
            && if IsFixed(schema[i])
               then
                 && Start(schema, row, i + 1) == at + FixedSize(schema[i]) <= |raw| && |bs| <= FixedSize(schema[i])
                 && raw[at..at + FixedSize(schema[i])] == bs + Zeros(FixedSize(schema[i]) - |bs|)
               else
                 && Start(schema, row, i + 1) == at + 2 + |bs| <= |raw|
                 && raw[at..at + 2 + |bs|] == [(|bs| % 256) as byte, (|bs| / 256 % 256) as byte] + bs
  {
    hide EncodeTo, FixedSize, Payload, Bitmap, EncodeCell, Fits;
    EncodedLength(schema, row, |row|);
    EncodedPrefix(schema, row, i, |row|);
    CellLayout(schema[i], row[i]);
  }

  lemma CellLayout(c: Column, v: ColumnValue)
    requires Fits(c, v) && EncodeCell(c, v).Raw?
    ensures var cell, bs := EncodeCell(c, v).bytes, Payload(c, v);
            if IsFixed(c) then |bs| <= FixedSize(c) && cell == bs + Zeros(FixedSize(c) - |bs|)
            else cell == [(|bs| % 256) as byte, (|bs| / 256 % 256) as byte] + bs
  {
    CellBytes(c, v);
    LengthDigits(|Payload(c, v)|);
    hide Payload, FixedSize;
  }

  lemma LengthDigits(n: nat)
    ensures n % 0x1_0000 % 256 == n % 256 && n % 0x1_0000 / 256 == n / 256 % 256
  {
    var q, r := n / 0x1_0000, n % 0x1_0000;
    var h, l := r / 256, r % 256;
    assert n == 256 * (256 * q + h) + l;
    QuotientIs(n, 256, 256 * q + h, l);
  }

  /** Each column is found where its cell starts. */
  lemma {:induction false} OffsetIsStart(schema: Schema, row: seq<ColumnValue>, n: nat)
    requires WellTyped(schema, row) && Representable(schema, row) && n <= |row| && Encode(schema, row).Raw?
    ensures OffsetOf(Encode(schema, row).bytes, schema, n) == Some(Start(schema, row, n))
  {
    hide EncodeCell, EncodeTo, Encode, FixedSize, ReadU16, Payload;
    if n > 0 {
      OffsetIsStart(schema, row, n - 1);
      OffsetStep(schema, row, n - 1);
    }
  }

  lemma OffsetStep(schema: Schema, row: seq<ColumnValue>, i: nat)
    requires WellTyped(schema, row) && Representable(schema, row) && i < |row| && Encode(schema, row).Raw?
    requires OffsetOf(Encode(schema, row).bytes, schema, i) == Some(Start(schema, row, i))
    ensures OffsetOf(Encode(schema, row).bytes, schema, i + 1) == Some(Start(schema, row, i + 1))
  {
    hide EncodeCell, EncodeTo, FixedSize, ReadU16, Payload;
    EncodedPrefix(schema, row, i, |row|);
    CellSize(schema[i], row[i], Encode(schema, row).bytes, Start(schema, row, i));
    hide Representable;
  }

  /** The cell is the payload padded to the column's size, or prefixed with its length. */
  lemma CellBytes(c: Column, v: ColumnValue)
    requires Fits(c, v) && EncodeCell(c, v).Raw?
    ensures var cell, bs := EncodeCell(c, v).bytes, Payload(c, v);
            && (IsFixed(c) ==> |bs| <= FixedSize(c) && cell == bs + Zeros(FixedSize(c) - |bs|))
            && (!IsFixed(c) && |bs| < 0x1_0000 ==> cell == PutU16(|bs|) + bs)
  {
    PayloadSize(c, v);
    hide Payload, PutU16;
    if IsFixed(c) && |Payload(c, v)| == FixedSize(c) {
      assert Payload(c, v) + Zeros(0) == Payload(c, v);
    }
  }

  lemma CellSize(c: Column, v: ColumnValue, raw: seq<byte>, at: nat)
    requires Fits(c, v) && EncodeCell(c, v).Raw? && at + |EncodeCell(c, v).bytes| <= |raw|
    requires raw[at..at + |EncodeCell(c, v).bytes|] == EncodeCell(c, v).bytes
    requires !IsFixed(c) ==> |Payload(c, v)| < 0x1_0000
    requires c.typ.CHAR? ==> c.length > 0
    ensures FixedSize(c) > 0 <==> IsFixed(c)
    ensures IsFixed(c) ==> |EncodeCell(c, v).bytes| == FixedSize(c)
    ensures !IsFixed(c) ==> |EncodeCell(c, v).bytes| == 2 + |Payload(c, v)| && ReadU16(raw, at) == |Payload(c, v)|
  {
    CellBytes(c, v);
    hide Payload, EncodeCell;
    if !IsFixed(c) {
      LengthRead(raw, at, Payload(c, v));
    }
  }

  lemma LengthRead(raw: seq<byte>, at: nat, bs: seq<byte>)
    requires |bs| < 0x1_0000 && at + 2 + |bs| <= |raw| && raw[at..at + 2 + |bs|] == PutU16(|bs|) + bs
    ensures ReadU16(raw, at) == |bs| && raw[at + 2..at + 2 + |bs|] == bs
  {
    var cell := PutU16(|bs|) + bs;
    assert raw[at] == cell[0] && raw[at + 1] == cell[1];
    assert raw[at + 2..at + 2 + |bs|] == cell[2..];
  }

  lemma PayloadSize(c: Column, v: ColumnValue)
    requires Fits(c, v)
    ensures IsFixed(c) && !c.typ.CHAR? && !v.Null? ==> |Payload(c, v)| == FixedSize(c)
    ensures v.Null? ==> Payload(c, v) == []
  {
    PowValues();
  }

  lemma CellRoundTrip(c: Column, v: ColumnValue, raw: seq<byte>, at: nat)
    requires Fits(c, v) && !v.Null? && EncodeCell(c, v).Raw? && at + |EncodeCell(c, v).bytes| <= |raw|
    requires raw[at..at + |EncodeCell(c, v).bytes|] == EncodeCell(c, v).bytes
    requires !IsFixed(c) ==> at + 2 < 0x1_0000 && |Payload(c, v)| < 0x1_0000
    requires c.typ.CHAR? ==> c.length > 0
    ensures DecodeCell(raw, c, at) == Some(Stripped(c, v))
  {
    hide Payload, FromPayload, Stripped, EncodeCell, PutU16, ReadU16, FixedSize;
    var cell, bs := EncodeCell(c, v).bytes, Payload(c, v);
    CellBytes(c, v);
    if IsFixed(c) {
      PayloadRoundTrip(c, v, cell);
    } else {
      LengthRead(raw, at, bs);
      PayloadRoundTrip(c, v, bs);
    }
  }

  function StrippedRow(schema: Schema, row: seq<ColumnValue>): seq<ColumnValue>
    requires |row| == |schema|
  {
    seq(|row|, i requires 0 <= i < |row| => Stripped(schema[i], row[i]))
  }

  lemma {:induction false} DecodesTo(schema: Schema, row: seq<ColumnValue>, n: nat)
    requires WellTyped(schema, row) && Representable(schema, row) && n <= |row| && Encode(schema, row).Raw?
    ensures DecodeTo(Encode(schema, row).bytes, schema, n) == Some(StrippedRow(schema, row)[..n])
  {
    hide DecodeColumn, Stripped, Encode, Representable, Fits;
    if n > 0 {
      DecodesTo(schema, row, n - 1);
      ColumnRoundTrip(schema, row, n - 1);
      assert StrippedRow(schema, row)[..n] == StrippedRow(schema, row)[..n - 1] + [Stripped(schema[n - 1], row[n - 1])];
    }
  }

  lemma ColumnRoundTrip(schema: Schema, row: seq<ColumnValue>, i: nat)
    requires WellTyped(schema, row) && Representable(schema, row) && i < |row| && Encode(schema, row).Raw?
    ensures DecodeColumn(Encode(schema, row).bytes, schema, i) == Some(Stripped(schema[i], row[i]))
  {
    hide EncodeCell, DecodeCell, OffsetOf, EncodeTo, Payload, Start, Bit;
    var raw := Encode(schema, row).bytes;
    EncodedLength(schema, row, |row|);
    BitmapMarks(row, |row|, i);
    assert raw[i / 8] == Bitmap(row, |row|)[i / 8];
    OffsetIsStart(schema, row, i);
    EncodedPrefix(schema, row, i, |row|);
    if !row[i].Null? {
      CellRoundTrip(schema[i], row[i], raw, Start(schema, row, i));
    }
  }

  /**
   * Decoding what was encoded gives the row back, up to the zeros at the end of CHAR values:
   * exactly the row if and only if no CHAR value ends with a zero.
   */
  lemma RoundTrip(schema: Schema, row: seq<ColumnValue>)
    requires WellTyped(schema, row) && Representable(schema, row) && Encode(schema, row).Raw?
    ensures Decode(Encode(schema, row).bytes, schema) == Some(StrippedRow(schema, row))
    ensures Decode(Encode(schema, row).bytes, schema) == Some(row) <==>
              forall i | 0 <= i < |row| :: EndsPlain(schema[i], row[i])
  {
    OffsetIsStart(schema, row, |row|);
    DecodesTo(schema, row, |row|);
    assert StrippedRow(schema, row)[..|row|] == StrippedRow(schema, row);
    forall i | 0 <= i < |row| ensures Stripped(schema[i], row[i]) == row[i] <==> EndsPlain(schema[i], row[i]) {
      if row[i].Text? {
        StripsNothing(row[i].s);
      }
    }
    hide EndsPlain, Stripped, Encode, DecodeTo, OffsetOf, WellTyped, Representable;
    assert StrippedRow(schema, row) == row <==> forall i | 0 <= i < |row| :: StrippedRow(schema, row)[i] == row[i];
  }

  predicate EndsPlain(c: Column, v: ColumnValue) {
    c.typ.CHAR? && v.Text? && v.s != [] ==> v.s[|v.s| - 1] != 0
  }

  /** A tuple that fits a page is representable unless it has a CHAR(0) column. */
  lemma SmallRepresentable(schema: Schema, row: seq<ColumnValue>)
    requires WellTyped(schema, row) && Encode(schema, row).Raw? && |Encode(schema, row).bytes| < 0x1_0000
    ensures Representable(schema, row) <==> forall i | 0 <= i < |row| :: schema[i].typ.CHAR? ==> schema[i].length > 0
  {
    hide EncodeTo, Payload;
    forall i | 0 <= i < |row|
      ensures Start(schema, row, i) < 0x1_0000
      ensures !IsFixed(schema[i]) ==> Start(schema, row, i) + 2 < 0x1_0000 && |Payload(schema[i], row[i])| < 0x1_0000
    {
      EncodedPrefix(schema, row, i, |row|);
    }
    hide Start, EncodeCell;
  }

  // ---- where the round trip fails ----

  /** The bitmap and, for each of the first `n` columns, its fixed size or a bare length. */
  function SmallestSize(schema: Schema, n: nat): nat
    requires n <= |schema|
  {
    if n == 0 then Size(|schema|) else SmallestSize(schema, n - 1) + CellMinimum(schema[n - 1])
  }

  function CellMinimum(c: Column): nat { if IsFixed(c) then FixedSize(c) else 2 }

  predicate HasEmptyChar(schema: Schema) {
    exists i :: 0 <= i < |schema| && schema[i].typ.CHAR? && schema[i].length == 0
  }

  /** The value whose bytes are all zero. */
  function ZeroValue(c: Column): ColumnValue {
    match c.typ
    case INT64 => Int64(0) case UINT64 => UInt64(0) case DOUBLE => Double(Zeros(8))
    case INT32 => Int32(0) case UINT32 => UInt32(0) case FLOAT => Float(Zeros(4))
    case BOOL => Bool(false)
    case CHAR => Text([]) case VARCHAR => Text([])
    case VARBINARY => Blob([])
  }

  function ZeroRow(schema: Schema): seq<ColumnValue> {
    seq(|schema|, i requires 0 <= i < |schema| => ZeroValue(schema[i]))
  }

  predicate Declarable(schema: Schema) {
    forall i | 0 <= i < |schema| :: schema[i].length < 0x1_0000
  }

  lemma {:induction false} ZeroBytes(n: nat)
    ensures ToLE(0, n) == Zeros(n)
  {
    if n > 0 {
      ZeroBytes(n - 1);
    }
  }

  lemma ZeroCell(c: Column)
    ensures Fits(c, ZeroValue(c)) && EncodeCell(c, ZeroValue(c)) == Raw(Zeros(CellMinimum(c)))
  {
    ZeroBytes(8);
    ZeroBytes(4);
    hide ToLE;
    assert [] + Zeros(c.length) == Zeros(c.length) && PutU16(0) + [] == Zeros(2);
  }

  lemma {:induction false} ZeroBitmap(schema: Schema, n: nat)
    requires n <= |schema|
    ensures Bitmap(ZeroRow(schema), n) == Zeros(Size(|schema|))
  {
    if n > 0 {
      ZeroBitmap(schema, n - 1);
    }
  }

  lemma ZeroRowTyped(schema: Schema)
    requires Declarable(schema)
    ensures WellTyped(schema, ZeroRow(schema))
  {
    forall i | 0 <= i < |schema| ensures Fits(schema[i], ZeroRow(schema)[i]) {
      ZeroCell(schema[i]);
    }
    hide Fits, EncodeCell, ZeroValue;
  }

  lemma ZerosAdd(a: nat, b: nat)
    ensures Zeros(a) + Zeros(b) == Zeros(a + b)
  {
  }

  lemma {:induction false} ZeroEncoded(schema: Schema, n: nat)
    requires Declarable(schema) && n <= |schema| && WellTyped(schema, ZeroRow(schema))
    ensures EncodeTo(schema, ZeroRow(schema), n) == Raw(Zeros(SmallestSize(schema, n)))
  {
    hide EncodeCell, WellTyped, ZeroValue, Bitmap, CellMinimum, Zeros;
    if n == 0 {
      ZeroBitmap(schema, |schema|);
    } else {
      ZeroEncoded(schema, n - 1);
      ZeroCell(schema[n - 1]);
      ZerosAdd(SmallestSize(schema, n - 1), CellMinimum(schema[n - 1]));
    }
  }

  /** No row is encoded in fewer bytes than the row of zeros. */
  lemma {:induction false} SmallestIsSmallest(schema: Schema, row: seq<ColumnValue>, n: nat)
    requires WellTyped(schema, row) && n <= |row| && EncodeTo(schema, row, n).Raw?
    ensures SmallestSize(schema, n) <= |EncodeTo(schema, row, n).bytes|
  {
    hide EncodeCell, CellMinimum, Bitmap;
    if n > 0 {
      SmallestIsSmallest(schema, row, n - 1);
      CellAtLeast(schema[n - 1], row[n - 1]);
    }
  }

  lemma CellAtLeast(c: Column, v: ColumnValue)
    requires Fits(c, v) && EncodeCell(c, v).Raw?
    ensures CellMinimum(c) <= |EncodeCell(c, v).bytes|
  {
    hide Payload;
  }

  /** Where column `n` is looked for among zeros: a CHAR(0) is taken for an empty variable-length one. */
  function SoughtAt(schema: Schema, n: nat): nat
    requires n <= |schema|
  {
    if n == 0 then Size(|schema|)
    else SoughtAt(schema, n - 1) + if FixedSize(schema[n - 1]) > 0 then FixedSize(schema[n - 1]) else 2
  }

  lemma {:induction false} SoughtTooFar(schema: Schema, n: nat)
    requires n <= |schema|
    ensures SmallestSize(schema, n) <= SoughtAt(schema, n)
    ensures (exists i :: 0 <= i < n && schema[i].typ.CHAR? && schema[i].length == 0) ==>
              SmallestSize(schema, n) < SoughtAt(schema, n)
  {
    if n > 0 {
      SoughtTooFar(schema, n - 1);
    }
  }

  lemma {:induction false} EachDecoded(raw: seq<byte>, schema: Schema, i: nat, n: nat)
    requires i < n <= |schema| && DecodeTo(raw, schema, n).Some?
    ensures DecodeColumn(raw, schema, i).Some? && |DecodeTo(raw, schema, n).value| == n
    ensures DecodeTo(raw, schema, n).value[i] == DecodeColumn(raw, schema, i).value
  {
    hide DecodeColumn;
    DecodedLength(raw, schema, n - 1);
    if i < n - 1 {
      EachDecoded(raw, schema, i, n - 1);
    }
  }

  lemma {:induction false} DecodedLength(raw: seq<byte>, schema: Schema, n: nat)
    requires n <= |schema| && DecodeTo(raw, schema, n).Some?
    ensures |DecodeTo(raw, schema, n).value| == n
  {
    hide DecodeColumn;
    if n > 0 {
      DecodedLength(raw, schema, n - 1);
    }
  }

  /** As long as decoding zeros succeeds, no column is looked for beyond their end. */
  lemma {:induction false} SoughtWithin(schema: Schema, size: nat, n: nat)
    requires n <= |schema| && Size(|schema|) <= size < 0x1_0000 && Decode(Zeros(size), schema).Some?
    ensures SoughtAt(schema, n) <= size && OffsetOf(Zeros(size), schema, n) == Some(SoughtAt(schema, n))
  {
    if n > 0 {
      SoughtWithin(schema, size, n - 1);
      ColumnWithin(schema, size, n - 1);
    }
  }

  lemma ColumnWithin(schema: Schema, size: nat, i: nat)
    requires i < |schema| && Size(|schema|) <= size < 0x1_0000 && Decode(Zeros(size), schema).Some?
    requires SoughtAt(schema, i) <= size && OffsetOf(Zeros(size), schema, i) == Some(SoughtAt(schema, i))
    ensures SoughtAt(schema, i + 1) <= size
    ensures OffsetOf(Zeros(size), schema, i + 1) == Some(SoughtAt(schema, i + 1))
  {
    var raw, at := Zeros(size), SoughtAt(schema, i);
    ColumnRead(raw, schema, i);
    NothingMarked(size, i);
    OffsetNext(raw, schema, i, at);
    if FixedSize(schema[i]) > 0 {
      CellRead(raw, schema, i, at);
    } else {
      assert ReadU16(raw, at) == 0;
    }
    hide OffsetOf, Decode, DecodeColumn, IsNull, ReadU16, FixedSize, Zeros;
  }

  lemma OffsetNext(raw: seq<byte>, schema: Schema, i: nat, at: nat)
    requires i < |schema| && OffsetOf(raw, schema, i) == Some(at) && at < 0x1_0000 && OffsetOf(raw, schema, i + 1).Some?
    ensures FixedSize(schema[i]) == 0 ==>
              at + 2 <= |raw| && OffsetOf(raw, schema, i + 1) == Some(at + ReadU16(raw, at) + 2)
    ensures FixedSize(schema[i]) > 0 ==> OffsetOf(raw, schema, i + 1) == Some(at + FixedSize(schema[i]))
  {
    hide FixedSize, ReadU16;
  }

  lemma CellRead(raw: seq<byte>, schema: Schema, i: nat, at: nat)
    requires i < |schema| && i / 8 < |raw| && !IsNull(raw, i) && OffsetOf(raw, schema, i) == Some(at) && at < 0x1_0000
    requires FixedSize(schema[i]) > 0 && DecodeColumn(raw, schema, i).Some?
    ensures at + FixedSize(schema[i]) <= |raw|
  {
    hide OffsetOf, IsNull, FromPayload;
  }

  lemma ColumnRead(raw: seq<byte>, schema: Schema, i: nat)
    requires i < |schema| && Decode(raw, schema).Some?
    ensures DecodeColumn(raw, schema, i).Some? && OffsetOf(raw, schema, i + 1).Some?
  {
    hide DecodeColumn;
    EachDecoded(raw, schema, i, |schema|);
    hide DecodeTo;
    if OffsetOf(raw, schema, i + 1).None? {
      OffsetFails(raw, schema, i + 1, |schema|);
    }
  }

  /** The row of zeros of a schema with a CHAR(0) column is read beyond its end. */
  lemma EmptyCharUnreadable(schema: Schema)
    requires Declarable(schema) && HasEmptyChar(schema) && SmallestSize(schema, |schema|) < 0x1_0000
    ensures WellTyped(schema, ZeroRow(schema))
    ensures Encode(schema, ZeroRow(schema)) == Raw(Zeros(SmallestSize(schema, |schema|)))
    ensures Decode(Zeros(SmallestSize(schema, |schema|)), schema) == None
  {
    var size := SmallestSize(schema, |schema|);
    ZeroRowTyped(schema);
    ZeroEncoded(schema, |schema|);
    SoughtTooFar(schema, |schema|);
    SizeGrows(schema, |schema|);
    if Decode(Zeros(size), schema).Some? {
      SoughtWithin(schema, size, |schema|);
      assert false;
    }
  }

  lemma {:induction false} SizeGrows(schema: Schema, n: nat)
    requires n <= |schema|
    ensures Size(|schema|) <= SmallestSize(schema, n)
  {
    if n > 0 {
      SizeGrows(schema, n - 1);
    }
  }

  /** Every row that is encoded in less than 65536 bytes is read back, CHAR values without their trailing zeros. */
  ghost predicate ReadsBack(schema: Schema) {
    forall row | WellTyped(schema, row) && Encode(schema, row).Raw? && |Encode(schema, row).bytes| < 0x1_0000 ::
      Decode(Encode(schema, row).bytes, schema) == Some(StrippedRow(schema, row))
  }

  /** A schema reads back all its small rows if and only if it has no CHAR(0) column, or no small rows. */
  lemma SchemaReadsBack(schema: Schema)
    requires Declarable(schema)
    ensures ReadsBack(schema) <==> !HasEmptyChar(schema) || SmallestSize(schema, |schema|) >= 0x1_0000
  {
    if HasEmptyChar(schema) && SmallestSize(schema, |schema|) < 0x1_0000 {
      EmptyCharUnreadable(schema);
    } else {
      forall row | WellTyped(schema, row) && Encode(schema, row).Raw? && |Encode(schema, row).bytes| < 0x1_0000
        ensures Decode(Encode(schema, row).bytes, schema) == Some(StrippedRow(schema, row))
      {
        SmallestIsSmallest(schema, row, |row|);
        SmallRepresentable(schema, row);
        RoundTrip(schema, row);
      }
    }
  }

  /** What Serialize checks of a value: nothing at all for VARBINARY, whatever its column's limit. */
  predicate WithinLimit(c: Column, v: ColumnValue) {
    v.Text? ==>
      && (c.typ.CHAR? ==> |v.s| <= c.length)
      && (c.typ.VARCHAR? ==> (c.length == 0 || |v.s| <= c.length) && |v.s| <= 0xFFFF)
  }

  /** A row is encoded if and only if its CHAR and VARCHAR values keep to their limits. */
  lemma {:induction false} EncodeAccepts(schema: Schema, row: seq<ColumnValue>, n: nat)
    requires WellTyped(schema, row) && n <= |row|
    ensures EncodeTo(schema, row, n).Raw? <==> forall i | 0 <= i < n :: WithinLimit(schema[i], row[i])
  {
    hide EncodeCell, Bitmap, WithinLimit, Fits;
    if n > 0 {
      EncodeAccepts(schema, row, n - 1);
      CellAccepts(schema[n - 1], row[n - 1]);
    }
  }

  lemma CellAccepts(c: Column, v: ColumnValue)
    requires Fits(c, v)
    ensures EncodeCell(c, v).Raw? <==> WithinLimit(c, v)
  {
  }

  /** The limit that a value exceeds; the declared one comes first. */
  predicate Exceeds(c: Column, v: ColumnValue, e: EncodeError) {
    v.Text? && match e
               case CharTooLong => c.typ.CHAR? && |v.s| > c.length
               case VarcharTooLong => c.typ.VARCHAR? && 0 < c.length < |v.s|
               case VarcharOverLimit => c.typ.VARCHAR? && !(0 < c.length < |v.s|) && |v.s| > 0xFFFF
  }

  ghost predicate FirstExceeds(schema: Schema, row: seq<ColumnValue>, i: nat, e: EncodeError)
    requires WellTyped(schema, row) && i < |row|
  {
    Exceeds(schema[i], row[i], e) && forall j | 0 <= j < i :: WithinLimit(schema[j], row[j])
  }

  /** A row that is not encoded fails as its first value that exceeds a limit does. */
  lemma {:induction false} EncodeErrs(schema: Schema, row: seq<ColumnValue>, n: nat, e: EncodeError)
    requires WellTyped(schema, row) && n <= |row|
    ensures EncodeTo(schema, row, n) == Failed(e) <==> exists i: nat | i < n :: FirstExceeds(schema, row, i, e)
  {
    hide EncodeCell, Bitmap, WithinLimit, Fits, Exceeds;
    if n > 0 {
      EncodeErrs(schema, row, n - 1, e);
      EncodeAccepts(schema, row, n - 1);
      CellErrs(schema[n - 1], row[n - 1], e);
      assert FirstExceeds(schema, row, n - 1, e) <==>
          Exceeds(schema[n - 1], row[n - 1], e) && EncodeTo(schema, row, n - 1).Raw?;
    }
  }

  lemma CellErrs(c: Column, v: ColumnValue, e: EncodeError)
    requires Fits(c, v)
    ensures EncodeCell(c, v) == Failed(e) <==> Exceeds(c, v, e)
  {
  }

  /** Of any bytes and schema: a VARBINARY value that is read has at most 65535 bytes. */
  lemma BlobsReadAreShort(raw: seq<byte>, schema: Schema, i: nat)
    requires i < |schema| && schema[i].typ.VARBINARY? && Decode(raw, schema).Some?
    ensures |Decode(raw, schema).value| == |schema|
    ensures Decode(raw, schema).value[i].Blob? ==> |Decode(raw, schema).value[i].s| <= 0xFFFF
  {
    EachDecoded(raw, schema, i, |schema|);
    hide DecodeTo, OffsetOf, IsNull;
  }

  /** A row with a longer VARBINARY value is encoded, if its CHAR and VARCHAR values allow it, and never read back. */
  lemma LongBlobIsCut(schema: Schema, row: seq<ColumnValue>, i: nat)
    requires WellTyped(schema, row) && i < |row| && row[i].Blob? && |row[i].s| > 0xFFFF
    ensures Encode(schema, row).Raw? <==> forall j | 0 <= j < |row| :: WithinLimit(schema[j], row[j])
    ensures Encode(schema, row).Raw? ==> Decode(Encode(schema, row).bytes, schema) != Some(row)
  {
    assert schema[i].typ.VARBINARY?;
    EncodeAccepts(schema, row, |row|);
    hide WellTyped, WithinLimit, EncodeTo, Decode;
    if Encode(schema, row).Raw? && Decode(Encode(schema, row).bytes, schema).Some? {
      BlobsReadAreShort(Encode(schema, row).bytes, schema, i);
    }
  }
}
