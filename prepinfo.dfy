/** The PrepInfo parcel: the column descriptors the warehouse returns for a query
    (`PrepInfoColumn`) and the walk over them that yields the field definitions
    (the parcel loop of `get_ddf`). */
module PrepInfo {
  import opened Bytes
  import opened Errors
  import opened TdTypes
  import opened CodecLaws

  // ---------------------------------------------------------------------------
  // The type table
  // ---------------------------------------------------------------------------

  /** The type names of the Teradata type table. */
  datatype TypeName =
    | VARCHAR | CHAR | LONGVARCHAR | VARGRAPHIC | FixedGRAPHIC | LONGVARGRAPHIC | DECIMAL
    | FLOAT | INTEGER | SMALLINT | DATE | BYTEINT | VARBYTE | BYTE | LONGVARBYTE

  /** An entry of the type table: the type name and whether the code allows nulls. */
  datatype TypeEntry = TypeEntry(name: TypeName, nulls: bool)

  /** The type table of `PrepInfoColumn`: the entry of a type code, if the table has one. */
  function Lookup(code: nat): Option<TypeEntry> {
    match code
    case 448 => Some(TypeEntry(VARCHAR, false))
    case 449 => Some(TypeEntry(VARCHAR, true))
    case 452 => Some(TypeEntry(CHAR, false))
    case 453 => Some(TypeEntry(CHAR, true))
    case 456 => Some(TypeEntry(LONGVARCHAR, false))
    case 457 => Some(TypeEntry(LONGVARCHAR, true))
    case 464 => Some(TypeEntry(VARGRAPHIC, false))
    case 465 => Some(TypeEntry(VARGRAPHIC, true))
    case 468 => Some(TypeEntry(FixedGRAPHIC, false))
    case 469 => Some(TypeEntry(FixedGRAPHIC, true))
    case 472 => Some(TypeEntry(LONGVARGRAPHIC, false))
    case 473 => Some(TypeEntry(LONGVARGRAPHIC, true))
    case 484 => Some(TypeEntry(DECIMAL, false))
    case 485 => Some(TypeEntry(DECIMAL, true))
    case 480 => Some(TypeEntry(FLOAT, false))
    case 481 => Some(TypeEntry(FLOAT, true))
    case 496 => Some(TypeEntry(INTEGER, false))
    case 497 => Some(TypeEntry(INTEGER, true))
    case 500 => Some(TypeEntry(SMALLINT, false))
    case 501 => Some(TypeEntry(SMALLINT, true))
    case 752 => Some(TypeEntry(DATE, false))
    case 753 => Some(TypeEntry(DATE, true))
    case 756 => Some(TypeEntry(BYTEINT, false))
    case 757 => Some(TypeEntry(BYTEINT, true))
    case 688 => Some(TypeEntry(VARBYTE, false))
    case 689 => Some(TypeEntry(VARBYTE, true))
    case 692 => Some(TypeEntry(BYTE, false))
    case 693 => Some(TypeEntry(BYTE, true))
    case 696 => Some(TypeEntry(LONGVARBYTE, false))
    case 697 => Some(TypeEntry(LONGVARBYTE, true))
    case _ => None
  }

  /** The codes the table knows. */
  const KnownCodes: set<nat> := {
    448, 449, 452, 453, 456, 457, 464, 465, 468, 469, 472, 473, 484, 485, 480,
    481, 496, 497, 500, 501, 752, 753, 756, 757, 688, 689, 692, 693, 696, 697
  }

  /** The table knows exactly its thirty codes, in even/odd pairs that name one type,
      the odd code of a pair allowing nulls. */
  lemma LookupTable(code: nat)
    ensures Lookup(code).Some? <==> code in KnownCodes
    ensures Lookup(code).Some? ==> (Lookup(code).value.nulls <==> code % 2 == 1)
    ensures Lookup(code).Some? ==> code < 65536
    ensures Lookup(code).Some? && code % 2 == 0 ==> Lookup(code + 1) == Some(Lookup(code).value.(nulls := true))
  {
  }

  /** The type names the converter handles (`SUPPORTED_TYPES`). */
  const SupportedTypes: set<TypeName> := {VARCHAR, CHAR, DECIMAL, FLOAT, INTEGER, SMALLINT, DATE, BYTEINT}

  /** The kind of a supported type: the membership test against `SUPPORTED_TYPES`
      together with the later `type_<name>` lookup of the converter. */
  function KindOf(name: TypeName): (r: Option<Kind>)
    ensures r.Some? <==> name in SupportedTypes
  {
    match name
    case VARCHAR => Some(Varchar)
    case CHAR => Some(Char)
    case DECIMAL => Some(Decimal)
    case FLOAT => Some(Float)
    case INTEGER => Some(Integer)
    case SMALLINT => Some(SmallInt)
    case DATE => Some(Date)
    case BYTEINT => Some(ByteInt)
    case _ => None
  }

  /** The type name of a kind. */
  function KindName(k: Kind): (r: TypeName)
    ensures KindOf(r) == Some(k)
  {
    match k
    case Varchar => VARCHAR
    case Char => CHAR
    case Decimal => DECIMAL
    case Float => FLOAT
    case Integer => INTEGER
    case SmallInt => SMALLINT
    case Date => DATE
    case ByteInt => BYTEINT
  }

  /** Only the two DECIMAL codes give the DECIMAL kind. */
  lemma LookupDecimal(code: nat)
    requires Lookup(code).Some?
    ensures KindOf(Lookup(code).value.name) == Some(Decimal) <==> code == 484 || code == 485
  {
  }

  // ---------------------------------------------------------------------------
  // One column descriptor
  // ---------------------------------------------------------------------------

  /** A parsed `PrepInfoColumn`: the type code, its supported kind, its nullability,
      its `data_len`, the bytes of the name, format and title, and `pic_length`. */
  datatype Column = Column(code: nat, kind: Kind, nulls: bool, len: Length,
                           name: seq<Byte>, format: seq<Byte>, title: seq<Byte>, picLength: nat)

  /** The type code in the first two bytes of a descriptor. */
  function TypeCode(data: seq<Byte>): nat
    requires 2 <= |data|
  {
    DecodeLE(data[..2])
  }

  /** The type part of a descriptor: the code, its kind and nullability, and `data_len`.
      An unknown code raises TypeError and a known but unsupported one ValueError. */
  function ReadType(data: seq<Byte>): (r: Result<(nat, Kind, bool, Length)>)
    requires 4 <= |data|
    ensures Lookup(TypeCode(data)).None? ==> r == Err(UnknownType(TypeCode(data)))
    ensures Lookup(TypeCode(data)).Some? && KindOf(Lookup(TypeCode(data)).value.name).None? ==> r == Err(UnsupportedType)
    ensures r.Ok? ==> r.value.0 == TypeCode(data) && Lookup(r.value.0) == Some(TypeEntry(KindName(r.value.1), r.value.2))
  {
    var code := DecodeLE(data[..2]);
    match Lookup(code)
    case None => Err(UnknownType(code))
    case Some(e) =>
      match KindOf(e.name)
      case None => Err(UnsupportedType)
      case Some(kind) =>
        var len := if code == 484 || code == 485 then PrecisionScale(data[3], data[2])
                   else Width(DecodeLE(data[2..4]));
        Ok((code, kind, e.nulls, len))
  }

  /** A string preceded by its u16 length at `off`, and that length: the u16 read raises
      struct.error past the end of the data, while the string is cut short there, as
      Python slicing is. */
  function ReadString(data: seq<Byte>, off: nat): (r: Result<(seq<Byte>, nat)>)
    ensures r.Ok? ==> off + 2 <= |data| && |r.value.0| <= r.value.1
    ensures r.Err? ==> r == Err(StructError)
  {
    var n :- ReadU16(data, off);
    Ok((Slice(data, off + 2, off + 2 + n), n))
  }

  /** The name, format and title of a descriptor, one after the other from offset 4, and
      `pic_length`. */
  function ReadNames(data: seq<Byte>): (r: Result<(seq<Byte>, seq<Byte>, seq<Byte>, nat)>)
    ensures r.Ok? ==> 10 <= |data| && 10 + |r.value.0| + |r.value.1| + |r.value.2| <= r.value.3
    ensures r.Err? ==> r == Err(StructError)
  {
    var (name, cn) :- ReadString(data, 4);
    var (format, cf) :- ReadString(data, 6 + cn);
    var (title, ct) :- ReadString(data, 8 + cn + cf);
    Ok((name, format, title, 10 + cn + cf + ct))
  }

  /** `PrepInfoColumn(data)`: the type checks, then the strings. */
  function ParseColumn(data: seq<Byte>): (r: Result<Column>)
    ensures |data| < 4 ==> r == Err(StructError)
    ensures r.Ok? ==> 10 <= |data| && 10 + |r.value.name| + |r.value.format| + |r.value.title| <= r.value.picLength
  {
    if |data| < 4 then Err(StructError)
    else
      var (code, kind, nulls, len) :- ReadType(data);
      var (name, format, title, picLength) :- ReadNames(data);
      Ok(Column(code, kind, nulls, len, name, format, title, picLength))
  }

  /** An unknown code raises TypeError and a known unsupported one ValueError, whatever
      follows the first four bytes: both checks come before any string is read. */
  lemma ColumnErrors(data: seq<Byte>)
    requires 4 <= |data|
    ensures Lookup(TypeCode(data)).None? ==> ParseColumn(data) == Err(UnknownType(TypeCode(data)))
    ensures Lookup(TypeCode(data)).Some? && KindOf(Lookup(TypeCode(data)).value.name).None? ==>
              ParseColumn(data) == Err(UnsupportedType)
    ensures ParseColumn(data[..4]).Err?
    ensures ParseColumn(data[..4]) != Err(StructError) ==> ParseColumn(data) == ParseColumn(data[..4])
  {
    var head := data[..4];
    assert head[..2] == data[..2] && head[2..4] == data[2..4] && head[2] == data[2] && head[3] == data[3];
    assert ReadType(head) == ReadType(data);
    assert ReadNames(head).Err?;
  }

  /** A parsed column allows nulls exactly when its type code is odd. */
  lemma ColumnNulls(data: seq<Byte>)
    requires ParseColumn(data).Ok?
    ensures ParseColumn(data).value.nulls <==> ParseColumn(data).value.code % 2 == 1
  {
    LookupTable(ParseColumn(data).value.code);
  }

  /** DECIMAL takes `Len` from bytes 3 and 2 (precision, scale); every other type reads
      bytes 2..4 as one u16. */
  lemma ColumnLength(data: seq<Byte>)
    requires ParseColumn(data).Ok?
    ensures ParseColumn(data).value.kind == Decimal ==> ParseColumn(data).value.len == PrecisionScale(data[3], data[2])
    ensures ParseColumn(data).value.kind != Decimal ==> ParseColumn(data).value.len == Width(DecodeLE(data[2..4]))
  {
    LookupDecimal(ParseColumn(data).value.code);
  }

  /** The bytes a string is read from: all `n` of them when they are there, otherwise
      what is left of the data. */
  lemma StringLayout(data: seq<Byte>, off: nat)
    requires ReadString(data, off).Ok?
    ensures var (t, n) := ReadString(data, off).value;
            && off + 2 + |t| <= |data| && t == data[off + 2..off + 2 + |t|]
            && (off + 2 + n <= |data| <==> |t| == n)
  {
  }

  /** The name and the format are read in full, since a length follows each of them;
      only the title can be cut short, and `pic_length` is the length of the descriptor
      exactly when the descriptor fits in the data. */
  lemma NamesLayout(data: seq<Byte>, name: seq<Byte>, format: seq<Byte>, title: seq<Byte>, picLength: nat)
    requires ReadNames(data) == Ok((name, format, title, picLength))
    ensures ReadString(data, 4) == Ok((name, |name|))
    ensures ReadString(data, 6 + |name|) == Ok((format, |format|))
    ensures ReadString(data, 8 + |name| + |format|).Ok? && ReadString(data, 8 + |name| + |format|).value.0 == title
    ensures picLength <= |data| <==> picLength == 10 + |name| + |format| + |title|
  {
    var cn, cf, ct := NamesParts(data, name, format, title, picLength);
    StringsLayout(data, name, format, title, cn, cf, ct);
  }

  /** The same for three strings read one after the other from offset 4. */
  lemma StringsLayout(data: seq<Byte>, name: seq<Byte>, format: seq<Byte>, title: seq<Byte>, cn: nat, cf: nat, ct: nat)
    requires ReadString(data, 4) == Ok((name, cn)) && ReadString(data, 6 + cn) == Ok((format, cf))
    requires ReadString(data, 8 + cn + cf) == Ok((title, ct))
    ensures cn == |name| && cf == |format|
    ensures 10 + cn + cf + ct <= |data| <==> ct == |title|
  {
    StringFull(data, 4, 6 + cn);
    StringFull(data, 6 + cn, 8 + cn + cf);
    StringLayout(data, 8 + cn + cf);
  }

  /** The three strings `ReadNames` is made of, and their lengths as read. */
  lemma NamesParts(data: seq<Byte>, name: seq<Byte>, format: seq<Byte>, title: seq<Byte>, picLength: nat)
      returns (cn: nat, cf: nat, ct: nat)
    requires ReadNames(data) == Ok((name, format, title, picLength))
    ensures ReadString(data, 4) == Ok((name, cn)) && ReadString(data, 6 + cn) == Ok((format, cf))
    ensures ReadString(data, 8 + cn + cf) == Ok((title, ct)) && picLength == 10 + cn + cf + ct
  {
    cn := ReadString(data, 4).value.1;
    cf := ReadString(data, 6 + cn).value.1;
    ct := ReadString(data, 8 + cn + cf).value.1;
  }

  /** A string followed by another length is read in full. */
  lemma StringFull(data: seq<Byte>, off: nat, next: nat)
    requires ReadString(data, off).Ok? && next == off + 2 + ReadString(data, off).value.1
    requires ReadString(data, next).Ok?
    ensures |ReadString(data, off).value.0| == ReadString(data, off).value.1
  {
    StringLayout(data, off);
  }

  // ---------------------------------------------------------------------------
  // Writing a descriptor
  // ---------------------------------------------------------------------------

  /** What a column descriptor carries, before it is written out. */
  datatype Descriptor = Descriptor(code: nat, len: Length, name: seq<Byte>, format: seq<Byte>, title: seq<Byte>)

  /** A string preceded by its u16 length. */
  function Field(t: seq<Byte>): (r: seq<Byte>)
    ensures |r| == 2 + |t|
  {
    EncodeLE(|t|, 2) + t
  }

  /** The length field: a u16, or the scale and precision bytes of a DECIMAL. */
  function LengthBytes(len: Length): (r: seq<Byte>)
    ensures |r| == 2
  {
    match len
    case Width(n) => EncodeLE(n, 2)
    case PrecisionScale(p, s) => [s % 256, p % 256]
    case NoLength => EncodeLE(0, 2)
  }

  /** The bytes of a descriptor as the warehouse lays them out. */
  function EncodeColumn(d: Descriptor): (r: seq<Byte>)
    ensures |r| == 10 + |d.name| + |d.format| + |d.title|
  {
    (EncodeLE(d.code, 2) + LengthBytes(d.len)) + (Field(d.name) + (Field(d.format) + Field(d.title)))
  }

  /** A descriptor of a supported type whose fields fit their widths. */
  predicate WellFormed(d: Descriptor) {
    && Lookup(d.code).Some? && KindOf(Lookup(d.code).value.name).Some?
    && (if d.code == 484 || d.code == 485
        then d.len.PrecisionScale? && d.len.precision < 256 && d.len.scale < 256
        else d.len.Width? && d.len.n < 65536)
    && |d.name| < 65536 && |d.format| < 65536 && |d.title| < 65536
  }

  /** The column a well-formed descriptor is read back as. */
  function Expected(d: Descriptor): Column
    requires WellFormed(d)
  {
    var e := Lookup(d.code).value;
    Column(d.code, KindOf(e.name).value, e.nulls, d.len, d.name, d.format, d.title, 10 + |d.name| + |d.format| + |d.title|)
  }

  /** Reading a written descriptor, followed by anything, gives back its fields, and
      `pic_length` is the length of what was written. */
  lemma ParseEncoded(d: Descriptor, more: seq<Byte>)
    requires WellFormed(d)
    ensures ParseColumn(EncodeColumn(d) + more) == Ok(Expected(d))
    ensures Expected(d).picLength == |EncodeColumn(d)|
  {
    var data := EncodeColumn(d) + more;
    var head := EncodeLE(d.code, 2) + LengthBytes(d.len);
    var names := Field(d.name) + (Field(d.format) + Field(d.title));
    assert At(data, 0, head + names);
    AtSplit(data, 0, head, names);
    assert |head| == 4;
    ParsedAt(data, d);
  }

  /** A descriptor whose two parts are where they are written reads back. */
  lemma ParsedAt(data: seq<Byte>, d: Descriptor)
    requires WellFormed(d) && At(data, 0, EncodeLE(d.code, 2) + LengthBytes(d.len))
    requires At(data, 4, Field(d.name) + (Field(d.format) + Field(d.title)))
    ensures ParseColumn(data) == Ok(Expected(d))
  {
    TypeEncoded(data, d);
    NamesEncoded(data, d.name, d.format, d.title);
    var t, n := ReadType(data).value, ReadNames(data).value;
    ColumnOf(data, t, n);
    ExpectedOf(d, t, n);
  }

  /** A descriptor whose two parts read is the column they make up. */
  lemma ColumnOf(data: seq<Byte>, t: (nat, Kind, bool, Length), n: (seq<Byte>, seq<Byte>, seq<Byte>, nat))
    requires 4 <= |data| && ReadType(data) == Ok(t) && ReadNames(data) == Ok(n)
    ensures ParseColumn(data) == Ok(Column(t.0, t.1, t.2, t.3, n.0, n.1, n.2, n.3))
  {
  }

  /** The column a descriptor is expected to read back as, from its type part and its
      strings. */
  lemma ExpectedOf(d: Descriptor, t: (nat, Kind, bool, Length), n: (seq<Byte>, seq<Byte>, seq<Byte>, nat))
    requires WellFormed(d)
    requires t == (d.code, KindOf(Lookup(d.code).value.name).value, Lookup(d.code).value.nulls, d.len)
    requires n == (d.name, d.format, d.title, 10 + |d.name| + |d.format| + |d.title|)
    ensures Expected(d) == Column(t.0, t.1, t.2, t.3, n.0, n.1, n.2, n.3)
  {
  }

  /** The type part of a written descriptor reads back as its code and length. */
  lemma TypeEncoded(data: seq<Byte>, d: Descriptor)
    requires WellFormed(d) && At(data, 0, EncodeLE(d.code, 2) + LengthBytes(d.len))
    ensures 4 <= |data|
    ensures ReadType(data) == Ok((d.code, KindOf(Lookup(d.code).value.name).value, Lookup(d.code).value.nulls, d.len))
  {
    AtSplit(data, 0, EncodeLE(d.code, 2), LengthBytes(d.len));
    Pow256Values();
    LookupTable(d.code);
    DecodeEncodeLE(d.code, 2);
    assert data[..2] == EncodeLE(d.code, 2);
    if d.code != 484 && d.code != 485 {
      DecodeEncodeLE(d.len.n, 2);
    }
  }

  /** The strings of a written descriptor read back in full. */
  lemma NamesEncoded(data: seq<Byte>, name: seq<Byte>, format: seq<Byte>, title: seq<Byte>)
    requires At(data, 4, Field(name) + (Field(format) + Field(title)))
    requires |name| < 65536 && |format| < 65536 && |title| < 65536
    ensures ReadNames(data) == Ok((name, format, title, 10 + |name| + |format| + |title|))
  {
    AtSplit(data, 4, Field(name), Field(format) + Field(title));
    assert ReadString(data, 4) == Ok((name, |name|)) by {
      FieldAt(data, 4, name);
    }
    assert ReadString(data, 6 + |name|) == Ok((format, |format|)) && ReadString(data, 8 + |name| + |format|) == Ok((title, |title|)) by {
      AtSplit(data, 6 + |name|, Field(format), Field(title));
      FieldAt(data, 6 + |name|, format);
      FieldAt(data, 8 + |name| + |format|, title);
    }
    NamesFrom(data, name, format, title);
  }

  /** Three strings read one after the other are the names of a descriptor. */
  lemma NamesFrom(data: seq<Byte>, name: seq<Byte>, format: seq<Byte>, title: seq<Byte>)
    requires ReadString(data, 4) == Ok((name, |name|))
    requires ReadString(data, 6 + |name|) == Ok((format, |format|))
    requires ReadString(data, 8 + |name| + |format|) == Ok((title, |title|))
    ensures ReadNames(data) == Ok((name, format, title, 10 + |name| + |format| + |title|))
  {
  }

  /** A written string reads back in full. */
  lemma FieldAt(data: seq<Byte>, off: nat, t: seq<Byte>)
    requires At(data, off, Field(t)) && |t| < 65536
    ensures ReadString(data, off) == Ok((t, |t|))
  {
    AtSplit(data, off, EncodeLE(|t|, 2), t);
    Pow256Values();
    DecodeEncodeLE(|t|, 2);
  }

  // ---------------------------------------------------------------------------
  // The parcel
  // ---------------------------------------------------------------------------

  /** The PrepInfo parcel read: the cost estimate (a double kept as its 8 bytes), the
      summary count and the columns. */
  datatype Parcel = Parcel(cost: seq<Byte>, summaryCount: nat, columns: seq<Column>)

  /** The column walk of `get_ddf`, for a given reader of one column: `count` columns,
      each read from the rest of the parcel at `offset`, the offset then advanced by its
      `pic_length`. */
  function Walk(read: seq<Byte> -> Result<Column>, parcel: seq<Byte>, offset: nat, count: nat): (r: Result<seq<Column>>)
    ensures r.Ok? ==> |r.value| == count
    decreases count
  {
    if count == 0 then Ok([])
    else
      var c :- read(Drop(parcel, offset));
      var rest :- Walk(read, parcel, offset + c.picLength, count - 1);
      Ok([c] + rest)
  }

  /** `get_ddf` after the parcel has been fetched: an empty parcel, a parcel shorter than
      its 12-byte header and a parcel that lists no columns are errors. */
  function ParseParcel(parcel: seq<Byte>): (r: Result<Parcel>)
    ensures |parcel| == 0 ==> r == Err(NoPrepInfo)
    ensures 0 < |parcel| < 12 ==> r == Err(StructError)
    ensures 12 <= |parcel| && DecodeLE(parcel[10..12]) == 0 ==> r == Err(NoColumns)
    ensures r.Ok? ==> 12 <= |parcel| && |r.value.columns| == DecodeLE(parcel[10..12]) > 0
    ensures r.Ok? ==> r.value.cost == parcel[..8] && r.value.summaryCount == DecodeLE(parcel[8..10])
  {
    if |parcel| == 0 then Err(NoPrepInfo)
    else if |parcel| < 12 then Err(StructError)
    else
      var count := DecodeLE(parcel[10..12]);
      if count == 0 then Err(NoColumns)
      else
        var columns :- Walk(ParseColumn, parcel, 12, count);
        Ok(Parcel(parcel[..8], DecodeLE(parcel[8..10]), columns))
  }

  /** The `ddf` entry built from a column: Name, Title, Type, Len, Nulls and Format. */
  function FieldOf(c: Column): (fd: FieldDef)
    ensures ToBytes(fd.name) == c.name && ToBytes(fd.title) == c.title && fd.kind == c.kind
    ensures fd.len == c.len && fd.nullable == c.nulls && ToBytes(fd.format) == c.format
  {
    FieldDef(FromBytes(c.name), FromBytes(c.title), c.kind, c.len, c.nulls, FromBytes(c.format))
  }

  function FieldsOf(cs: seq<Column>): (r: seq<FieldDef>)
    ensures |r| == |cs| && forall i :: 0 <= i < |cs| ==> r[i] == FieldOf(cs[i])
  {
    seq(|cs|, i requires 0 <= i < |cs| => FieldOf(cs[i]))
  }

  /** The parcel part of `get_ddf`: the header checks, then the column loop. */
  method GetDdf(parcel: seq<Byte>) returns (r: Result<Parcel>, ddf: seq<FieldDef>)
    ensures r == ParseParcel(parcel)
    ensures r.Ok? ==> ddf == FieldsOf(r.value.columns)
  {
    ddf := [];
    if |parcel| == 0 {
      return Err(NoPrepInfo), ddf;
    }
    if |parcel| < 12 {
      return Err(StructError), ddf;
    }
    var count := DecodeLE(parcel[10..12]);
    if count == 0 {
      return Err(NoColumns), ddf;
    }
    var columns;
    columns, ddf := ReadColumns(ParseColumn, parcel, 12, count);
    if columns.Err? {
      return Err(columns.error), ddf;
    }
    r := Ok(Parcel(parcel[..8], DecodeLE(parcel[8..10]), columns.value));
  }

  /** The column loop of `get_ddf`, written for any reader of one column: reads `count`
      columns from `start` on and builds the field definition of each. */
  method ReadColumns(read: seq<Byte> -> Result<Column>, parcel: seq<Byte>, start: nat, count: nat)
    returns (r: Result<seq<Column>>, ddf: seq<FieldDef>)
    ensures r == Walk(read, parcel, start, count)
    ensures r.Ok? ==> ddf == FieldsOf(r.value)
  {
    var columns: seq<Column> := [];
    ddf := [];
    var offset: nat := start;
    var left: nat := count;
    PrefixedEmpty(Walk(read, parcel, start, count));
    while 0 < left
      invariant Walk(read, parcel, start, count) == Prefixed(columns, Walk(read, parcel, offset, left))
      invariant ddf == FieldsOf(columns)
    {
      var c := read(Drop(parcel, offset));
      if c.Err? {
        WalkErr(read, parcel, offset, left, columns);
        return Err(c.error), ddf;
      }
      var next := offset + c.value.picLength;
      WalkStep(read, parcel, offset, left, columns, c.value, next);
      columns := columns + [c.value];
      ddf := ddf + [FieldOf(c.value)];
      offset := next;
      left := left - 1;
    }
    assert columns + [] == columns;
    r := Ok(columns);
  }

  function Prefixed(done: seq<Column>, rest: Result<seq<Column>>): Result<seq<Column>> {
    if rest.Ok? then Ok(done + rest.value) else rest
  }

  lemma PrefixedEmpty(rest: Result<seq<Column>>)
    ensures Prefixed([], rest) == rest
  {
    if rest.Ok? {
      assert [] + rest.value == rest.value;
    }
  }

  /** One step of the walk over a column that reads. */
  lemma WalkCons(read: seq<Byte> -> Result<Column>, parcel: seq<Byte>, offset: nat, count: nat, c: Column, next: nat)
    requires 0 < count && read(Drop(parcel, offset)) == Ok(c) && next == offset + c.picLength
    ensures Walk(read, parcel, offset, count) == Prefixed([c], Walk(read, parcel, next, count - 1))
  {
  }

  /** The loop invariant of the parcel loop carried over one column. */
  lemma WalkStep(read: seq<Byte> -> Result<Column>, parcel: seq<Byte>, offset: nat, left: nat, done: seq<Column>,
                 c: Column, next: nat)
    requires 0 < left && read(Drop(parcel, offset)) == Ok(c) && next == offset + c.picLength
    ensures Prefixed(done, Walk(read, parcel, offset, left)) == Prefixed(done + [c], Walk(read, parcel, next, left - 1))
  {
    WalkCons(read, parcel, offset, left, c, next);
    var rest := Walk(read, parcel, next, left - 1);
    if rest.Ok? {
      assert done + ([c] + rest.value) == done + [c] + rest.value;
    }
  }

  /** A column that does not read ends the walk with its error. */
  lemma WalkErr(read: seq<Byte> -> Result<Column>, parcel: seq<Byte>, offset: nat, left: nat, done: seq<Column>)
    requires 0 < left && read(Drop(parcel, offset)).Err?
    ensures Prefixed(done, Walk(read, parcel, offset, left)) == Err(read(Drop(parcel, offset)).error)
  {
  }

  // ---------------------------------------------------------------------------
  // Writing a parcel
  // ---------------------------------------------------------------------------

  function EncodeColumns(ds: seq<Descriptor>): seq<Byte> {
    if ds == [] then [] else EncodeColumn(ds[0]) + EncodeColumns(ds[1..])
  }

  /** A parcel as the warehouse lays it out: the 8 cost bytes, the summary count, the
      column count and the descriptors. */
  function EncodeParcel(cost: seq<Byte>, summaryCount: nat, ds: seq<Descriptor>): seq<Byte> {
    cost + EncodeLE(summaryCount, 2) + EncodeLE(|ds|, 2) + EncodeColumns(ds)
  }

  predicate AllWellFormed(ds: seq<Descriptor>) {
    forall i :: 0 <= i < |ds| ==> WellFormed(ds[i])
  }

  /** The columns written descriptors read back as. */
  function ExpectedAll(ds: seq<Descriptor>): (r: seq<Column>)
    requires AllWellFormed(ds)
    ensures |r| == |ds|
  {
    if ds == [] then []
    else
      assert forall i :: 0 <= i < |ds| - 1 ==> ds[1..][i] == ds[i + 1];
      [Expected(ds[0])] + ExpectedAll(ds[1..])
  }

  /** Reading a written parcel gives back its cost bytes, its summary count and its
      descriptors. */
  lemma ParcelRoundTrip(cost: seq<Byte>, summaryCount: nat, ds: seq<Descriptor>)
    requires |cost| == 8 && summaryCount < 65536 && 0 < |ds| < 65536 && AllWellFormed(ds)
    ensures ParseParcel(EncodeParcel(cost, summaryCount, ds)) == Ok(Parcel(cost, summaryCount, ExpectedAll(ds)))
  {
    var parcel := EncodeParcel(cost, summaryCount, ds);
    HeaderEncoded(cost, summaryCount, ds);
    forall d, m | WellFormed(d)
      ensures ParseColumn(EncodeColumn(d) + m) == Ok(Expected(d))
    {
      ParseEncoded(d, m);
    }
    WalkEncoded(ParseColumn, parcel, 12, ds, []);
    ParcelFrom(parcel, Parcel(cost, summaryCount, ExpectedAll(ds)));
  }

  /** The header of a written parcel reads back, and the descriptors follow it. */
  lemma HeaderEncoded(cost: seq<Byte>, summaryCount: nat, ds: seq<Descriptor>)
    requires |cost| == 8 && summaryCount < 65536 && |ds| < 65536
    ensures var parcel := EncodeParcel(cost, summaryCount, ds);
      && 12 <= |parcel| && parcel[..8] == cost && DecodeLE(parcel[8..10]) == summaryCount
      && DecodeLE(parcel[10..12]) == |ds| && Drop(parcel, 12) == EncodeColumns(ds) + []
  {
    var parcel := EncodeParcel(cost, summaryCount, ds);
    assert parcel[..8] == cost;
    assert parcel[8..10] == EncodeLE(summaryCount, 2);
    assert parcel[10..12] == EncodeLE(|ds|, 2);
    assert Drop(parcel, 12) == EncodeColumns(ds) + [];
    Pow256Values();
    DecodeEncodeLE(summaryCount, 2);
    DecodeEncodeLE(|ds|, 2);
  }

  /** A parcel whose header and column walk read back is the parcel they make up. */
  lemma ParcelFrom(parcel: seq<Byte>, p: Parcel)
    requires 12 <= |parcel| && parcel[..8] == p.cost && DecodeLE(parcel[8..10]) == p.summaryCount
    requires DecodeLE(parcel[10..12]) == |p.columns| > 0
    requires Walk(ParseColumn, parcel, 12, |p.columns|) == Ok(p.columns)
    ensures ParseParcel(parcel) == Ok(p)
  {
  }

  /** The column walk, with a reader that reads back every written descriptor, over
      written descriptors followed by anything. */
  lemma {:induction false} WalkEncoded(read: seq<Byte> -> Result<Column>, parcel: seq<Byte>, offset: nat,
                                       ds: seq<Descriptor>, more: seq<Byte>)
    requires forall d, m :: WellFormed(d) ==> read(EncodeColumn(d) + m) == Ok(Expected(d))
    requires AllWellFormed(ds) && Drop(parcel, offset) == EncodeColumns(ds) + more
    ensures Walk(read, parcel, offset, |ds|) == Ok(ExpectedAll(ds))
    decreases |ds|
  {
    if ds != [] {
      var next := WalkHead(read, parcel, offset, ds, more);
      WalkEncoded(read, parcel, next, ds[1..], more);
      WalkFrom(read, parcel, offset, |ds|, Expected(ds[0]), ExpectedAll(ds[1..]));
    }
  }

  /** The first step of that walk: the first descriptor reads back, and the others
      follow it. */
  lemma WalkHead(read: seq<Byte> -> Result<Column>, parcel: seq<Byte>, offset: nat,
                 ds: seq<Descriptor>, more: seq<Byte>) returns (next: nat)
    requires forall d, m :: WellFormed(d) ==> read(EncodeColumn(d) + m) == Ok(Expected(d))
    requires AllWellFormed(ds) && ds != [] && Drop(parcel, offset) == EncodeColumns(ds) + more
    ensures read(Drop(parcel, offset)) == Ok(Expected(ds[0])) && next == offset + Expected(ds[0]).picLength
    ensures Drop(parcel, next) == EncodeColumns(ds[1..]) + more && AllWellFormed(ds[1..])
  {
    WellFormedTail(ds);
    ColumnsCons(ds, more);
    assert read(Drop(parcel, offset)) == Ok(Expected(ds[0]));
    next := offset + Expected(ds[0]).picLength;
    DropAfter(parcel, offset, EncodeColumn(ds[0]), EncodeColumns(ds[1..]) + more, next);
  }

  lemma ColumnsCons(ds: seq<Descriptor>, more: seq<Byte>)
    requires ds != []
    ensures EncodeColumns(ds) + more == EncodeColumn(ds[0]) + (EncodeColumns(ds[1..]) + more)
  {
  }

  lemma WellFormedTail(ds: seq<Descriptor>)
    requires AllWellFormed(ds) && ds != []
    ensures WellFormed(ds[0]) && AllWellFormed(ds[1..])
  {
    assert forall i :: 0 <= i < |ds| - 1 ==> ds[1..][i] == ds[i + 1];
  }

  /** A walk whose first column and the rest read is those columns. */
  lemma WalkFrom(read: seq<Byte> -> Result<Column>, parcel: seq<Byte>, offset: nat, count: nat,
                 c: Column, rest: seq<Column>)
    requires 0 < count && read(Drop(parcel, offset)) == Ok(c)
    requires Walk(read, parcel, offset + c.picLength, count - 1) == Ok(rest)
    ensures Walk(read, parcel, offset, count) == Ok([c] + rest)
  {
  }

  lemma DropAfter(parcel: seq<Byte>, offset: nat, a: seq<Byte>, b: seq<Byte>, next: nat)
    requires Drop(parcel, offset) == a + b && next == offset + |a|
    ensures Drop(parcel, next) == b
  {
    if offset <= |parcel| {
      assert parcel[next..] == (a + b)[|a|..];
    }
  }
}
