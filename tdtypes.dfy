/** Column codecs (`td_type` and its subclasses): how one column value is
    turned into struct items for the row builder, how struct items become bytes,
    and how a column is read back from the bytes of a row. */
module TdTypes {
  import opened Bytes
  import opened Errors
  import opened NumText

  /** The supported Teradata types (`SUPPORTED_TYPES`). */
  datatype Kind = Varchar | Char | Decimal | Float | Integer | SmallInt | Date | ByteInt

  /** The kinds stored as one little-endian signed integer of the column's width. */
  predicate IsIntegerKind(k: Kind) { k == Integer || k == SmallInt || k == ByteInt }

  predicate IsSignedKind(k: Kind) { IsIntegerKind(k) || k == Date || k == Decimal }

  predicate IsSignedWidth(w: nat) { w == 1 || w == 2 || w == 4 || w == 8 }

  /** The `Len` entry of a field definition: a length, a (precision, scale) pair for
      DECIMAL, or absent. */
  datatype Length = Width(n: nat) | PrecisionScale(precision: nat, scale: nat) | NoLength

  /** One field definition (a `ddf` dictionary): Name, Title, Type, Len, Nulls, Format. */
  datatype FieldDef = FieldDef(name: Text, title: Text, kind: Kind, len: Length, nullable: bool, format: Text)

  /** The label used for headers: the title or the name. */
  function Label(fd: FieldDef, useTitles: bool): Text {
    if useTitles then fd.title else fd.name
  }

  predicate IsCharacter(k: Kind) { k == Char || k == Varchar }

  /** The struct format characters the converter uses: b h i q (signed, 1/2/4/8 bytes),
      H (u16), B (u8), Ns (N-byte string), c (one character) and d (IEEE double). */
  datatype Fmt = Signed(w: nat) | U16 | U8 | Chars(n: nat) | Char1 | Double

  function FmtWidth(f: Fmt): nat {
    match f
    case Signed(w) => w
    case U16 => 2
    case U8 => 1
    case Chars(n) => n
    case Char1 => 1
    case Double => 8
  }

  /** A Python value handed to struct.pack. */
  datatype Datum = DInt(i: int) | DText(t: Text)

  /** One `add_data` or `add_custom_data` call: format, value and the length added to `row_len`. */
  datatype Item = Item(fmt: Fmt, datum: Datum, width: nat)

  /** A value of a column: an integer, a string, or the 8 raw bytes of a double. */
  datatype Value = VInt(i: int) | VText(t: Text) | VDouble(bits: seq<Byte>)

  /** A constructed `type_...` object: its field definition, `data_type` and `data_length`. */
  datatype Codec = Codec(fd: FieldDef, fmt: Fmt, width: nat) {
    /** Built by the constructor of its kind. */
    predicate Valid() { MakeCodec(fd) == Ok(this) }
  }

  /** The struct format and width of a DECIMAL column (`type_decimal.length`). */
  function DecimalFormat(precision: nat): (r: Result<(Fmt, nat)>)
    ensures r.Ok? <==> precision <= 18
    ensures r.Ok? ==> r.value.0 == Signed(r.value.1)
    ensures r.Ok? ==> r.value.1 == (if precision <= 2 then 1 else if precision <= 4 then 2
                                   else if precision <= 9 then 4 else 8)
  {
    if precision <= 2 then Ok((Signed(1), 1))
    else if precision <= 4 then Ok((Signed(2), 2))
    else if precision <= 9 then Ok((Signed(4), 4))
    else if precision <= 18 then Ok((Signed(8), 8))
    else Err(DecimalPrecision)
  }

  /** The codec for a field definition: the constructor of `type_<kind>`. */
  function MakeCodec(fd: FieldDef): (r: Result<Codec>)
    ensures r.Ok? ==> r.value.fd == fd
    ensures r.Ok? <==> (fd.kind == Float ==> fd.len == Width(8)) && (fd.kind == Char ==> fd.len.Width?)
                       && (fd.kind == Decimal ==> fd.len.PrecisionScale? && fd.len.precision <= 18)
    ensures fd.kind == Float && fd.len != Width(8) ==> r == Err(AssertionFailed)
    ensures fd.kind == Decimal && fd.len.PrecisionScale? && fd.len.precision > 18 ==> r == Err(DecimalPrecision)
  {
    match fd.kind
    case Integer => Ok(Codec(fd, Signed(4), 4))
    case SmallInt => Ok(Codec(fd, Signed(2), 2))
    case ByteInt => Ok(Codec(fd, Signed(1), 1))
    case Date => Ok(Codec(fd, Signed(4), 4))
    case Float =>
      // the constructor asserts an 8-byte length
      if fd.len == Width(8) then Ok(Codec(fd, Double, 8)) else Err(AssertionFailed)
    case Varchar => Ok(Codec(fd, U16, 2))
    case Char =>
      if fd.len.Width? then Ok(Codec(fd, Chars(fd.len.n), fd.len.n)) else Err(TypeMismatch)
    case Decimal =>
      if fd.len.PrecisionScale? then
        var (f, w) :- DecimalFormat(fd.len.precision);
        Ok(Codec(fd, f, w))
      else Err(TypeMismatch)
  }

  lemma CodecWidths(c: Codec)
    requires c.Valid()
    ensures c.width == FmtWidth(c.fmt)
    ensures IsSignedKind(c.fd.kind) ==> c.fmt == Signed(c.width) && IsSignedWidth(c.width)
    ensures c.fd.kind == Integer || c.fd.kind == Date ==> c.width == 4
    ensures c.fd.kind == SmallInt ==> c.width == 2
    ensures c.fd.kind == ByteInt ==> c.width == 1
    ensures c.fd.kind == Float ==> c.fmt == Double
    ensures c.fd.kind == Varchar ==> c.fmt == U16
    ensures c.fd.kind == Char ==> c.fd.len.Width? && c.fmt == Chars(c.fd.len.n)
    ensures c.fd.kind == Decimal ==> c.fd.len.PrecisionScale? && c.fd.len.precision <= 18
  {
  }

  // ---------------------------------------------------------------------------
  // Encoding: column value to struct items (`pack`)

  /** Python 2 `int(v)`. */
  function ToInt(v: Value): Result<int> {
    match v
    case VInt(i) => Ok(i)
    case VText(t) => ParseInt(t)
    case VDouble(_) => Err(FloatNotModelled)
  }

  /** The string comparison `len(r) > self.fd['Len']` of VARCHAR under Python 2, where an
      int compares above None and below a list. */
  predicate ExceedsVarcharLength(n: nat, len: Length) {
    match len
    case Width(m) => n > m
    case NoLength => true
    case PrecisionScale(_, _) => false
  }

  /** The digit scan of `type_decimal.pack`. */
  function HasDigit(t: Text): (r: bool)
    ensures r <==> exists k :: 0 <= k < |t| && IsDigit(t[k])
  {
    if t == [] then false
    else if IsDigit(t[0]) then (assert IsDigit(t[0]); true)
    else (assert forall k :: 1 <= k < |t| ==> t[k] == t[1..][k - 1]; HasDigit(t[1..]))
  }

  /** The stripped integer and fraction parts of a DECIMAL text, or DecimalMalformed when
      it has more than one point or no digit at all. */
  function DecimalParts(t: Text): Result<(Text, Text)> {
    var m := Split(t, '.');
    if |m| > 2 || !HasDigit(t) then Err(DecimalMalformed)
    else Ok((Strip(m[0]), if |m| > 1 then Strip(m[1]) else []))
  }

  /** The overflow check of `type_decimal.pack`, then the integer part, the fraction part
      and the zeros that fill the fraction up to the scale. */
  function PadDigits(intp: Text, decp: Text, precision: nat, scale: nat): Result<Text> {
    var decPadding := scale - |decp|;
    var intPadding := precision - scale - |Remove(intp, {'-', '+'})|;
    if decPadding < 0 || intPadding < 0 then Err(DecimalOverflow)
    else Ok(intp + decp + Zeros(decPadding))
  }

  /** The text `type_decimal.pack` hands to `int()`, or the error raised first. */
  function DecimalDigits(t: Text, precision: nat, scale: nat): Result<Text> {
    var (intp, decp) :- DecimalParts(t);
    PadDigits(intp, decp, precision, scale)
  }

  function DecimalPack(c: Codec, t: Text, precision: nat, scale: nat): Result<seq<Item>> {
    var digits :- DecimalDigits(t, precision, scale);
    var o :- ParseInt(digits);
    Ok([Item(c.fmt, DInt(o), c.width)])
  }

  /** Python 2 regex `\d` runs: the longest prefix of digits. */
  function DigitRun(s: Text): (r: Text)
    ensures |r| <= |s| && r == s[..|r|] && AllDigits(r)
    ensures |r| < |s| ==> !IsDigit(s[|r|])
  {
    if s != [] && IsDigit(s[0]) then
      var t := DigitRun(s[1..]);
      assert s[..1 + |t|] == [s[0]] + t;
      [s[0]] + t
    else []
  }

  predicate IsDateSeparator(c: Char8) { c == '-' || c == '/' }

  /** The match of `^[\s]*([0-9]{2,4})(?:-|/)([0-9]{1,2})(?:-|/)([0-9]{1,2})[\s]*$`,
      giving the year, month and day groups. */
  function MatchDate(t: Text): (r: Option<(Text, Text, Text)>)
    ensures r.Some? ==> AllDigits(r.value.0) && AllDigits(r.value.1) && AllDigits(r.value.2)
    ensures r.Some? ==> 2 <= |r.value.0| <= 4 && 1 <= |r.value.1| <= 2 && 1 <= |r.value.2| <= 2
  {
    var s := StripLeft(t);
    var y := DigitRun(s);
    var r1 := s[|y|..];
    if !(2 <= |y| <= 4) || r1 == [] || !IsDateSeparator(r1[0]) then None
    else
      var m := DigitRun(r1[1..]);
      var r2 := r1[1..][|m|..];
      if !(1 <= |m| <= 2) || r2 == [] || !IsDateSeparator(r2[0]) then None
      else
        var d := DigitRun(r2[1..]);
        var r3 := r2[1..][|d|..];
        if !(1 <= |d| <= 2) || !AllSpace(r3) then None
        else Some((y, m, d))
  }

  /** `type_date.pack`: the year is taken as written. The source's century adjustment
      `if yr < 100` compares a string with an integer, which is never true in Python 2. */
  function DatePack(c: Codec, t: Text): Result<seq<Item>> {
    DateItems(c, MatchDate(t))
  }

  /** The item of a date from what the pattern matched: none is DateMalformed, a month
      above 12 is DateMonth. */
  function DateItems(c: Codec, g: Option<(Text, Text, Text)>): Result<seq<Item>>
    requires g.Some? ==> AllDigits(g.value.0) && AllDigits(g.value.1) && AllDigits(g.value.2)
  {
    match g
    case None => Err(DateMalformed)
    case Some((y, m, d)) =>
      if DigitsValue(m) > 12 then Err(DateMonth)
      else
        var ri := (DigitsValue(y) - 1900) * 10000 + DigitsValue(m) * 100 + DigitsValue(d);
        Ok([Item(c.fmt, DInt(ri), c.width)])
  }

  /** One `add_custom_data('c', 1, ch)` per character of a VARCHAR value. */
  function CharItems(t: Text): (r: seq<Item>)
    ensures |r| == |t|
  {
    if t == [] then [] else [Item(Char1, DText([t[0]]), 1)] + CharItems(t[1..])
  }

  /** `pack(rph, r)` of the codec: the add calls it makes on the row builder, or the
      exception it raises (always before any call). */
  function Pack(c: Codec, v: Value): Result<seq<Item>>
    requires c.Valid()
  {
    // type_smallint and type_byteint inherit the pack of type_integer
    if IsIntegerKind(c.fd.kind) then var i :- ToInt(v); Ok([Item(c.fmt, DInt(i), c.width)])
    else match c.fd.kind
    case Float => Err(FloatNotModelled)
    case Date => if v.VText? then DatePack(c, v.t) else Err(TypeMismatch)
    case Varchar =>
      if !v.VText? then Err(TypeMismatch)
      else if ExceedsVarcharLength(|v.t|, c.fd.len) then Err(VarcharTooLong)
      else Ok([Item(U16, DInt(|v.t|), 2)] + CharItems(v.t))
    case Char =>
      if !v.VText? then Err(TypeMismatch)
      else if |v.t| > c.fd.len.n then Err(CharTooLong)
      else Ok([Item(c.fmt, DText(v.t), c.width)])
    case Decimal =>
      if v.VText? then DecimalPack(c, v.t, c.fd.len.precision, c.fd.len.scale) else Err(TypeMismatch)
  }

  // ---------------------------------------------------------------------------
  // struct.pack of items

  /** `struct.pack` of one value in native order without alignment. */
  function EncodeItem(f: Fmt, d: Datum): (r: Result<seq<Byte>>)
    ensures r.Ok? ==> |r.value| == FmtWidth(f)
    ensures r.Err? ==> r.error == StructError || r.error == FloatNotModelled
  {
    match f
    case Signed(w) => if d.DInt? && InSigned(d.i, w) then Ok(EncodeSigned(d.i, w)) else Err(StructError)
    case U16 => if d.DInt? && 0 <= d.i < 65536 then Ok(EncodeLE(d.i, 2)) else Err(StructError)
    case U8 => if d.DInt? && 0 <= d.i < 256 then Ok([d.i]) else Err(StructError)
    case Chars(n) =>
      // a string is truncated or NUL-padded to n bytes
      if d.DText? then Ok(ToBytes(Slice(d.t, 0, n)) + EncodeLE(0, n - |Slice(d.t, 0, n)|)) else Err(StructError)
    case Char1 => if d.DText? && |d.t| == 1 then Ok([Ord(d.t[0])]) else Err(StructError)
    case Double =>
      // only +0.0 (all bits clear) is within this model; other doubles are left out
      if d == DInt(0) then Ok(EncodeLE(0, 8)) else if d.DText? then Err(StructError) else Err(FloatNotModelled)
  }

  function SumWidths(fmts: seq<Fmt>): nat {
    if fmts == [] then 0 else FmtWidth(fmts[0]) + SumWidths(fmts[1..])
  }

  /** `struct.pack(fmt, *data)` for parallel format and value lists. */
  function EncodeItems(fmts: seq<Fmt>, data: seq<Datum>): (r: Result<seq<Byte>>)
    ensures r.Ok? ==> |fmts| == |data| && |r.value| == SumWidths(fmts)
    ensures r.Err? ==> r.error == StructError || r.error == FloatNotModelled
    decreases |fmts|
  {
    if |fmts| != |data| then Err(StructError)
    else if fmts == [] then Ok([])
    else
      var h :- EncodeItem(fmts[0], data[0]);
      var t :- EncodeItems(fmts[1..], data[1..]);
      Ok(h + t)
  }

  function Formats(items: seq<Item>): (r: seq<Fmt>)
    ensures |r| == |items| && forall i :: 0 <= i < |items| ==> r[i] == items[i].fmt
  {
    seq(|items|, i requires 0 <= i < |items| => items[i].fmt)
  }

  function Data(items: seq<Item>): (r: seq<Datum>)
    ensures |r| == |items| && forall i :: 0 <= i < |items| ==> r[i] == items[i].datum
  {
    seq(|items|, i requires 0 <= i < |items| => items[i].datum)
  }

  function SumItemWidths(items: seq<Item>): nat {
    if items == [] then 0 else items[0].width + SumItemWidths(items[1..])
  }

  /** The bytes of some items packed in order. */
  function ItemBytes(items: seq<Item>): Result<seq<Byte>> {
    EncodeItems(Formats(items), Data(items))
  }

  /** Every item credits `row_len` with the size of its format. */
  predicate WidthsAgree(items: seq<Item>) {
    forall i :: 0 <= i < |items| ==> items[i].width == FmtWidth(items[i].fmt)
  }

  /** Packing two format lists one after the other is packing their concatenation. */
  lemma {:induction false} EncodeItemsAppend(f1: seq<Fmt>, d1: seq<Datum>, f2: seq<Fmt>, d2: seq<Datum>)
    requires |f1| == |d1|
    ensures EncodeItems(f1 + f2, d1 + d2).Ok? <==> EncodeItems(f1, d1).Ok? && EncodeItems(f2, d2).Ok?
    ensures EncodeItems(f1 + f2, d1 + d2).Ok? ==>
              EncodeItems(f1 + f2, d1 + d2).value == EncodeItems(f1, d1).value + EncodeItems(f2, d2).value
    decreases |f1|
  {
    if f1 != [] {
      var f, d := f1 + f2, d1 + d2;
      assert f[1..] == f1[1..] + f2 && d[1..] == d1[1..] + d2;
      EncodeItemsAppend(f1[1..], d1[1..], f2, d2);
      AppendStep(f1, d1, f2, d2, f, d);
    } else {
      assert f1 + f2 == f2 && d1 + d2 == d2;
    }
  }

  lemma ConcatAssoc(h: Result<seq<Byte>>, t1: Result<seq<Byte>>, t2: Result<seq<Byte>>)
    ensures h.Ok? && t1.Ok? && t2.Ok? ==> h.value + (t1.value + t2.value) == (h.value + t1.value) + t2.value
  {
  }

  /** The step of `EncodeItemsAppend`: from the lists after their first item to the whole. */
  lemma AppendStep(f1: seq<Fmt>, d1: seq<Datum>, f2: seq<Fmt>, d2: seq<Datum>, f: seq<Fmt>, d: seq<Datum>)
    requires f1 != [] && |f1| == |d1| && f == f1 + f2 && d == d1 + d2
    requires EncodeItems(f[1..], d[1..]).Ok? <==> EncodeItems(f1[1..], d1[1..]).Ok? && EncodeItems(f2, d2).Ok?
    requires EncodeItems(f[1..], d[1..]).Ok? ==>
               EncodeItems(f[1..], d[1..]).value == EncodeItems(f1[1..], d1[1..]).value + EncodeItems(f2, d2).value
    ensures EncodeItems(f, d).Ok? <==> EncodeItems(f1, d1).Ok? && EncodeItems(f2, d2).Ok?
    ensures EncodeItems(f, d).Ok? ==> EncodeItems(f, d).value == EncodeItems(f1, d1).value + EncodeItems(f2, d2).value
  {
    assert f[0] == f1[0] && d[0] == d1[0] && (|f| == |d| <==> |f2| == |d2|);
    ConcatAssoc(EncodeItem(f1[0], d1[0]), EncodeItems(f1[1..], d1[1..]), EncodeItems(f2, d2));
  }

  lemma ItemBytesSingle(it: Item)
    ensures EncodeItem(it.fmt, it.datum).Ok? ==> ItemBytes([it]) == Ok(EncodeItem(it.fmt, it.datum).value)
    ensures EncodeItem(it.fmt, it.datum).Err? ==> ItemBytes([it]).Err?
  {
    var f, d := Formats([it]), Data([it]);
    assert f == [it.fmt] && d == [it.datum];
    assert f[1..] == [] && d[1..] == [];
    assert EncodeItems(f[1..], d[1..]) == Ok([]);
    if EncodeItem(it.fmt, it.datum).Ok? {
      assert EncodeItem(it.fmt, it.datum).value + [] == EncodeItem(it.fmt, it.datum).value;
    }
  }

  lemma ItemBytesAppend(a: seq<Item>, b: seq<Item>)
    ensures ItemBytes(a + b).Ok? <==> ItemBytes(a).Ok? && ItemBytes(b).Ok?
    ensures ItemBytes(a + b).Ok? ==> ItemBytes(a + b).value == ItemBytes(a).value + ItemBytes(b).value
  {
    assert Formats(a + b) == Formats(a) + Formats(b);
    assert Data(a + b) == Data(a) + Data(b);
    EncodeItemsAppend(Formats(a), Data(a), Formats(b), Data(b));
  }

  /** The `row_len` credited by items whose widths agree with their formats is the number
      of bytes they pack to. */
  lemma {:induction false} ItemWidthsAreBytes(items: seq<Item>)
    requires WidthsAgree(items) && ItemBytes(items).Ok?
    ensures SumItemWidths(items) == |ItemBytes(items).value|
  {
    if items != [] {
      assert items == [items[0]] + items[1..];
      ItemBytesAppend([items[0]], items[1..]);
      ItemWidthsAreBytes(items[1..]);
    }
  }

  lemma {:induction false} CharItemsWidths(t: Text)
    ensures WidthsAgree(CharItems(t)) && SumItemWidths(CharItems(t)) == |t|
  {
    if t != [] {
      CharItemsWidths(t[1..]);
      var r := CharItems(t);
      assert r[1..] == CharItems(t[1..]);
      assert forall i :: 1 <= i < |r| ==> r[i] == r[1..][i - 1];
    }
  }

  /** What a successful `pack` credits to `row_len`: each item its own format's size, in all
      the column's width, plus the characters for a VARCHAR. The errors it raises are the
      codec's own. */
  lemma PackItems(c: Codec, v: Value)
    requires c.Valid()
    ensures Pack(c, v).Ok? ==> WidthsAgree(Pack(c, v).value)
    ensures Pack(c, v).Ok? ==>
              SumItemWidths(Pack(c, v).value) == c.width + (if c.fd.kind == Varchar then |v.t| else 0)
  {
    CodecWidths(c);
    if c.fd.kind == Varchar {
      VarcharItems(c, v);
    } else {
      PackOne(c, v);
      if Pack(c, v).Ok? {
        OneItemWidths(Pack(c, v).value);
      }
    }
  }

  lemma VarcharItems(c: Codec, v: Value)
    requires c.Valid() && c.fd.kind == Varchar
    ensures Pack(c, v).Ok? ==> WidthsAgree(Pack(c, v).value) && SumItemWidths(Pack(c, v).value) == 2 + |v.t|
  {
    if Pack(c, v).Ok? {
      var items := Pack(c, v).value;
      assert items == [Item(U16, DInt(|v.t|), 2)] + CharItems(v.t);
      CharItemsWidths(v.t);
      assert items[1..] == CharItems(v.t);
      assert forall i :: 1 <= i < |items| ==> items[i] == items[1..][i - 1];
    }
  }

  /** Every kind but VARCHAR packs to one item of the codec's own format and width. */
  lemma PackOne(c: Codec, v: Value)
    requires c.Valid() && c.fd.kind != Varchar
    ensures Pack(c, v).Ok? ==> |Pack(c, v).value| == 1 && Pack(c, v).value[0].fmt == c.fmt
                               && Pack(c, v).value[0].width == c.width
  {
    if IsIntegerKind(c.fd.kind) {
    } else if c.fd.kind == Date {
      if v.VText? {
        assert Pack(c, v) == DateItems(c, MatchDate(v.t));
      }
    } else if c.fd.kind == Decimal {
      if v.VText? {
        assert Pack(c, v) == DecimalPack(c, v.t, c.fd.len.precision, c.fd.len.scale);
      }
    } else if c.fd.kind == Char {
    } else {
      assert c.fd.kind == Float;
    }
  }

  lemma OneItemWidths(items: seq<Item>)
    requires |items| == 1
    ensures WidthsAgree(items) <==> items[0].width == FmtWidth(items[0].fmt)
    ensures SumItemWidths(items) == items[0].width
  {
    assert items[1..] == [];
  }

  /** The errors `pack` raises are the codec's own conversion errors, never a framing,
      row or struct error. */
  lemma PackErrors(c: Codec, v: Value)
    requires c.Valid()
    ensures Pack(c, v).Err? ==> Pack(c, v).error in {TypeMismatch, VarcharTooLong, CharTooLong, DecimalMalformed,
                                                     DecimalOverflow, NotAnInteger, DateMalformed, DateMonth,
                                                     FloatNotModelled}
  {
    if c.fd.kind == Decimal && v.VText? {
      DecimalPackErrors(c, v.t, c.fd.len.precision, c.fd.len.scale);
    } else if c.fd.kind == Date && v.VText? {
      assert DatePack(c, v.t).Err? ==> DatePack(c, v.t).error in {DateMalformed, DateMonth};
    }
  }

  lemma DecimalPackErrors(c: Codec, t: Text, precision: nat, scale: nat)
    ensures DecimalPack(c, t, precision, scale).Err? ==>
              DecimalPack(c, t, precision, scale).error in {DecimalMalformed, DecimalOverflow, NotAnInteger}
  {
    var d := DecimalDigits(t, precision, scale);
    if d.Ok? {
      assert ParseInt(d.value).Err? ==> ParseInt(d.value).error == NotAnInteger;
    } else {
      assert DecimalParts(t).Err? ==> DecimalParts(t).error == DecimalMalformed;
    }
  }

  // ---------------------------------------------------------------------------
  // Decoding: bytes of a row to a column value (`unpack`)

  /** `struct.unpack_from` of a signed little-endian integer. */
  function ReadSigned(row: seq<Byte>, off: nat, w: nat): (r: Result<int>)
    requires w > 0
    ensures r.Ok? <==> off + w <= |row|
    ensures r.Ok? ==> r.value == DecodeSigned(row[off..off + w])
  {
    if off + w <= |row| then Ok(DecodeSigned(row[off..off + w])) else Err(StructError)
  }

  /** `struct.unpack_from('H', row, off)`. */
  function ReadU16(row: seq<Byte>, off: nat): (r: Result<nat>)
    ensures r.Ok? <==> off + 2 <= |row|
    ensures r.Ok? ==> r.value == DecodeLE(row[off..off + 2]) && r.value < 65536
  {
    if off + 2 <= |row| then Ok(DecodeLE(row[off..off + 2])) else Err(StructError)
  }

  /** Python `s.rstrip('\0')`. */
  function StripNul(t: Text): (r: Text)
    ensures |r| <= |t| && r == t[..|r|] && (r == [] || r[|r| - 1] != '\0')
    ensures forall i :: |r| <= i < |t| ==> t[i] == '\0'
  {
    if t != [] && t[|t| - 1] == '\0' then StripNul(t[..|t| - 1]) else t
  }

  /** The ISO text `type_date.unpack` makes of a stored date integer (floor division). */
  function DateText(ri: int): Text {
    var yr := ri / 10000 + 1900;
    var month := ri / 100 - (ri / 10000) * 100;
    var day := ri - (ri / 100) * 100;
    ZeroPad(yr, 4) + "-" + ZeroPad(month, 2) + "-" + ZeroPad(day, 2)
  }

  /** The text `type_decimal.unpack` makes of a stored integer with `scale` fraction digits. */
  function DecimalText(x: int, scale: nat): Text {
    if scale > 0 then
      var negative: Text := if x < 0 then "-" else "";
      var s := NatToText(if x < 0 then -x else x);
      var cut := if |s| > scale then |s| - scale else 0;
      negative + s[..cut] + "." + ZFill(s[cut..], scale)
    else IntToText(x)
  }

  /** `unpack(row_data, offset)` of the codec: the value and the number of bytes consumed. */
  function Unpack(c: Codec, row: seq<Byte>, off: nat): (r: Result<(Value, nat)>)
    requires c.Valid()
    ensures r.Ok? && c.fd.kind != Varchar ==> r.value.1 == c.width
  {
    CodecWidths(c);
    // the unpack of td_type, which the integer kinds keep
    if IsIntegerKind(c.fd.kind) then var x :- ReadSigned(row, off, c.width); Ok((VInt(x), c.width))
    else match c.fd.kind
    case Date => var x :- ReadSigned(row, off, c.width); Ok((VText(DateText(x)), c.width))
    case Float => if off + 8 <= |row| then Ok((VDouble(row[off..off + 8]), c.width)) else Err(StructError)
    case Varchar =>
      var n :- ReadU16(row, off);
      var s := Slice(row, off + 2, off + 2 + n);
      // the decoder asserts that the whole string was present
      if |s| != n then Err(AssertionFailed) else Ok((VText(FromBytes(s)), 2 + n))
    case Char => Ok((VText(StripNul(FromBytes(Slice(row, off, off + c.width)))), c.width))
    case Decimal =>
      var x :- ReadSigned(row, off, c.width);
      Ok((VText(DecimalText(x, c.fd.len.scale)), c.width))
  }

  /** How the csv writer spells a decoded value: `str()` of an integer, a string as it is.
      The repr of a double is not part of this model. */
  function Shown(v: Value): Result<Text> {
    match v
    case VInt(i) => Ok(IntToText(i))
    case VText(t) => Ok(t)
    case VDouble(_) => Err(FloatNotModelled)
  }
}
