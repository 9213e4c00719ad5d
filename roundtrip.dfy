/** The two drivers undo each other: a csv row whose values are in the form the exporter
    writes is packed by `csv_to_fexp` into a frame that `fexp_to_csv` reads back as the same
    row, and a whole csv file comes back row for row. */
module RowRoundTrip {
  import opened Bytes
  import opened Errors
  import opened Indicator
  import opened TdTypes
  import opened CodecLaws
  import opened RowPack
  import opened RowUnpack
  import opened Converter
  import opened Importer

  // ---------------------------------------------------------------------------
  // One column

  /** An empty csv value of a non-character column, which the importer stores as a null. */
  predicate NullColumn(c: Codec, t: Text) {
    t == [] && !IsCharacter(c.fd.kind)
  }

  /** A csv value the round trip preserves: an empty value of a nullable non-character
      column, or a text in the form the exporter writes. */
  predicate Acceptable(c: Codec, t: Text)
    requires c.Valid()
  {
    if NullColumn(c, t) then c.fd.nullable else CanonicalText(c, t)
  }

  /** The bytes the importer writes for one column. */
  function ColumnBytes(c: Codec, t: Text): Result<seq<Byte>>
    requires c.Valid()
  {
    if NullColumn(c, t) then EncodeItem(c.fmt, DInt(0))
    else
      var items :- Pack(c, VText(t));
      ItemBytes(items)
  }

  /** The most a column can add to the bound the guard of `pack` checks. */
  function Cost(c: Codec, t: Text): nat {
    (if IsCharacter(c.fd.kind) then |t| else 10) + c.width
  }

  /** Storing one acceptable value: the field is packed, one null flag is recorded (set
      exactly for a null), the builder stays consistent and its bytes grow by the column's
      own bytes, which are no more than the column's cost. */
  lemma ImportColumn(s: PackState, c: Codec, t: Text, pre: seq<Byte>)
    requires c.Valid() && Acceptable(c, t)
    requires Consistent(s) && EncodeItems(s.format, s.data) == Ok(pre)
    requires s.rowLen + |s.nulls| + 1 + Cost(c, t) <= MaxRow
    ensures ImportField(s, c, Some(t)).Ok? && ColumnBytes(c, t).Ok?
    ensures var s1 := ImportField(s, c, Some(t)).value;
            Consistent(s1) && s1.nulls == s.nulls + [NullColumn(c, t)]
            && EncodeItems(s1.format, s1.data) == Ok(pre + ColumnBytes(c, t).value)
            && |ColumnBytes(c, t).value| <= Cost(c, t)
  {
    CodecWidths(c);
    if NullColumn(c, t) {
      NullStored(s, c, pre);
    } else {
      PackStored(s, c, t, pre);
    }
  }

  lemma NullStored(s: PackState, c: Codec, pre: seq<Byte>)
    requires c.Valid() && !IsCharacter(c.fd.kind)
    requires Consistent(s) && EncodeItems(s.format, s.data) == Ok(pre)
    ensures EncodeItem(c.fmt, DInt(0)).Ok?
    ensures var s1 := NullDefined(Added(s, c.fmt, c.width, DInt(0)), true);
            Consistent(s1) && EncodeItems(s1.format, s1.data) == Ok(pre + EncodeItem(c.fmt, DInt(0)).value)
            && |EncodeItem(c.fmt, DInt(0)).value| == c.width
  {
    CodecWidths(c);
    Pow256Values();
    assert EncodeItem(c.fmt, DInt(0)).Ok?;
    var it := Item(c.fmt, DInt(0), c.width);
    ItemBytesSingle(it);
    assert Formats([it]) == [c.fmt] && Data([it]) == [DInt(0)];
    EncodeItemsAppend(s.format, s.data, [c.fmt], [DInt(0)]);
    AddedConsistent(s, c.fmt, c.width, DInt(0));
  }

  lemma PackStored(s: PackState, c: Codec, t: Text, pre: seq<Byte>)
    requires c.Valid() && CanonicalText(c, t)
    requires Consistent(s) && EncodeItems(s.format, s.data) == Ok(pre)
    requires s.rowLen + |s.nulls| + 1 + Cost(c, t) <= MaxRow
    ensures PackSpec(NullDefined(s, false), c, t).Ok? && ColumnBytes(c, t).Ok?
    ensures var s1 := PackSpec(NullDefined(s, false), c, t).value;
            Consistent(s1) && s1.nulls == s.nulls + [false]
            && EncodeItems(s1.format, s1.data) == Ok(pre + ColumnBytes(c, t).value)
            && |ColumnBytes(c, t).value| <= Cost(c, t)
  {
    var s0 := NullDefined(s, false);
    CodecRoundTrip(c, t, [], 0);
    var items := Pack(c, VText(t)).value;
    PackItems(c, VText(t));
    PackGuard(s0, c, t);
    assert PackSpec(s0, c, t) == Ok(AddItems(s0, items));
    PackConsistent(s0, c, t);
    EncodeItemsAppend(s.format, s.data, Formats(items), Data(items));
    SumWidthsOfItems(items);
  }

  /** Wherever the bytes of an acceptable value sit in a row, the decoder consumes exactly
      them, and the csv writer spells what it reads (nothing, for a null) as the value. */
  lemma ExportColumn(c: Codec, t: Text, row: seq<Byte>, off: nat)
    requires c.Valid() && Acceptable(c, t) && ColumnBytes(c, t).Ok?
    requires At(row, off, ColumnBytes(c, t).value)
    ensures Unpack(c, row, off).Ok? && Unpack(c, row, off).value.1 == |ColumnBytes(c, t).value|
    ensures ShowItem(if NullColumn(c, t) then None else Some(Unpack(c, row, off).value.0)) == Ok(t)
  {
    CodecWidths(c);
    if NullColumn(c, t) {
      assert Unpack(c, row, off).Ok?;
    } else {
      CodecRoundTrip(c, t, row, off);
    }
  }

  /** The value and length `ExportColumn` speaks of. */
  lemma ExportHead(c: Codec, t: Text, row: seq<Byte>, off: nat, b: seq<Byte>) returns (v: Value)
    requires c.Valid() && Acceptable(c, t) && ColumnBytes(c, t) == Ok(b) && At(row, off, b)
    ensures Unpack(c, row, off) == Ok((v, |b|))
    ensures ShowItem(if NullColumn(c, t) then None else Some(v)) == Ok(t)
  {
    ExportColumn(c, t, row, off);
    v := Unpack(c, row, off).value.0;
  }

  // ---------------------------------------------------------------------------
  // One row

  /** One acceptable value per column. */
  predicate AcceptableRow(cs: seq<Codec>, ts: seq<Text>)
    requires AllValid(cs)
  {
    |ts| == |cs| && (cs == [] || (Acceptable(cs[0], ts[0]) && AcceptableRow(cs[1..], ts[1..])))
  }

  /** The csv row holds value `ts[i]` under the label of column i. */
  predicate Holds(row: CsvRow, cs: seq<Codec>, ts: seq<Text>, useTitles: bool) {
    |ts| == |cs|
    && forall i :: 0 <= i < |cs| ==>
         Label(cs[i].fd, useTitles) in row.fields && row.fields[Label(cs[i].fd, useTitles)] == Some(ts[i])
  }

  function RowCost(cs: seq<Codec>, ts: seq<Text>): nat
    requires |ts| == |cs|
  {
    if cs == [] then 0 else Cost(cs[0], ts[0]) + RowCost(cs[1..], ts[1..])
  }

  /** The column bytes of a frame, in column order. */
  function BodyBytes(cs: seq<Codec>, ts: seq<Text>): Result<seq<Byte>>
    requires AllValid(cs) && |ts| == |cs|
  {
    if cs == [] then Ok([])
    else
      var b :- ColumnBytes(cs[0], ts[0]);
      var rest :- BodyBytes(cs[1..], ts[1..]);
      Ok(b + rest)
  }

  /** The null flags of a row: set exactly for the stored nulls. */
  function NullFlags(cs: seq<Codec>, ts: seq<Text>): (r: seq<bool>)
    requires |ts| == |cs|
    ensures |r| == |cs| && forall i :: 0 <= i < |cs| ==> r[i] == NullColumn(cs[i], ts[i])
  {
    seq(|cs|, i requires 0 <= i < |cs| => NullColumn(cs[i], ts[i]))
  }

  /** Everything the row conditions say also holds of the remaining columns. */
  lemma RowTail(cs: seq<Codec>, ts: seq<Text>, row: CsvRow, useTitles: bool)
    requires AllValid(cs) && cs != [] && |ts| == |cs|
    ensures AllValid(cs[1..])
    ensures AcceptableRow(cs, ts) ==> AcceptableRow(cs[1..], ts[1..])
    ensures Holds(row, cs, ts, useTitles) ==> Holds(row, cs[1..], ts[1..], useTitles)
    ensures NullFlags(cs, ts) == [NullColumn(cs[0], ts[0])] + NullFlags(cs[1..], ts[1..])
  {
    assert forall i :: 1 <= i < |cs| ==> cs[i] == cs[1..][i - 1] && ts[i] == ts[1..][i - 1];
  }

  /** Storing the values of the remaining columns from a consistent builder: every column
      is packed, the null flags and the bytes grow by the row's own, and the bytes stay
      within the row's cost. */
  lemma {:induction false} StoreColumns(s: PackState, cs: seq<Codec>, ts: seq<Text>, row: CsvRow, useTitles: bool,
                                        pre: seq<Byte>)
    requires AllValid(cs) && AcceptableRow(cs, ts) && Holds(row, cs, ts, useTitles)
    requires Consistent(s) && EncodeItems(s.format, s.data) == Ok(pre)
    requires s.rowLen + |s.nulls| + RowCost(cs, ts) + |cs| <= MaxRow
    ensures ImportFields(s, cs, row, useTitles).Ok? && BodyBytes(cs, ts).Ok?
    ensures var s1 := ImportFields(s, cs, row, useTitles).value;
            Consistent(s1) && s1.nulls == s.nulls + NullFlags(cs, ts)
            && EncodeItems(s1.format, s1.data) == Ok(pre + BodyBytes(cs, ts).value)
            && |BodyBytes(cs, ts).value| <= RowCost(cs, ts)
    decreases |cs|
  {
    if cs == [] {
      assert pre + [] == pre && s.nulls + [] == s.nulls;
    } else {
      RowTail(cs, ts, row, useTitles);
      var s1, b := StoreHead(s, cs[0], ts[0], pre);
      StoreColumns(s1, cs[1..], ts[1..], row, useTitles, pre + b);
      var s2 := ImportFields(s1, cs[1..], row, useTitles).value;
      var rest := BodyBytes(cs[1..], ts[1..]).value;
      StoreJoin(s, cs, ts, row, useTitles, s1, b, s2, rest);
      Associative(pre, b, rest);
      Associative(s.nulls, [NullColumn(cs[0], ts[0])], NullFlags(cs[1..], ts[1..]));
    }
  }

  /** The first column of a row stored, with the builder and bytes it gives. */
  lemma StoreHead(s: PackState, c: Codec, t: Text, pre: seq<Byte>) returns (s1: PackState, b: seq<Byte>)
    requires c.Valid() && Acceptable(c, t)
    requires Consistent(s) && EncodeItems(s.format, s.data) == Ok(pre)
    requires s.rowLen + |s.nulls| + 1 + Cost(c, t) <= MaxRow
    ensures ImportField(s, c, Some(t)) == Ok(s1) && ColumnBytes(c, t) == Ok(b)
    ensures Consistent(s1) && s1.nulls == s.nulls + [NullColumn(c, t)]
    ensures EncodeItems(s1.format, s1.data) == Ok(pre + b) && |b| <= Cost(c, t)
    ensures s1.rowLen + |s1.nulls| <= s.rowLen + |s.nulls| + 1 + Cost(c, t)
  {
    ImportColumn(s, c, t, pre);
    s1 := ImportField(s, c, Some(t)).value;
    b := ColumnBytes(c, t).value;
  }

  lemma StoreJoin(s: PackState, cs: seq<Codec>, ts: seq<Text>, row: CsvRow, useTitles: bool,
                  s1: PackState, b: seq<Byte>, s2: PackState, rest: seq<Byte>)
    requires AllValid(cs) && cs != [] && |ts| == |cs|
    requires Label(cs[0].fd, useTitles) in row.fields && row.fields[Label(cs[0].fd, useTitles)] == Some(ts[0])
    requires ImportField(s, cs[0], Some(ts[0])) == Ok(s1) && ColumnBytes(cs[0], ts[0]) == Ok(b)
    requires ImportFields(s1, cs[1..], row, useTitles) == Ok(s2) && BodyBytes(cs[1..], ts[1..]) == Ok(rest)
    ensures ImportFields(s, cs, row, useTitles) == Ok(s2) && BodyBytes(cs, ts) == Ok(b + rest)
  {
  }

  /** The first step of `UnpackFrom` for a first column known to decode to `v`, consuming `n` bytes. */
  lemma UnpackHead(cs: seq<Codec>, row: seq<Byte>, rowLen: nat, flags: seq<bool>, off: nat, v: Value, n: nat,
                   next: nat)
    requires AllValid(cs) && cs != [] && flags != []
    requires Unpack(cs[0], row, off) == Ok((v, n)) && next == off + n && next <= rowLen
    ensures UnpackFrom(cs, row, rowLen, flags, off)
            == Prepend([if flags[0] then None else Some(v)], UnpackFrom(cs[1..], row, rowLen, flags[1..], next))
  {
  }

  lemma ShowRowCons(v: Option<Value>, vals: seq<Option<Value>>)
    ensures ShowRow([v] + vals) == (var h :- ShowItem(v); var t :- ShowRow(vals); Ok([h] + t))
  {
    assert ([v] + vals)[0] == v && ([v] + vals)[1..] == vals;
  }

  /** The bytes of the columns sit in `row` from `off` on and end by `rowLen`, and `flags`
      holds their null flags. */
  predicate LaidOut(cs: seq<Codec>, ts: seq<Text>, flags: seq<bool>, row: seq<Byte>, rowLen: nat, off: nat) {
    AllValid(cs) && AcceptableRow(cs, ts) && BodyBytes(cs, ts).Ok?
    && |flags| == |cs| && (forall i :: 0 <= i < |cs| ==> flags[i] == NullColumn(cs[i], ts[i]))
    && At(row, off, BodyBytes(cs, ts).value) && off + |BodyBytes(cs, ts).value| <= rowLen
  }

  /** The csv fields of the columns of `row` from `off`, read with `flags`. */
  function Decoded(cs: seq<Codec>, row: seq<Byte>, rowLen: nat, flags: seq<bool>, off: nat): Result<seq<Text>>
    requires AllValid(cs)
  {
    var vals :- UnpackFrom(cs, row, rowLen, flags, off).0;
    ShowRow(vals)
  }

  /** Decoding the columns from where their bytes sit in a row, with their null flags,
      gives values the csv writer spells as the original texts. */
  lemma {:induction false} DecodeColumns(cs: seq<Codec>, ts: seq<Text>, flags: seq<bool>, row: seq<Byte>,
                                         rowLen: nat, off: nat)
    requires LaidOut(cs, ts, flags, row, rowLen, off)
    ensures Decoded(cs, row, rowLen, flags, off) == Ok(ts)
    decreases |cs|
  {
    if cs != [] {
      var item, next := DecodeFirst(cs, ts, flags, row, rowLen, off);
      DecodeColumns(cs[1..], ts[1..], flags[1..], row, rowLen, next);
      DecodeStep(cs, ts, row, rowLen, off, item, next, flags);
    }
  }

  /** What `DecodeColumns` needs of a row's first column: its decoded item, and the rest of
      the row laid out from where the column's bytes end. */
  lemma DecodeFirst(cs: seq<Codec>, ts: seq<Text>, flags: seq<bool>, row: seq<Byte>, rowLen: nat, off: nat)
    returns (item: Option<Value>, next: nat)
    requires cs != [] && LaidOut(cs, ts, flags, row, rowLen, off)
    ensures AllValid(cs) && LaidOut(cs[1..], ts[1..], flags[1..], row, rowLen, next)
    ensures |ts| == |cs| && ShowItem(item) == Ok(ts[0])
    ensures UnpackFrom(cs, row, rowLen, flags, off) == Prepend([item], UnpackFrom(cs[1..], row, rowLen, flags[1..], next))
  {
    var b;
    b, next := TailLayout(cs, ts, flags, row, rowLen, off);
    item := DecodeHead(cs, ts, flags, row, rowLen, off, b, next);
  }

  /** A row's layout split after its first column, whose bytes `b` end at `next`. */
  lemma TailLayout(cs: seq<Codec>, ts: seq<Text>, flags: seq<bool>, row: seq<Byte>, rowLen: nat, off: nat)
    returns (b: seq<Byte>, next: nat)
    requires cs != [] && LaidOut(cs, ts, flags, row, rowLen, off)
    ensures AllValid(cs) && |ts| == |cs| && |flags| == |cs| && flags[0] == NullColumn(cs[0], ts[0])
    ensures Acceptable(cs[0], ts[0]) && ColumnBytes(cs[0], ts[0]) == Ok(b)
    ensures At(row, off, b) && next == off + |b| && next <= rowLen
    ensures LaidOut(cs[1..], ts[1..], flags[1..], row, rowLen, next)
  {
    var rest;
    b, rest := BodySplit(cs, ts);
    AtSplit(row, off, b, rest);
    FlagsTail(cs, ts, flags);
    next := off + |b|;
    LaidOutFrom(cs[1..], ts[1..], flags[1..], row, rowLen, next, rest);
  }

  /** `LaidOut` from its parts, with the bytes of the columns named `body`. */
  lemma LaidOutFrom(cs: seq<Codec>, ts: seq<Text>, flags: seq<bool>, row: seq<Byte>, rowLen: nat, off: nat,
                    body: seq<Byte>)
    requires AllValid(cs) && AcceptableRow(cs, ts) && BodyBytes(cs, ts) == Ok(body)
    requires |flags| == |cs| && forall i :: 0 <= i < |cs| ==> flags[i] == NullColumn(cs[i], ts[i])
    requires At(row, off, body) && off + |body| <= rowLen
    ensures LaidOut(cs, ts, flags, row, rowLen, off)
  {
  }

  lemma FlagsTail(cs: seq<Codec>, ts: seq<Text>, flags: seq<bool>)
    requires cs != [] && |ts| == |cs| && |flags| == |cs|
    requires forall i :: 0 <= i < |cs| ==> flags[i] == NullColumn(cs[i], ts[i])
    ensures flags[0] == NullColumn(cs[0], ts[0])
    ensures forall i :: 0 <= i < |cs[1..]| ==> flags[1..][i] == NullColumn(cs[1..][i], ts[1..][i])
  {
    assert forall i :: 0 <= i < |cs| - 1 ==> flags[1..][i] == flags[i + 1];
  }

  /** The bytes of a row's first column in front of the bytes of the rest. */
  lemma BodySplit(cs: seq<Codec>, ts: seq<Text>) returns (b: seq<Byte>, rest: seq<Byte>)
    requires AllValid(cs) && cs != [] && AcceptableRow(cs, ts) && BodyBytes(cs, ts).Ok?
    ensures AllValid(cs[1..]) && AcceptableRow(cs[1..], ts[1..]) && Acceptable(cs[0], ts[0])
    ensures ColumnBytes(cs[0], ts[0]) == Ok(b) && BodyBytes(cs[1..], ts[1..]) == Ok(rest)
    ensures BodyBytes(cs, ts).value == b + rest
  {
    RowTail(cs, ts, CsvRow(map[], false), false);
    b := ColumnBytes(cs[0], ts[0]).value;
    rest := BodyBytes(cs[1..], ts[1..]).value;
  }

  /** The first column of a row decoded from where its bytes sit. */
  lemma DecodeHead(cs: seq<Codec>, ts: seq<Text>, flags: seq<bool>, row: seq<Byte>, rowLen: nat, off: nat,
                    b: seq<Byte>, next: nat)
    returns (item: Option<Value>)
    requires AllValid(cs) && cs != [] && |ts| == |cs| && |flags| == |cs|
    requires flags[0] == NullColumn(cs[0], ts[0]) && Acceptable(cs[0], ts[0]) && ColumnBytes(cs[0], ts[0]) == Ok(b)
    requires At(row, off, b) && next == off + |b| && next <= rowLen
    ensures ShowItem(item) == Ok(ts[0])
    ensures UnpackFrom(cs, row, rowLen, flags, off) == Prepend([item], UnpackFrom(cs[1..], row, rowLen, flags[1..], next))
  {
    var v := ExportHead(cs[0], ts[0], row, off, b);
    item := if flags[0] then None else Some(v);
    UnpackHead(cs, row, rowLen, flags, off, v, |b|, next);
  }

  /** A row's first column in front of the rest of it. */
  lemma DecodeStep(cs: seq<Codec>, ts: seq<Text>, row: seq<Byte>, rowLen: nat, off: nat, item: Option<Value>,
                   next: nat, flags: seq<bool>)
    requires AllValid(cs) && cs != [] && |ts| == |cs| && |flags| == |cs|
    requires UnpackFrom(cs, row, rowLen, flags, off) == Prepend([item], UnpackFrom(cs[1..], row, rowLen, flags[1..], next))
    requires ShowItem(item) == Ok(ts[0])
    requires Decoded(cs[1..], row, rowLen, flags[1..], next) == Ok(ts[1..])
    ensures Decoded(cs, row, rowLen, flags, off) == Ok(ts)
  {
    var rest := UnpackFrom(cs[1..], row, rowLen, flags[1..], next);
    assert UnpackFrom(cs, row, rowLen, flags, off).0 == Ok([item] + rest.0.value);
    ShowRowCons(item, rest.0.value);
    assert [ts[0]] + ts[1..] == ts;
  }
}
