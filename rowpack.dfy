/** The row builder of the importer (`row_pack_handler`): it collects struct formats and
    values column by column, then frames the row as
    `row_len (u16) ++ indicator bytes ++ column bytes ++ '\n'`. */
module RowPack {
  import opened Bytes
  import opened Errors
  import opened Indicator
  import opened TdTypes

  /** The builder's lists and counter: `row_len`, `format`, `data` and `nulls`. */
  datatype PackState = PackState(rowLen: nat, format: seq<Fmt>, data: seq<Datum>, nulls: seq<bool>)

  const Empty := PackState(0, [], [], [])

  /** The largest row the guard of `pack` lets through. */
  const MaxRow := 65534

  /** Python `list.insert(i, x)` for a non-negative index: past the end it appends. */
  function Insert<T>(s: seq<T>, i: nat, x: T): (r: seq<T>)
    ensures |r| == |s| + 1
    ensures i <= |s| ==> r == s[..i] + [x] + s[i..]
    ensures |s| <= i ==> r == s + [x]
  {
    if |s| <= i then s + [x] else s[..i] + [x] + s[i..]
  }

  /** The state after an add call that credits `width` bytes. */
  function Added(s: PackState, f: Fmt, width: nat, d: Datum): PackState {
    s.(rowLen := s.rowLen + width, format := s.format + [f], data := s.data + [d])
  }

  function Inserted(s: PackState, offset: nat, b: Byte): PackState {
    s.(rowLen := s.rowLen + 1, format := Insert(s.format, offset, U8), data := Insert(s.data, offset, DInt(b)))
  }

  function NullDefined(s: PackState, isNull: bool): PackState {
    s.(nulls := s.nulls + [isNull])
  }

  /** The state after the items of one column have been added in order. */
  function AddItems(s: PackState, items: seq<Item>): PackState {
    s.(rowLen := s.rowLen + SumItemWidths(items), format := s.format + Formats(items), data := s.data + Data(items))
  }

  /** The bound `pack` checks: `len(data)` for a character column and 10 otherwise,
      plus the column's width and one byte per null flag (including this column's). */
  function GuardedLength(s: PackState, c: Codec, t: Text): nat {
    s.rowLen + (if IsCharacter(c.fd.kind) then |t| else 10) + c.width + |s.nulls|
  }

  /** `rph.pack(td_type, data)`: OverflowError when the guard trips, otherwise the
      codec's items are added, or its error is raised with the builder untouched. */
  function PackSpec(s: PackState, c: Codec, t: Text): Result<PackState>
    requires c.Valid()
  {
    if GuardedLength(s, c, t) > MaxRow then Err(FrameOverflow)
    else
      var items :- Pack(c, VText(t));
      Ok(AddItems(s, items))
  }

  function ByteFormats(n: nat): (r: seq<Fmt>)
    ensures |r| == n && forall i :: 0 <= i < n ==> r[i] == U8
  {
    seq(n, i => U8)
  }

  function ByteData(b: seq<Byte>): (r: seq<Datum>)
    ensures |r| == |b| && forall i :: 0 <= i < |b| ==> r[i] == DInt(b[i])
  {
    seq(|b|, i requires 0 <= i < |b| => DInt(b[i]))
  }

  /** The state after the indicator bytes have been inserted at the front, one `B` each. */
  function WithIndicator(s: PackState, ib: seq<Byte>): PackState {
    s.(rowLen := s.rowLen + |ib|, format := ByteFormats(|ib|) + s.format, data := ByteData(ib) + s.data)
  }

  /** The state once the `H` length header and the `B` newline have been placed. */
  function Framed(s: PackState): PackState {
    s.(format := [U16] + s.format + [U8], data := [DInt(s.rowLen)] + s.data + [DInt(10)])
  }

  /** `pack_row(columnCount)`: the state it leaves behind and what it returns. */
  function PackRowSpec(s: PackState, columnCount: nat): (PackState, Result<seq<Byte>>) {
    var ib := IndicatorBytes(s.nulls, IndicatorLength(columnCount));
    if s.rowLen >= 65535 then (s, Err(AssertionFailed))
    else
      var w := WithIndicator(s, ib);
      if w.rowLen >= 65535 then (w, Err(AssertionFailed))
      else
        var f := Framed(w);
        (f, EncodeItems(f.format, f.data))
  }

  /** The builder's invariant: parallel lists, and `row_len` credits exactly the bytes the
      formats so far pack to. */
  predicate Consistent(s: PackState) {
    |s.format| == |s.data| && s.rowLen == SumWidths(s.format)
  }

  class RowPackHandler {
    var rowLen: nat
    var format: seq<Fmt>
    var data: seq<Datum>
    var nulls: seq<bool>

    function State(): PackState
      reads this
    {
      PackState(rowLen, format, data, nulls)
    }

    constructor ()
      ensures State() == Empty
    {
      rowLen := 0;
      format, data, nulls := [], [], [];
    }

    /** `add_data(td_type, data)`: the codec's own format and width. */
    method AddData(c: Codec, d: Datum)
      modifies this
      ensures State() == Added(old(State()), c.fmt, c.width, d)
    {
      format := format + [c.fmt];
      data := data + [d];
      rowLen := rowLen + c.width;
    }

    /** `add_custom_data(data_type, data_length, data)`. */
    method AddCustomData(f: Fmt, width: nat, d: Datum)
      modifies this
      ensures State() == Added(old(State()), f, width, d)
    {
      format := format + [f];
      data := data + [d];
      rowLen := rowLen + width;
    }

    /** `insert_byte(offset, byte)`: a `B` item inserted at `offset`. */
    method InsertByte(offset: nat, b: Byte)
      modifies this
      ensures State() == Inserted(old(State()), offset, b)
    {
      format := Insert(format, offset, U8);
      data := Insert(data, offset, DInt(b));
      rowLen := rowLen + 1;
    }

    method DefineNull(isNull: bool)
      modifies this
      ensures State() == NullDefined(old(State()), isNull)
    {
      nulls := nulls + [isNull];
    }

    /** `pack(td_type, data)`. */
    method Pack(c: Codec, t: Text) returns (r: Outcome)
      requires c.Valid()
      modifies this
      ensures PackSpec(old(State()), c, t).Ok? ==> r == Pass && State() == PackSpec(old(State()), c, t).value
      ensures PackSpec(old(State()), c, t).Err? ==> r == Fail(PackSpec(old(State()), c, t).error) && State() == old(State())
    {
      var l := if IsCharacter(c.fd.kind) then |t| else 10;
      if rowLen + l + c.width + |nulls| > MaxRow {
        return Fail(FrameOverflow);
      }
      var packed := TdTypes.Pack(c, VText(t));
      if packed.Err? {
        return Fail(packed.error);
      }
      AddAll(packed.value);
      r := Pass;
    }

    /** The add calls of one column's items, in order. */
    method AddAll(items: seq<Item>)
      modifies this
      ensures State() == AddItems(old(State()), items)
    {
      ghost var s0 := State();
      var i := 0;
      while i < |items|
        invariant i <= |items|
        invariant State() == AddItems(s0, items[..i])
      {
        AddItemsSnoc(s0, items[..i], items[i]);
        assert items[..i + 1] == items[..i] + [items[i]];
        AddCustomData(items[i].fmt, items[i].width, items[i].datum);
        i := i + 1;
      }
      assert items[..i] == items;
    }

    /** `pack_row(column_count)`. */
    method PackRow(columnCount: nat) returns (r: Result<seq<Byte>>)
      modifies this
      ensures (State(), r) == PackRowSpec(old(State()), columnCount)
    {
      var ib := PackIndicator(columnCount, nulls);
      if rowLen >= 65535 {
        return Err(AssertionFailed);
      }
      ghost var s0 := State();
      var n := 0;
      while n < |ib|
        invariant n <= |ib|
        invariant State() == WithIndicator(s0, ib[..n])
      {
        InsertAfterBytes(s0, ib[..n], ib[n]);
        assert ib[..n + 1] == ib[..n] + [ib[n]];
        InsertByte(n, ib[n]);
        n := n + 1;
      }
      assert ib[..n] == ib;
      if rowLen >= 65535 {
        return Err(AssertionFailed);
      }
      format := [U16] + format;
      data := [DInt(rowLen)] + data;
      format := format + [U8];
      data := data + [DInt(10)];
      r := EncodeItems(format, data);
    }
  }

  // ---------------------------------------------------------------------------
  // Steps of the methods

  lemma SumItemWidthsSnoc(items: seq<Item>, x: Item)
    ensures SumItemWidths(items + [x]) == SumItemWidths(items) + x.width
  {
    if items != [] {
      assert (items + [x])[1..] == items[1..] + [x];
      SumItemWidthsSnoc(items[1..], x);
    } else {
      assert [x][1..] == [];
    }
  }

  lemma AddItemsSnoc(s: PackState, items: seq<Item>, x: Item)
    ensures AddItems(s, items + [x]) == Added(AddItems(s, items), x.fmt, x.width, x.datum)
  {
    SumItemWidthsSnoc(items, x);
    assert Formats(items + [x]) == Formats(items) + [x.fmt];
    assert Data(items + [x]) == Data(items) + [x.datum];
  }

  /** Inserting the next indicator byte at its own position extends the indicator prefix. */
  lemma InsertAfterBytes(s: PackState, ib: seq<Byte>, b: Byte)
    ensures Inserted(WithIndicator(s, ib), |ib|, b) == WithIndicator(s, ib + [b])
  {
    var w := WithIndicator(s, ib);
    assert w.format[..|ib|] == ByteFormats(|ib|) && w.format[|ib|..] == s.format;
    assert w.data[..|ib|] == ByteData(ib) && w.data[|ib|..] == s.data;
    assert ByteFormats(|ib|) + [U8] == ByteFormats(|ib| + 1);
    assert ByteData(ib) + [DInt(b)] == ByteData(ib + [b]);
  }

  // ---------------------------------------------------------------------------
  // What the builder guarantees

  lemma {:induction false} SumWidthsAppend(a: seq<Fmt>, b: seq<Fmt>)
    ensures SumWidths(a + b) == SumWidths(a) + SumWidths(b)
  {
    if a != [] {
      assert (a + b)[1..] == a[1..] + b;
      SumWidthsAppend(a[1..], b);
    } else {
      assert a + b == b;
    }
  }

  lemma {:induction false} SumWidthsOfItems(items: seq<Item>)
    requires WidthsAgree(items)
    ensures SumWidths(Formats(items)) == SumItemWidths(items)
  {
    if items != [] {
      assert Formats(items)[1..] == Formats(items[1..]);
      SumWidthsOfItems(items[1..]);
    }
  }

  /** An add call that credits its format's own size keeps `row_len` equal to the size of
      the formats collected. */
  lemma AddedConsistent(s: PackState, f: Fmt, width: nat, d: Datum)
    requires Consistent(s) && width == FmtWidth(f)
    ensures Consistent(Added(s, f, width, d))
  {
    SumWidthsAppend(s.format, [f]);
    assert [f][1..] == [];
  }

  lemma NullDefinedConsistent(s: PackState, isNull: bool)
    requires Consistent(s)
    ensures Consistent(NullDefined(s, isNull)) && NullDefined(s, isNull).nulls == s.nulls + [isNull]
  {
  }

  /** A successful `pack` keeps the builder consistent, adds one item per format and leaves
      the null flags alone. */
  lemma PackConsistent(s: PackState, c: Codec, t: Text)
    requires c.Valid() && Consistent(s) && PackSpec(s, c, t).Ok?
    ensures Consistent(PackSpec(s, c, t).value) && PackSpec(s, c, t).value.nulls == s.nulls
  {
    var items := Pack(c, VText(t)).value;
    PackItems(c, VText(t));
    SumWidthsOfItems(items);
    SumWidthsAppend(s.format, Formats(items));
  }

  /** The guard of `pack` trips exactly when its bound is exceeded; after a successful
      `pack` the row still leaves a byte per null flag within the limit. */
  lemma PackGuard(s: PackState, c: Codec, t: Text)
    requires c.Valid()
    ensures PackSpec(s, c, t) == Err(FrameOverflow) <==> GuardedLength(s, c, t) > MaxRow
    ensures PackSpec(s, c, t).Ok? ==> PackSpec(s, c, t).value.rowLen + |s.nulls| <= MaxRow
  {
    PackErrors(c, VText(t));
    PackItems(c, VText(t));
    CodecWidths(c);
  }

  lemma {:induction false} ByteItems(b: seq<Byte>)
    ensures EncodeItems(ByteFormats(|b|), ByteData(b)) == Ok(b)
  {
    if b != [] {
      assert ByteFormats(|b|)[1..] == ByteFormats(|b| - 1);
      assert ByteData(b)[1..] == ByteData(b[1..]);
      ByteItems(b[1..]);
      assert b == [b[0]] + b[1..];
    }
  }

  /** The frame `pack_row` emits for a consistent builder is the length of what follows as a
      16-bit little-endian count, the indicator bytes, the packed columns and a newline;
      the count covers exactly the indicator and the columns. */
  lemma FrameLayout(s: PackState, columnCount: nat, body: seq<Byte>)
    requires Consistent(s) && EncodeItems(s.format, s.data) == Ok(body)
    requires s.rowLen + IndicatorLength(columnCount) < 65535
    ensures var ib := IndicatorBytes(s.nulls, IndicatorLength(columnCount));
            PackRowSpec(s, columnCount).1 == Ok(EncodeLE(|ib| + |body|, 2) + ib + body + [10])
            && |ib| + |body| < 65535
  {
    var ib := IndicatorBytes(s.nulls, IndicatorLength(columnCount));
    var data := ib + body;
    FrameLayoutOf(s, columnCount, ib, body, data);
    assert |data| == |ib| + |body|;
    FrameConcat(EncodeLE(|data|, 2), ib, body, [10]);
  }

  lemma FrameLayoutOf(s: PackState, columnCount: nat, ib: seq<Byte>, body: seq<Byte>, data: seq<Byte>)
    requires ib == IndicatorBytes(s.nulls, IndicatorLength(columnCount))
    requires |body| == s.rowLen && EncodeItems(s.format, s.data) == Ok(body)
    requires s.rowLen + |ib| < 65535 && data == ib + body
    ensures PackRowSpec(s, columnCount).1 == Ok(EncodeLE(|data|, 2) + data + [10])
  {
    var w := WithIndicator(s, ib);
    PackRowFramed(s, columnCount, ib);
    IndicatorInFront(s, ib, body);
    assert w.rowLen == |data|;
    FramedBytes(w, data);
  }

  lemma PackRowFramed(s: PackState, columnCount: nat, ib: seq<Byte>)
    requires ib == IndicatorBytes(s.nulls, IndicatorLength(columnCount))
    requires s.rowLen + |ib| < 65535
    ensures PackRowSpec(s, columnCount).1
            == EncodeItems(Framed(WithIndicator(s, ib)).format, Framed(WithIndicator(s, ib)).data)
  {
  }

  lemma FrameConcat(h: seq<Byte>, ib: seq<Byte>, body: seq<Byte>, t: seq<Byte>)
    ensures h + (ib + body) + t == h + ib + body + t
  {
  }

  lemma IndicatorInFront(s: PackState, ib: seq<Byte>, body: seq<Byte>)
    requires EncodeItems(s.format, s.data) == Ok(body)
    ensures EncodeItems(WithIndicator(s, ib).format, WithIndicator(s, ib).data) == Ok(ib + body)
  {
    ByteItems(ib);
    EncodeItemsAppend(ByteFormats(|ib|), ByteData(ib), s.format, s.data);
  }

  lemma FramedBytes(w: PackState, inner: seq<Byte>)
    requires EncodeItems(w.format, w.data) == Ok(inner) && w.rowLen < 65536
    ensures EncodeItems(Framed(w).format, Framed(w).data) == Ok(EncodeLE(w.rowLen, 2) + inner + [10])
  {
    Pow256Values();
    var h := EncodeLE(w.rowLen, 2);
    var hf, hd := [U16], [DInt(w.rowLen)];
    assert EncodeItem(U16, DInt(w.rowLen)) == Ok(h);
    assert hf[1..] == [] && hd[1..] == [];
    assert EncodeItems(hf, hd) == Ok(h + []);
    assert h + [] == h;
    EncodeItemsAppend(hf, hd, w.format, w.data);
    assert EncodeItems(hf + w.format, hd + w.data) == Ok(h + inner);
    var tf, td := [U8], [DInt(10)];
    assert tf[1..] == [] && td[1..] == [];
    assert EncodeItems(tf, td) == Ok([10] + []);
    assert [10] + [] == [10];
    EncodeItemsAppend(hf + w.format, hd + w.data, tf, td);
    assert Framed(w).format == hf + w.format + tf && Framed(w).data == hd + w.data + td;
  }

  /** `pack_row`'s assertions fail exactly when the row and its indicator reach 65535 bytes;
      every other failure is struct's. */
  lemma PackRowAsserts(s: PackState, columnCount: nat)
    ensures PackRowSpec(s, columnCount).1 == Err(AssertionFailed) <==>
              s.rowLen + IndicatorLength(columnCount) >= 65535
  {
  }
}
