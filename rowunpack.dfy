/** The row reader of the exporter (`row_unpack_handler`): the null flags come from the
    indicator at the start of the row, the columns follow it in order. */
module RowUnpack {
  import opened Bytes
  import opened Errors
  import opened Indicator
  import opened TdTypes

  predicate AllValid(codecs: seq<Codec>) {
    forall i :: 0 <= i < |codecs| ==> codecs[i].Valid()
  }

  /** The columns `unpack_row` reads from offset `off` on with the null flags `nulls` still
      to be popped, and the flags left afterwards. Each column pops one flag (IndexError
      when none is left), is decoded even when null, moves the offset by what it consumed,
      and is kept as None when flagged null; an offset past `row_len` is an overflow. */
  function UnpackFrom(codecs: seq<Codec>, row: seq<Byte>, rowLen: nat, nulls: seq<bool>, off: nat)
    : (r: (Result<seq<Option<Value>>>, seq<bool>))
    requires AllValid(codecs)
    ensures r.0.Ok? ==> |r.0.value| == |codecs|
    decreases |codecs|, 1
  {
    if codecs == [] then (Ok([]), nulls)
    else if nulls == [] then (Err(IndexError), nulls)
    else UnpackAfter(codecs, row, rowLen, nulls, off, Unpack(codecs[0], row, off))
  }

  /** The same once the first column has decoded to `u`. */
  function UnpackAfter(codecs: seq<Codec>, row: seq<Byte>, rowLen: nat, nulls: seq<bool>, off: nat,
                       u: Result<(Value, nat)>)
    : (r: (Result<seq<Option<Value>>>, seq<bool>))
    requires AllValid(codecs) && codecs != [] && nulls != []
    ensures r.0.Ok? ==> |r.0.value| == |codecs|
    decreases |codecs|, 0
  {
    if u.Err? then (Err(u.error), nulls[1..])
    else
      var next := off + u.value.1;
      if next > rowLen then (Err(RowOverflow), nulls[1..])
      else
        var item := if nulls[0] then None else Some(u.value.0);
        Prepend([item], UnpackFrom(codecs[1..], row, rowLen, nulls[1..], next))
  }

  /** Some columns already read in front of what the rest of the row gives. */
  function Prepend(items: seq<Option<Value>>, rest: (Result<seq<Option<Value>>>, seq<bool>))
    : (Result<seq<Option<Value>>>, seq<bool>)
  {
    if rest.0.Ok? then (Ok(items + rest.0.value), rest.1) else rest
  }

  /** The values of one row of `row_len` bytes: the indicator, then every column. */
  function DecodeRow(codecs: seq<Codec>, row: seq<Byte>, rowLen: nat): Result<seq<Option<Value>>>
    requires AllValid(codecs)
  {
    var nulls :- Flags(row, |codecs|);
    UnpackFrom(codecs, row, rowLen, nulls, IndicatorLength(|codecs|)).0
  }

  class RowUnpackHandler {
    var columns: nat
    var nulls: seq<bool>
    var offset: nat

    constructor (columns: nat, nulls: seq<bool>, offset: nat)
      ensures this.columns == columns && this.nulls == nulls && this.offset == offset
    {
      this.columns := columns;
      this.nulls := nulls;
      this.offset := offset;
    }

    /** `unpack_row(td_types, row_data, row_len)`; the flags it pops are gone afterwards. */
    method UnpackRow(codecs: seq<Codec>, row: seq<Byte>, rowLen: nat) returns (r: Result<seq<Option<Value>>>)
      requires AllValid(codecs)
      modifies this
      ensures (r, nulls) == UnpackFrom(codecs, row, rowLen, old(nulls), old(offset))
      ensures columns == old(columns) && offset == old(offset)
    {
      var items: seq<Option<Value>> := [];
      var off: nat := offset;
      var i := 0;
      assert codecs[i..] == codecs;
      PrependNothing(UnpackFrom(codecs, row, rowLen, nulls, off));
      while i < |codecs|
        invariant i <= |codecs|
        invariant columns == old(columns) && offset == old(offset)
        invariant UnpackFrom(codecs, row, rowLen, old(nulls), old(offset))
                  == Prepend(items, UnpackFrom(codecs[i..], row, rowLen, nulls, off))
      {
        ghost var whole := UnpackFrom(codecs, row, rowLen, old(nulls), old(offset));
        if nulls == [] {
          UnpackNoFlag(codecs, i, row, rowLen, off, items, whole);
          return Err(IndexError);
        }
        ghost var flags := nulls;
        var isNull := nulls[0];
        nulls := nulls[1..];
        var u := Unpack(codecs[i], row, off);
        UnpackFromAt(codecs, i, row, rowLen, flags, off);
        UnpackStep(codecs, i, row, rowLen, flags, off, items, whole, u);
        if u.Err? {
          return Err(u.error);
        }
        var next := off + u.value.1;
        var item := if isNull then None else Some(u.value.0);
        if next > rowLen {
          return Err(RowOverflow);
        }
        items := items + [item];
        off := next;
        i := i + 1;
      }
      assert codecs[i..] == [];
      assert items + [] == items;
      r := Ok(items);
    }
  }

  /** `row_unpack_handler(row_data, columns)`: the flags of the indicator, or the IndexError
      of a row shorter than its indicator. */
  method NewRowUnpackHandler(row: seq<Byte>, columns: nat) returns (r: Result<RowUnpackHandler>)
    ensures r.Ok? <==> Flags(row, columns).Ok?
    ensures r.Ok? ==> fresh(r.value) && r.value.columns == columns
                      && r.value.nulls == Flags(row, columns).value && r.value.offset == IndicatorLength(columns)
    ensures r.Err? ==> r.error == IndexError
  {
    var nulls := UnpackIndicator(columns, row);
    if nulls.Err? {
      return Err(nulls.error);
    }
    var h := new RowUnpackHandler(columns, nulls.value, IndicatorLength(columns));
    r := Ok(h);
  }

  /** The loop invariant of `unpack_row` when no flag is left to pop. */
  lemma UnpackNoFlag(codecs: seq<Codec>, i: nat, row: seq<Byte>, rowLen: nat, off: nat,
                     items: seq<Option<Value>>, whole: (Result<seq<Option<Value>>>, seq<bool>))
    requires AllValid(codecs) && i < |codecs|
    requires whole == Prepend(items, UnpackFrom(codecs[i..], row, rowLen, [], off))
    ensures whole == (Err(IndexError), [])
  {
    assert codecs[i..] != [];
  }

  /** The first step of `UnpackFrom` on the columns from `i` on. */
  lemma UnpackFromAt(codecs: seq<Codec>, i: nat, row: seq<Byte>, rowLen: nat, flags: seq<bool>, off: nat)
    requires AllValid(codecs) && i < |codecs| && flags != []
    ensures UnpackFrom(codecs[i..], row, rowLen, flags, off)
            == UnpackAfter(codecs[i..], row, rowLen, flags, off, Unpack(codecs[i], row, off))
  {
    assert codecs[i..][0] == codecs[i];
  }

  /** The loop invariant of `unpack_row` carried over one column that decoded to `u`. */
  lemma UnpackStep(codecs: seq<Codec>, i: nat, row: seq<Byte>, rowLen: nat, flags: seq<bool>, off: nat,
                   items: seq<Option<Value>>, whole: (Result<seq<Option<Value>>>, seq<bool>),
                   u: Result<(Value, nat)>)
    requires AllValid(codecs) && i < |codecs| && flags != []
    requires whole == Prepend(items, UnpackAfter(codecs[i..], row, rowLen, flags, off, u))
    ensures u.Err? ==> whole == (Err(u.error), flags[1..])
    ensures u.Ok? && off + u.value.1 > rowLen ==> whole == (Err(RowOverflow), flags[1..])
    ensures u.Ok? && off + u.value.1 <= rowLen ==>
              whole == Prepend(items + [if flags[0] then None else Some(u.value.0)],
                               UnpackFrom(codecs[i + 1..], row, rowLen, flags[1..], off + u.value.1))
  {
    assert codecs[i..][1..] == codecs[i + 1..];
    if u.Ok? && off + u.value.1 <= rowLen {
      PrependTwice(items, [if flags[0] then None else Some(u.value.0)],
                   UnpackFrom(codecs[i + 1..], row, rowLen, flags[1..], off + u.value.1));
    }
  }

  lemma PrependNothing(rest: (Result<seq<Option<Value>>>, seq<bool>))
    ensures Prepend([], rest) == rest
  {
    if rest.0.Ok? {
      assert [] + rest.0.value == rest.0.value;
    }
  }

  lemma PrependTwice(a: seq<Option<Value>>, b: seq<Option<Value>>, rest: (Result<seq<Option<Value>>>, seq<bool>))
    ensures Prepend(a, Prepend(b, rest)) == Prepend(a + b, rest)
  {
    if rest.0.Ok? {
      assert a + (b + rest.0.value) == a + b + rest.0.value;
    }
  }
}
