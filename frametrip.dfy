/** Whole frames and whole files: the frame `csv_to_fexp` writes for an acceptable csv row
    is read back by `fexp_to_csv` as the same row, and a file of such rows comes back row
    for row with no error. */
module FrameRoundTrip {
  import opened Bytes
  import opened Errors
  import opened Indicator
  import opened TdTypes
  import opened CodecLaws
  import opened RowPack
  import opened RowUnpack
  import opened Converter
  import opened Importer
  import opened RowRoundTrip

  /** A csv row the round trip is about: one acceptable value per column under the column's
      label, no other field, and small enough for the guard of `pack` and the assertions of
      `pack_row`. */
  predicate RowFits(cs: seq<Codec>, ts: seq<Text>, row: CsvRow, useTitles: bool)
    requires AllValid(cs)
  {
    AcceptableRow(cs, ts) && Holds(row, cs, ts, useTitles) && RowSize(row) == |cs|
    && RowCost(cs, ts) + |cs| + IndicatorLength(|cs|) < 65535
  }

  /** Every text of the row is acceptable to its column, and `body` is what the columns
      store. */
  predicate Encodes(cs: seq<Codec>, ts: seq<Text>, body: seq<Byte>)
    requires AllValid(cs)
  {
    AcceptableRow(cs, ts) && BodyBytes(cs, ts) == Ok(body)
  }

  /** The frame of an acceptable row: its length header `n`, the row data (the indicator of
      its null flags followed by the bytes of its columns) and a newline; the row data decode
      back to the row's texts. */
  lemma ImportedFrame(cs: seq<Codec>, ts: seq<Text>, row: CsvRow, useTitles: bool)
    returns (data: seq<Byte>, n: nat)
    requires AllValid(cs) && RowFits(cs, ts, row, useTitles)
    ensures n == |data| && n < 65535
    ensures ImportRowSpec(cs, row, useTitles) == Ok(EncodeLE(n, 2) + data + [10])
    ensures FrameFields(cs, data, n) == Ok(ts)
  {
    var ib, body;
    ib, body, data := PackedFrame(cs, ts, row, useTitles);
    n := |data|;
    var flags := NullFlags(cs, ts);
    AtAfter(ib, body, data);
    FlagsOfPrefix(ib, body, data, |cs|, flags);
    ColumnsDecode(cs, ts, flags, data, |ib|, n, body);
    FrameFieldsOf(cs, ts, data, n, |ib|, flags);
  }

  /** What `csv_to_fexp` writes for an acceptable row: the indicator `ib` of its null flags
      and the bytes `body` of its columns, framed. */
  lemma PackedFrame(cs: seq<Codec>, ts: seq<Text>, row: CsvRow, useTitles: bool)
    returns (ib: seq<Byte>, body: seq<Byte>, data: seq<Byte>)
    requires AllValid(cs) && RowFits(cs, ts, row, useTitles)
    ensures |ib| == IndicatorLength(|cs|) && Flags(ib, |cs|) == Ok(NullFlags(cs, ts))
    ensures Encodes(cs, ts, body) && data == ib + body && |data| < 65535
    ensures ImportRowSpec(cs, row, useTitles) == Ok(EncodeLE(|data|, 2) + data + [10])
  {
    assert Consistent(Empty) && EncodeItems([], []) == Ok([]);
    StoreColumns(Empty, cs, ts, row, useTitles, []);
    var s := ImportFields(Empty, cs, row, useTitles).value;
    body := BodyBytes(cs, ts).value;
    ib := IndicatorOf(cs, ts);
    data := ib + body;
    assert [] + body == body && [] + NullFlags(cs, ts) == NullFlags(cs, ts);
    assert s.nulls == NullFlags(cs, ts) && EncodeItems(s.format, s.data) == Ok(body);
    assert |body| == s.rowLen && s.rowLen + |ib| < 65535;
    FrameLayoutOf(s, |cs|, ib, body, data);
    ImportRowOf(cs, row, useTitles, s);
  }

  /** The indicator bytes of a row's null flags, and the flags they read back as. */
  lemma IndicatorOf(cs: seq<Codec>, ts: seq<Text>) returns (ib: seq<Byte>)
    requires |ts| == |cs|
    ensures ib == IndicatorBytes(NullFlags(cs, ts), IndicatorLength(|cs|))
    ensures |ib| == IndicatorLength(|cs|) && Flags(ib, |cs|) == Ok(NullFlags(cs, ts))
  {
    var flags := NullFlags(cs, ts);
    IndicatorRoundTrip(flags);
    ib := IndicatorBytes(flags, IndicatorLength(|flags|));
  }

  lemma ImportRowOf(cs: seq<Codec>, row: CsvRow, useTitles: bool, s: PackState)
    requires AllValid(cs) && RowSize(row) == |cs| && ImportFields(Empty, cs, row, useTitles) == Ok(s)
    ensures ImportRowSpec(cs, row, useTitles) == PackRowSpec(s, |cs|).1
  {
  }

  /** The bytes of an acceptable row's columns, laid out in `data` from `off` on, decode
      with the row's null flags to the row's texts. */
  lemma ColumnsDecode(cs: seq<Codec>, ts: seq<Text>, flags: seq<bool>, data: seq<Byte>, off: nat, rowLen: nat,
                      body: seq<Byte>)
    requires AllValid(cs) && Encodes(cs, ts, body) && flags == NullFlags(cs, ts)
    requires At(data, off, body) && off + |body| <= rowLen
    ensures Decoded(cs, data, rowLen, flags, off) == Ok(ts)
  {
    LaidOutOf(cs, ts, flags, data, rowLen, off, body);
    DecodeColumns(cs, ts, flags, data, rowLen, off);
  }

  lemma FlagsOfPrefix(ib: seq<Byte>, more: seq<Byte>, data: seq<Byte>, n: nat, flags: seq<bool>)
    requires Flags(ib, n) == Ok(flags) && data == ib + more
    ensures Flags(data, n) == Ok(flags)
  {
    FlagsPrefix(ib, more, n);
  }

  lemma FrameFieldsOf(cs: seq<Codec>, ts: seq<Text>, data: seq<Byte>, n: nat, off: nat, flags: seq<bool>)
    requires AllValid(cs) && Flags(data, |cs|) == Ok(flags)
    requires off == IndicatorLength(|cs|) && Decoded(cs, data, n, flags, off) == Ok(ts)
    ensures FrameFields(cs, data, n) == Ok(ts)
  {
  }

  lemma AtAfter(a: seq<Byte>, b: seq<Byte>, ab: seq<Byte>)
    requires ab == a + b
    ensures At(ab, |a|, b)
  {
    assert ab[|a|..|a| + |b|] == b;
  }

  lemma LaidOutOf(cs: seq<Codec>, ts: seq<Text>, flags: seq<bool>, row: seq<Byte>, rowLen: nat, off: nat,
                  body: seq<Byte>)
    requires AllValid(cs) && Encodes(cs, ts, body)
    requires flags == NullFlags(cs, ts) && At(row, off, body) && off + |body| <= rowLen
    ensures LaidOut(cs, ts, flags, row, rowLen, off)
  {
  }

  /** The header of a frame announces its row data; the next frame starts right after the
      newline. */
  lemma FrameHeader(data: seq<Byte>, n: nat, more: seq<Byte>, stream: seq<Byte>)
    requires n == |data| && n < 65535 && stream == EncodeLE(n, 2) + data + [10] + more
    ensures SplitFrames(stream, 0) == [Frame(n, data)] + SplitFrames(stream, n + 3)
  {
    var h := EncodeLE(n, 2);
    Pow256Values();
    DecodeEncodeLE(n, 2);
    assert stream[0..2] == h;
    assert stream[2..2 + n] == data;
    assert FrameLen(stream, 0) == n && NextFrame(stream, 0) == n + 3;
  }

  /** The header of a frame counts the bytes between it and the newline. */
  lemma FrameCount(data: seq<Byte>, n: nat, frame: seq<Byte>)
    requires n == |data| && n < 65535 && frame == EncodeLE(n, 2) + data + [10]
    ensures |frame| == n + 3 && DecodeLE(frame[..2]) == n
  {
    Pow256Values();
    DecodeEncodeLE(n, 2);
    assert frame[..2] == EncodeLE(n, 2);
  }

  /** Reading a stream that starts with a frame whose row data decode to `ts` gives that row
      in front of whatever the rest of the stream gives. */
  lemma ExportedFrame(cs: seq<Codec>, ts: seq<Text>, data: seq<Byte>, n: nat, more: seq<Byte>)
    requires AllValid(cs) && n == |data| && n < 65535 && FrameFields(cs, data, n) == Ok(ts)
    ensures ExportFrom(cs, EncodeLE(n, 2) + data + [10] + more, 0) == Then([ts], ExportFrom(cs, more, 0))
  {
    var frame := EncodeLE(n, 2) + data + [10];
    var stream := frame + more;
    FrameHeader(data, n, more, stream);
    SplitShift(frame, more, stream, 0, n + 3);
    ExportRowsCons(cs, Frame(n, data), SplitFrames(more, 0));
  }

  lemma ExportRowsCons(cs: seq<Codec>, f: Frame, rest: seq<Frame>)
    requires AllValid(cs)
    ensures ExportRows(cs, [f] + rest) == ExportFrame(FrameFields(cs, f.data, f.rowLen), ExportRows(cs, rest))
  {
    assert ([f] + rest)[0] == f && ([f] + rest)[1..] == rest;
  }

  /** One row: `csv_to_fexp` packs an acceptable row into a frame whose header counts the
      bytes between it and the newline, and `fexp_to_csv` reads that frame back as the row. */
  lemma RowTrip(cs: seq<Codec>, ts: seq<Text>, row: CsvRow, useTitles: bool)
    requires AllValid(cs) && RowFits(cs, ts, row, useTitles)
    ensures ImportRowSpec(cs, row, useTitles).Ok?
    ensures var frame := ImportRowSpec(cs, row, useTitles).value;
            |frame| >= 3 && DecodeLE(frame[..2]) == |frame| - 3
            && ExportFrom(cs, frame, 0) == Export([ts], None)
  {
    var data, n := ImportedFrame(cs, ts, row, useTitles);
    var frame := EncodeLE(n, 2) + data + [10];
    FrameCount(data, n, frame);
    assert frame + [] == frame;
    ExportedFrame(cs, ts, data, n, []);
    ExportFromStep(cs, [], 0);
    assert [ts] + [] == [ts];
  }

  /** A whole file: every row of acceptable csv rows is written without error, and reading
      the bytes written gives the rows back in order, with no error. */
  lemma {:induction false} StreamTrip(cs: seq<Codec>, tss: seq<seq<Text>>, rows: seq<CsvRow>, useTitles: bool)
    requires AllValid(cs) && |rows| == |tss|
    requires forall k :: 0 <= k < |rows| ==> RowFits(cs, tss[k], rows[k], useTitles)
    ensures ImportFrom(cs, rows, useTitles).error == None
    ensures ExportFrom(cs, ImportFrom(cs, rows, useTitles).out, 0) == Export(tss, None)
    decreases |rows|
  {
    if rows == [] {
      assert ExportFrom(cs, [], 0) == Export([], None);
    } else {
      assert RowFits(cs, tss[0], rows[0], useTitles);
      assert forall k :: 0 <= k < |rows| - 1 ==> rows[1..][k] == rows[k + 1] && tss[1..][k] == tss[k + 1];
      StreamTrip(cs, tss[1..], rows[1..], useTitles);
      StreamStep(cs, tss, rows, useTitles);
    }
  }

  /** A file whose rows after the first come back: then so does the whole file. */
  lemma StreamStep(cs: seq<Codec>, tss: seq<seq<Text>>, rows: seq<CsvRow>, useTitles: bool)
    requires AllValid(cs) && |rows| == |tss| && rows != [] && RowFits(cs, tss[0], rows[0], useTitles)
    requires ImportFrom(cs, rows[1..], useTitles).error == None
    requires ExportFrom(cs, ImportFrom(cs, rows[1..], useTitles).out, 0) == Export(tss[1..], None)
    ensures ImportFrom(cs, rows, useTitles).error == None
    ensures ExportFrom(cs, ImportFrom(cs, rows, useTitles).out, 0) == Export(tss, None)
  {
    var data, n := ImportedFrame(cs, tss[0], rows[0], useTitles);
    var rest := ImportFrom(cs, rows[1..], useTitles);
    assert ImportFrom(cs, rows, useTitles) == Import(EncodeLE(n, 2) + data + [10] + rest.out, rest.error);
    ExportedFrame(cs, tss[0], data, n, rest.out);
    assert [tss[0]] + tss[1..] == tss;
  }

  // ---------------------------------------------------------------------------
  // Reading is local to the frames

  /** Bytes in front of a stream do not change the frames read from a later position. */
  lemma {:induction false} SplitShift(pre: seq<Byte>, s: seq<Byte>, t: seq<Byte>, p: nat, q: nat)
    requires t == pre + s && q == |pre| + p
    ensures SplitFrames(t, q) == SplitFrames(s, p)
    decreases if p <= |s| then |s| - p else 0
  {
    if p + 2 <= |s| {
      var f := FrameShift(pre, s, t, p, q);
      SplitShift(pre, s, t, NextFrame(s, p), NextFrame(t, q));
      SplitStep(s, p, f);
      SplitStep(t, q, f);
    }
  }

  /** The frames of a stream from `p`: the one at `p`, then the ones after it. */
  lemma SplitStep(s: seq<Byte>, p: nat, f: Frame)
    requires p + 2 <= |s| && f == Frame(FrameLen(s, p), Slice(s, p + 2, p + 2 + FrameLen(s, p)))
    ensures SplitFrames(s, p) == [f] + SplitFrames(s, NextFrame(s, p))
  {
  }

  /** The frame at `p` of `s` is the frame at `q` of `t`, which holds `s` after `pre`. */
  lemma FrameShift(pre: seq<Byte>, s: seq<Byte>, t: seq<Byte>, p: nat, q: nat) returns (f: Frame)
    requires t == pre + s && q == |pre| + p && p + 2 <= |s|
    ensures q + 2 <= |t| && NextFrame(t, q) == |pre| + NextFrame(s, p)
    ensures f == Frame(FrameLen(s, p), Slice(s, p + 2, p + 2 + FrameLen(s, p)))
    ensures f == Frame(FrameLen(t, q), Slice(t, q + 2, q + 2 + FrameLen(t, q)))
  {
    var n := FrameLen(s, p);
    assert t[q..q + 2] == s[p..p + 2];
    SliceShift(pre, s, p + 2, p + 2 + n);
    assert q + 2 == |pre| + (p + 2) && q + 2 + n == |pre| + (p + 2 + n);
    f := Frame(n, Slice(s, p + 2, p + 2 + n));
  }

  lemma SliceShift(pre: seq<Byte>, s: seq<Byte>, i: nat, j: nat)
    requires i <= j
    ensures Slice(pre + s, |pre| + i, |pre| + j) == Slice(s, i, j)
  {
    if j <= |s| {
      assert (pre + s)[|pre| + i..|pre| + j] == s[i..j];
    } else if i < |s| {
      assert (pre + s)[|pre| + i..] == s[i..];
    }
  }
}
