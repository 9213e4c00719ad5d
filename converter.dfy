/** The per-row logic of the two drivers, over in-memory sequences: `fexp_to_csv` splits a
    FastExport byte stream into frames and decodes each into csv fields, `csv_to_fexp`
    projects the csv header onto the column definitions and packs every row into a frame. */
module Converter {
  import opened Bytes
  import opened Errors
  import opened Indicator
  import opened TdTypes
  import opened RowPack
  import opened RowUnpack

  // ---------------------------------------------------------------------------
  // Export: column codecs, one per definition

  /** The header labels `fexp_to_csv` writes, one per definition. */
  function Labels(fds: seq<FieldDef>, useTitles: bool): (r: seq<Text>)
    ensures |r| == |fds| && forall i :: 0 <= i < |fds| ==> r[i] == Label(fds[i], useTitles)
  {
    seq(|fds|, i requires 0 <= i < |fds| => Label(fds[i], useTitles))
  }

  /** The codecs of the exporter: one per definition in order, or the first construction
      error. */
  function ExportCodecs(fds: seq<FieldDef>): (r: Result<seq<Codec>>)
    ensures r.Ok? ==> |r.value| == |fds| && AllValid(r.value)
    ensures r.Ok? ==> forall i :: 0 <= i < |fds| ==> r.value[i].fd == fds[i]
    ensures r.Ok? <==> forall i :: 0 <= i < |fds| ==> MakeCodec(fds[i]).Ok?
  {
    if fds == [] then Ok([])
    else
      var c :- MakeCodec(fds[0]);
      var rest :- ExportCodecs(fds[1..]);
      assert forall i :: 1 <= i < |fds| ==> fds[i] == fds[1..][i - 1];
      Ok([c] + rest)
  }

  /** The header loop of `fexp_to_csv`. */
  method ExportColumns(fds: seq<FieldDef>, useTitles: bool) returns (cols: seq<Text>, r: Result<seq<Codec>>)
    ensures r == ExportCodecs(fds)
    ensures r.Ok? ==> cols == Labels(fds, useTitles)
  {
    cols := [];
    var codecs := [];
    var i := 0;
    assert fds[i..] == fds && fds[..i] == [];
    PrefixedNothing(ExportCodecs(fds));
    while i < |fds|
      invariant i <= |fds|
      invariant cols == Labels(fds[..i], useTitles)
      invariant ExportCodecs(fds) == Prefixed(codecs, ExportCodecs(fds[i..]))
    {
      var c := MakeCodec(fds[i]);
      CodecsNext(fds, i, codecs);
      if c.Err? {
        return cols, Err(c.error);
      }
      LabelsNext(fds, i, useTitles);
      cols := cols + [Label(fds[i], useTitles)];
      codecs := codecs + [c.value];
      i := i + 1;
    }
    assert fds[..i] == fds && fds[i..] == [];
    assert codecs + [] == codecs;
    r := Ok(codecs);
  }

  /** The labels of one more definition. */
  lemma LabelsNext(fds: seq<FieldDef>, i: nat, useTitles: bool)
    requires i < |fds|
    ensures Labels(fds[..i + 1], useTitles) == Labels(fds[..i], useTitles) + [Label(fds[i], useTitles)]
  {
    assert fds[..i + 1] == fds[..i] + [fds[i]];
  }

  /** Codecs already built in front of what the rest gives. */
  function Prefixed(done: seq<Codec>, rest: Result<seq<Codec>>): Result<seq<Codec>> {
    if rest.Ok? then Ok(done + rest.value) else rest
  }

  lemma PrefixedNothing(rest: Result<seq<Codec>>)
    ensures Prefixed([], rest) == rest
  {
    if rest.Ok? {
      assert [] + rest.value == rest.value;
    }
  }

  lemma PrefixedTwice(a: seq<Codec>, b: seq<Codec>, rest: Result<seq<Codec>>)
    ensures Prefixed(a, Prefixed(b, rest)) == Prefixed(a + b, rest)
  {
    if rest.Ok? {
      assert a + (b + rest.value) == a + b + rest.value;
    }
  }

  /** The loop invariant of the header loop carried over one definition. */
  lemma CodecsNext(fds: seq<FieldDef>, i: nat, codecs: seq<Codec>)
    requires i < |fds| && ExportCodecs(fds) == Prefixed(codecs, ExportCodecs(fds[i..]))
    ensures MakeCodec(fds[i]).Err? ==> ExportCodecs(fds) == Err(MakeCodec(fds[i]).error)
    ensures MakeCodec(fds[i]).Ok? ==>
              ExportCodecs(fds) == Prefixed(codecs + [MakeCodec(fds[i]).value], ExportCodecs(fds[i + 1..]))
  {
    ExportCodecsCons(fds[i..]);
    assert fds[i..][0] == fds[i] && fds[i..][1..] == fds[i + 1..];
    if MakeCodec(fds[i]).Ok? {
      PrefixedTwice(codecs, [MakeCodec(fds[i]).value], ExportCodecs(fds[i + 1..]));
    }
  }

  lemma ExportCodecsCons(fds: seq<FieldDef>)
    requires fds != []
    ensures ExportCodecs(fds) == if MakeCodec(fds[0]).Err? then Err(MakeCodec(fds[0]).error)
                                 else Prefixed([MakeCodec(fds[0]).value], ExportCodecs(fds[1..]))
  {
  }

  // ---------------------------------------------------------------------------
  // Export: frames of the byte stream

  /** How the csv writer spells one column: None as an empty field. */
  function ShowItem(v: Option<Value>): Result<Text> {
    match v
    case None => Ok([])
    case Some(x) => Shown(x)
  }

  /** The csv fields of a decoded row: field i spells value i, and the row fails when
      some value cannot be spelled. */
  function ShowRow(vals: seq<Option<Value>>): (r: Result<seq<Text>>)
    ensures r.Ok? <==> forall i :: 0 <= i < |vals| ==> ShowItem(vals[i]).Ok?
    ensures r.Ok? ==> |r.value| == |vals| && forall i :: 0 <= i < |vals| ==> r.value[i] == ShowItem(vals[i]).value
  {
    if vals == [] then Ok([])
    else
      var h :- ShowItem(vals[0]);
      var t :- ShowRow(vals[1..]);
      assert forall i :: 1 <= i < |vals| ==> vals[i] == vals[1..][i - 1];
      Ok([h] + t)
  }

  /** The rows `fexp_to_csv` has written and the error that stopped it, if any. */
  datatype Export = Export(rows: seq<seq<Text>>, error: Option<Error>)

  /** Rows already written in front of what the rest of the stream gives. */
  function Then(rows: seq<seq<Text>>, rest: Export): Export {
    Export(rows + rest.rows, rest.error)
  }

  /** The csv fields of one frame of `row_len` bytes, or the error that stops the export. */
  function FrameFields(codecs: seq<Codec>, rowData: seq<Byte>, rowLen: nat): Result<seq<Text>>
    requires AllValid(codecs)
  {
    var vals :- DecodeRow(codecs, rowData, rowLen);
    ShowRow(vals)
  }

  /** What one frame adds in front of the rest of the stream. */
  function ExportFrame(fields: Result<seq<Text>>, rest: Export): Export {
    if fields.Err? then Export([], Some(fields.error)) else Then([fields.value], rest)
  }

  /** The `row_len` header of the frame at `pos`. */
  function FrameLen(stream: seq<Byte>, pos: nat): nat
    requires pos + 2 <= |stream|
  {
    DecodeLE(stream[pos..pos + 2])
  }

  /** The csv fields of the frame at `pos`: its `row_len` bytes, fewer at the end of the
      stream. */
  function FrameAt(codecs: seq<Codec>, stream: seq<Byte>, pos: nat): Result<seq<Text>>
    requires AllValid(codecs) && pos + 2 <= |stream|
  {
    FrameFields(codecs, Slice(stream, pos + 2, pos + 2 + FrameLen(stream, pos)), FrameLen(stream, pos))
  }

  /** Where the frame after the one at `pos` starts: past its header, its data and one
      terminator byte, which is not checked. */
  function NextFrame(stream: seq<Byte>, pos: nat): (r: nat)
    requires pos + 2 <= |stream|
    ensures r > pos
  {
    pos + 2 + FrameLen(stream, pos) + 1
  }

  /** One frame of the stream: its `row_len` and the data read for it. */
  datatype Frame = Frame(rowLen: nat, data: seq<Byte>)

  /** The frames the read loop of `fexp_to_csv` meets from stream position `pos`: fewer
      than two bytes left is the end; otherwise the frame at `pos` and those after it. */
  function SplitFrames(stream: seq<Byte>, pos: nat): seq<Frame>
    decreases if pos <= |stream| then |stream| - pos else 0
  {
    if pos + 2 > |stream| then []
    else
      var n := FrameLen(stream, pos);
      [Frame(n, Slice(stream, pos + 2, pos + 2 + n))] + SplitFrames(stream, NextFrame(stream, pos))
  }

  /** The csv rows of a sequence of frames, stopping at the first frame that fails. */
  function ExportRows(codecs: seq<Codec>, frames: seq<Frame>): Export
    requires AllValid(codecs)
  {
    if frames == [] then Export([], None)
    else ExportFrame(FrameFields(codecs, frames[0].data, frames[0].rowLen), ExportRows(codecs, frames[1..]))
  }

  /** What the read loop of `fexp_to_csv` writes from stream position `pos`. */
  function ExportFrom(codecs: seq<Codec>, stream: seq<Byte>, pos: nat): Export
    requires AllValid(codecs)
  {
    ExportRows(codecs, SplitFrames(stream, pos))
  }

  /** The read loop from `pos`: nothing at the end, otherwise the frame at `pos` in front of
      what follows it. */
  lemma ExportFromStep(codecs: seq<Codec>, stream: seq<Byte>, pos: nat)
    requires AllValid(codecs)
    ensures pos + 2 > |stream| ==> ExportFrom(codecs, stream, pos) == Export([], None)
    ensures pos + 2 <= |stream| ==>
              ExportFrom(codecs, stream, pos)
              == ExportFrame(FrameAt(codecs, stream, pos), ExportFrom(codecs, stream, NextFrame(stream, pos)))
  {
    if pos + 2 <= |stream| {
      var n := FrameLen(stream, pos);
      var f := Frame(n, Slice(stream, pos + 2, pos + 2 + n));
      var fs := SplitFrames(stream, pos);
      assert fs == [f] + SplitFrames(stream, NextFrame(stream, pos));
      assert fs[0] == f && fs[1..] == SplitFrames(stream, NextFrame(stream, pos));
    }
  }

  /** The body of the read loop for one frame. */
  method ExportOne(codecs: seq<Codec>, rowData: seq<Byte>, rowLen: nat) returns (fields: Result<seq<Text>>)
    requires AllValid(codecs)
    ensures fields == FrameFields(codecs, rowData, rowLen)
  {
    var ruh := NewRowUnpackHandler(rowData, |codecs|);
    if ruh.Err? {
      return Err(ruh.error);
    }
    var items := ruh.value.UnpackRow(codecs, rowData, rowLen);
    if items.Err? {
      return Err(items.error);
    }
    fields := ShowRow(items.value);
  }

  /** One pass of the read loop: the `row_len` header, then the frame it announces. */
  method ExportFrameAt(codecs: seq<Codec>, stream: seq<Byte>, pos: nat) returns (fields: Result<seq<Text>>)
    requires AllValid(codecs) && pos + 2 <= |stream|
    ensures fields == FrameAt(codecs, stream, pos)
  {
    var rowLen := DecodeLE(stream[pos..pos + 2]);
    assert rowLen == FrameLen(stream, pos);
    var rowData := Slice(stream, pos + 2, pos + 2 + rowLen);
    fields := ExportOne(codecs, rowData, rowLen);
  }

  /** The read loop of `fexp_to_csv`. */
  method ExportStream(codecs: seq<Codec>, stream: seq<Byte>) returns (rows: seq<seq<Text>>, error: Option<Error>)
    requires AllValid(codecs)
    ensures Export(rows, error) == ExportFrom(codecs, stream, 0)
  {
    rows := [];
    var pos: nat := 0;
    assert [] + ExportFrom(codecs, stream, 0).rows == ExportFrom(codecs, stream, 0).rows;
    while pos + 2 <= |stream|
      invariant ExportFrom(codecs, stream, 0) == Then(rows, ExportFrom(codecs, stream, pos))
      decreases |stream| - pos
    {
      var fields := ExportFrameAt(codecs, stream, pos);
      ExportNext(codecs, stream, pos, rows, fields);
      if fields.Err? {
        return rows, Some(fields.error);
      }
      rows := rows + [fields.value];
      pos := NextFrame(stream, pos);
    }
    ExportFromEnd(codecs, stream, pos, rows);
    error := None;
  }

  /** The loop invariant carried over one frame. */
  lemma ExportNext(codecs: seq<Codec>, stream: seq<Byte>, pos: nat, rows: seq<seq<Text>>, fields: Result<seq<Text>>)
    requires AllValid(codecs) && pos + 2 <= |stream|
    requires ExportFrom(codecs, stream, 0) == Then(rows, ExportFrom(codecs, stream, pos))
    requires fields == FrameAt(codecs, stream, pos)
    ensures fields.Err? ==> ExportFrom(codecs, stream, 0) == Export(rows, Some(fields.error))
    ensures fields.Ok? ==> ExportFrom(codecs, stream, 0)
                           == Then(rows + [fields.value], ExportFrom(codecs, stream, NextFrame(stream, pos)))
  {
    var rest := ExportFrom(codecs, stream, NextFrame(stream, pos));
    ExportFromStep(codecs, stream, pos);
    if fields.Err? {
      assert rows + [] == rows;
    } else {
      ThenTwice(rows, [fields.value], rest);
    }
  }

  lemma ExportFromEnd(codecs: seq<Codec>, stream: seq<Byte>, pos: nat, rows: seq<seq<Text>>)
    requires AllValid(codecs) && pos + 2 > |stream|
    requires ExportFrom(codecs, stream, 0) == Then(rows, ExportFrom(codecs, stream, pos))
    ensures ExportFrom(codecs, stream, 0) == Export(rows, None)
  {
    ExportFromStep(codecs, stream, pos);
    assert rows + [] == rows;
  }

  lemma ThenTwice(a: seq<seq<Text>>, b: seq<seq<Text>>, rest: Export)
    ensures Then(a, Then(b, rest)) == Then(a + b, rest)
  {
    assert a + (b + rest.rows) == a + b + rest.rows;
  }
}
