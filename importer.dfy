/** The per-row logic of `csv_to_fexp` over in-memory values: the csv header is projected
    onto the column definitions, and every csv row is packed into one FastExport frame. */
module Importer {
  import opened Bytes
  import opened Errors
  import opened TdTypes
  import opened RowPack
  import opened RowUnpack
  import opened Converter

  // ---------------------------------------------------------------------------
  // Header projection

  /** The codecs of the definitions labelled `h`, in definition order, or the first
      construction error among them. */
  function MatchingCodecs(fds: seq<FieldDef>, h: Text, useTitles: bool): (r: Result<seq<Codec>>)
    ensures r.Ok? ==> AllValid(r.value)
    ensures r.Ok? ==> forall i :: 0 <= i < |r.value| ==> Label(r.value[i].fd, useTitles) == h
  {
    if fds == [] then Ok([])
    else if Label(fds[0], useTitles) == h then
      var c :- MakeCodec(fds[0]);
      var rest :- MatchingCodecs(fds[1..], h, useTitles);
      Ok([c] + rest)
    else MatchingCodecs(fds[1..], h, useTitles)
  }

  /** The header loop of `csv_to_fexp`: a header that labels no definition is an error;
      every other header contributes the codecs of all definitions it labels. */
  function ImportCodecs(fds: seq<FieldDef>, headers: seq<Text>, useTitles: bool): (r: Result<seq<Codec>>)
    ensures r.Ok? ==> AllValid(r.value)
    ensures r.Ok? ==> forall i :: 0 <= i < |r.value| ==> Label(r.value[i].fd, useTitles) in headers
  {
    if headers == [] then Ok([])
    else if headers[0] !in Labels(fds, useTitles) then Err(UndefinedHeader)
    else
      var cs :- MatchingCodecs(fds, headers[0], useTitles);
      var rest :- ImportCodecs(fds, headers[1..], useTitles);
      assert forall i :: 0 <= i < |rest| ==> Label(rest[i].fd, useTitles) in headers[1..];
      Ok(cs + rest)
  }

  /** The header loop of `csv_to_fexp`, with its inner loop over the definitions. */
  method ImportColumns(fds: seq<FieldDef>, headers: seq<Text>, useTitles: bool) returns (r: Result<seq<Codec>>)
    ensures r == ImportCodecs(fds, headers, useTitles)
  {
    var defined := Labels(fds, useTitles);
    var codecs := [];
    var i := 0;
    assert headers[i..] == headers;
    PrefixedNothing(ImportCodecs(fds, headers, useTitles));
    while i < |headers|
      invariant i <= |headers|
      invariant ImportCodecs(fds, headers, useTitles) == Prefixed(codecs, ImportCodecs(fds, headers[i..], useTitles))
    {
      ghost var rest := headers[i..];
      assert rest[0] == headers[i] && rest[1..] == headers[i + 1..];
      if headers[i] !in defined {
        return Err(UndefinedHeader);
      }
      var m := Matching(fds, headers[i], useTitles);
      if m.Err? {
        return Err(m.error);
      }
      PrefixedTwice(codecs, m.value, ImportCodecs(fds, headers[i + 1..], useTitles));
      codecs := codecs + m.value;
      i := i + 1;
    }
    assert headers[i..] == [];
    assert codecs + [] == codecs;
    r := Ok(codecs);
  }

  /** The inner loop of the header projection: one codec per definition labelled `h`. */
  method Matching(fds: seq<FieldDef>, h: Text, useTitles: bool) returns (r: Result<seq<Codec>>)
    ensures r == MatchingCodecs(fds, h, useTitles)
  {
    var codecs := [];
    var j := 0;
    assert fds[j..] == fds;
    PrefixedNothing(MatchingCodecs(fds, h, useTitles));
    while j < |fds|
      invariant j <= |fds|
      invariant MatchingCodecs(fds, h, useTitles) == Prefixed(codecs, MatchingCodecs(fds[j..], h, useTitles))
    {
      ghost var rest := fds[j..];
      assert rest[0] == fds[j] && rest[1..] == fds[j + 1..];
      if Label(fds[j], useTitles) == h {
        var c := MakeCodec(fds[j]);
        if c.Err? {
          return Err(c.error);
        }
        PrefixedTwice(codecs, [c.value], MatchingCodecs(fds[j + 1..], h, useTitles));
        codecs := codecs + [c.value];
      }
      j := j + 1;
    }
    assert fds[j..] == [];
    assert codecs + [] == codecs;
    r := Ok(codecs);
  }

  /** No two definitions share a label. */
  predicate UniqueLabels(fds: seq<FieldDef>, useTitles: bool) {
    forall i, j :: 0 <= i < j < |fds| ==> Label(fds[i], useTitles) != Label(fds[j], useTitles)
  }

  /** Every definition has a codec. */
  predicate AllConstructible(fds: seq<FieldDef>) {
    forall i :: 0 <= i < |fds| ==> MakeCodec(fds[i]).Ok?
  }

  lemma {:induction false} MatchingNone(fds: seq<FieldDef>, h: Text, useTitles: bool)
    requires forall i :: 0 <= i < |fds| ==> Label(fds[i], useTitles) != h
    ensures MatchingCodecs(fds, h, useTitles) == Ok([])
  {
    if fds != [] {
      MatchingNone(fds[1..], h, useTitles);
    }
  }

  lemma {:induction false} MatchingConstructible(fds: seq<FieldDef>, h: Text, useTitles: bool)
    requires AllConstructible(fds)
    ensures MatchingCodecs(fds, h, useTitles).Ok?
  {
    if fds != [] {
      MatchingConstructible(fds[1..], h, useTitles);
    }
  }

  /** With unique labels, the header labelling definition k selects exactly its codec. */
  lemma {:induction false} MatchingUnique(fds: seq<FieldDef>, h: Text, useTitles: bool, k: nat)
    requires UniqueLabels(fds, useTitles) && AllConstructible(fds)
    requires k < |fds| && Label(fds[k], useTitles) == h
    ensures MatchingCodecs(fds, h, useTitles) == Ok([MakeCodec(fds[k]).value])
  {
    if k == 0 {
      MatchingNone(fds[1..], h, useTitles);
      assert [MakeCodec(fds[0]).value] + [] == [MakeCodec(fds[0]).value];
    } else {
      MatchingUnique(fds[1..], h, useTitles, k - 1);
    }
  }

  /** When every definition has a codec, the projection fails exactly when some header
      labels no definition, and then with that error. */
  lemma {:induction false} ImportCodecsErrors(fds: seq<FieldDef>, headers: seq<Text>, useTitles: bool)
    requires AllConstructible(fds)
    ensures ImportCodecs(fds, headers, useTitles).Ok? <==>
              forall i :: 0 <= i < |headers| ==> headers[i] in Labels(fds, useTitles)
    ensures ImportCodecs(fds, headers, useTitles).Err? ==>
              ImportCodecs(fds, headers, useTitles).error == UndefinedHeader
  {
    if headers != [] {
      MatchingConstructible(fds, headers[0], useTitles);
      ImportCodecsErrors(fds, headers[1..], useTitles);
      assert forall i :: 1 <= i < |headers| ==> headers[i] == headers[1..][i - 1];
    }
  }

  /** With unique labels and every header defined, the projection gives one codec per
      header, in header order, each built from the definition the header labels. */
  lemma {:induction false} ImportCodecsUnique(fds: seq<FieldDef>, headers: seq<Text>, useTitles: bool)
    requires UniqueLabels(fds, useTitles) && AllConstructible(fds)
    requires forall i :: 0 <= i < |headers| ==> headers[i] in Labels(fds, useTitles)
    ensures ImportCodecs(fds, headers, useTitles).Ok?
    ensures var cs := ImportCodecs(fds, headers, useTitles).value;
            |cs| == |headers|
            && forall i :: 0 <= i < |headers| ==> Label(cs[i].fd, useTitles) == headers[i] && cs[i].fd in fds
  {
    if headers != [] {
      assert forall i :: 0 <= i < |headers| - 1 ==> headers[1..][i] == headers[i + 1];
      ImportCodecsUnique(fds, headers[1..], useTitles);
      assert headers[0] in Labels(fds, useTitles);
      UniqueStep(fds, headers, useTitles);
    }
  }

  /** The step of `ImportCodecsUnique`: the first header selects one codec in front of the
      codecs of the others. */
  lemma UniqueStep(fds: seq<FieldDef>, headers: seq<Text>, useTitles: bool)
    requires UniqueLabels(fds, useTitles) && AllConstructible(fds)
    requires headers != [] && headers[0] in Labels(fds, useTitles)
    requires ImportCodecs(fds, headers[1..], useTitles).Ok?
    requires var rest := ImportCodecs(fds, headers[1..], useTitles).value;
             |rest| == |headers| - 1
             && forall i :: 0 <= i < |rest| ==> Label(rest[i].fd, useTitles) == headers[1..][i] && rest[i].fd in fds
    ensures ImportCodecs(fds, headers, useTitles).Ok?
    ensures var cs := ImportCodecs(fds, headers, useTitles).value;
            |cs| == |headers|
            && forall i :: 0 <= i < |headers| ==> Label(cs[i].fd, useTitles) == headers[i] && cs[i].fd in fds
  {
    var k := LabelIndex(fds, headers[0], useTitles);
    MatchingUnique(fds, headers[0], useTitles, k);
    var c := MakeCodec(fds[k]).value;
    var rest := ImportCodecs(fds, headers[1..], useTitles).value;
    assert c.fd == fds[k] && c.fd in fds;
    ImportCodecsCons(fds, headers, useTitles, c, rest);
    ConsLabels(c, rest, fds, headers, useTitles);
  }

  /** The definition a defined header labels. */
  lemma LabelIndex(fds: seq<FieldDef>, h: Text, useTitles: bool) returns (k: nat)
    requires h in Labels(fds, useTitles)
    ensures k < |fds| && Label(fds[k], useTitles) == h
  {
    var ls := Labels(fds, useTitles);
    k :| 0 <= k < |ls| && ls[k] == h;
  }

  lemma ImportCodecsCons(fds: seq<FieldDef>, headers: seq<Text>, useTitles: bool, c: Codec, rest: seq<Codec>)
    requires headers != [] && headers[0] in Labels(fds, useTitles)
    requires MatchingCodecs(fds, headers[0], useTitles) == Ok([c])
    requires ImportCodecs(fds, headers[1..], useTitles) == Ok(rest)
    ensures ImportCodecs(fds, headers, useTitles) == Ok([c] + rest)
  {
  }

  lemma ConsLabels(c: Codec, rest: seq<Codec>, fds: seq<FieldDef>, headers: seq<Text>, useTitles: bool)
    requires headers != [] && c.fd in fds && Label(c.fd, useTitles) == headers[0] && |rest| == |headers| - 1
    requires forall i :: 0 <= i < |rest| ==> Label(rest[i].fd, useTitles) == headers[1..][i] && rest[i].fd in fds
    ensures var cs := [c] + rest;
            |cs| == |headers|
            && forall i :: 0 <= i < |headers| ==> Label(cs[i].fd, useTitles) == headers[i] && cs[i].fd in fds
  {
    var cs := [c] + rest;
    forall i | 0 <= i < |headers|
      ensures Label(cs[i].fd, useTitles) == headers[i] && cs[i].fd in fds
    {
      if i > 0 {
        assert cs[i] == rest[i - 1] && headers[i] == headers[1..][i - 1];
      }
    }
  }

  // ---------------------------------------------------------------------------
  // Rows

  /** A row of `csv.DictReader`: the value of every header (None where the line was short)
      and whether surplus values were collected under the extra key. */
  datatype CsvRow = CsvRow(fields: map<Text, Option<Text>>, extra: bool)

  /** `len(row)`. */
  function RowSize(row: CsvRow): nat {
    |row.fields| + if row.extra then 1 else 0
  }

  /** A missing or empty csv value. */
  predicate IsEmpty(v: Option<Text>) {
    v.None? || v.value == []
  }

  /** One column of the row loop: an empty value of a character column is packed as the
      empty text; an empty value of any other column is a NOT NULL violation or a zero
      added with the null flag set; every other value is packed with the flag clear. */
  function ImportField(s: PackState, c: Codec, v: Option<Text>): Result<PackState>
    requires c.Valid()
  {
    if IsEmpty(v) && !IsCharacter(c.fd.kind) then
      if !c.fd.nullable then Err(NullOnNonNullable)
      else Ok(NullDefined(Added(s, c.fmt, c.width, DInt(0)), true))
    else PackSpec(NullDefined(s, false), c, if IsEmpty(v) then [] else v.value)
  }

  /** The builder state after the remaining columns `codecs` have been packed from `row`. */
  function ImportFields(s: PackState, codecs: seq<Codec>, row: CsvRow, useTitles: bool): Result<PackState>
    requires AllValid(codecs)
    decreases |codecs|
  {
    if codecs == [] then Ok(s)
    else
      var key := Label(codecs[0].fd, useTitles);
      if key !in row.fields then Err(KeyError)
      else
        var s1 :- ImportField(s, codecs[0], row.fields[key]);
        ImportFields(s1, codecs[1..], row, useTitles)
  }

  /** The frame `csv_to_fexp` writes for one csv row, or the exception it raises. */
  function ImportRowSpec(codecs: seq<Codec>, row: CsvRow, useTitles: bool): Result<seq<Byte>>
    requires AllValid(codecs)
  {
    if RowSize(row) < |codecs| then Err(MissingColumns)
    else if RowSize(row) > |codecs| then Err(TooManyColumns)
    else
      var s :- ImportFields(Empty, codecs, row, useTitles);
      PackRowSpec(s, |codecs|).1
  }

  /** The body of the row loop of `csv_to_fexp`. */
  method ImportRow(codecs: seq<Codec>, row: CsvRow, useTitles: bool) returns (r: Result<seq<Byte>>)
    requires AllValid(codecs)
    ensures r == ImportRowSpec(codecs, row, useTitles)
  {
    if RowSize(row) < |codecs| {
      return Err(MissingColumns);
    } else if RowSize(row) > |codecs| {
      return Err(TooManyColumns);
    }
    var rph := new RowPackHandler();
    var i := 0;
    assert codecs[i..] == codecs;
    while i < |codecs|
      invariant i <= |codecs|
      invariant ImportFields(Empty, codecs, row, useTitles) == ImportFields(rph.State(), codecs[i..], row, useTitles)
    {
      ghost var rest := codecs[i..];
      assert rest[0] == codecs[i] && rest[1..] == codecs[i + 1..];
      var c := codecs[i];
      var key := Label(c.fd, useTitles);
      if key !in row.fields {
        return Err(KeyError);
      }
      var v := row.fields[key];
      ghost var s0 := rph.State();
      ImportFieldsStep(s0, rest, row, useTitles);
      if IsEmpty(v) && !IsCharacter(c.fd.kind) {
        if !c.fd.nullable {
          return Err(NullOnNonNullable);
        }
        rph.AddData(c, DInt(0));
        rph.DefineNull(true);
      } else {
        rph.DefineNull(false);
        var o := rph.Pack(c, if IsEmpty(v) then [] else v.value);
        if o.Fail? {
          return Err(o.error);
        }
      }
      assert ImportField(s0, c, v) == Ok(rph.State());
      i := i + 1;
    }
    assert codecs[i..] == [];
    r := rph.PackRow(|codecs|);
  }

  lemma ImportFieldsStep(s: PackState, codecs: seq<Codec>, row: CsvRow, useTitles: bool)
    requires AllValid(codecs) && codecs != [] && Label(codecs[0].fd, useTitles) in row.fields
    ensures ImportFields(s, codecs, row, useTitles)
            == match ImportField(s, codecs[0], row.fields[Label(codecs[0].fd, useTitles)])
               case Err(e) => Err(e)
               case Ok(s1) => ImportFields(s1, codecs[1..], row, useTitles)
  {
  }

  /** The null policy of the row loop: the NOT NULL error is raised exactly for an empty
      value of a non-character NOT NULL column; otherwise one null flag is recorded, set
      exactly for an empty value of a non-character column, and the builder stays
      consistent. */
  lemma NullPolicy(s: PackState, c: Codec, v: Option<Text>)
    requires c.Valid() && Consistent(s)
    ensures ImportField(s, c, v) == Err(NullOnNonNullable) <==>
              IsEmpty(v) && !IsCharacter(c.fd.kind) && !c.fd.nullable
    ensures ImportField(s, c, v).Ok? ==>
              ImportField(s, c, v).value.nulls == s.nulls + [IsEmpty(v) && !IsCharacter(c.fd.kind)]
              && Consistent(ImportField(s, c, v).value)
  {
    var t: Text := if IsEmpty(v) then [] else v.value;
    var s1 := NullDefined(s, false);
    PackErrors(c, VText(t));
    if PackSpec(s1, c, t).Ok? {
      PackConsistent(s1, c, t);
    }
    CodecWidths(c);
    AddedConsistent(s, c.fmt, c.width, DInt(0));
  }

  /** Packing the columns of a row never raises the row-size errors. */
  lemma {:induction false} ImportFieldsErrors(s: PackState, codecs: seq<Codec>, row: CsvRow, useTitles: bool)
    requires AllValid(codecs)
    ensures ImportFields(s, codecs, row, useTitles).Err? ==>
              ImportFields(s, codecs, row, useTitles).error !in {MissingColumns, TooManyColumns}
    decreases |codecs|
  {
    if codecs != [] {
      var key := Label(codecs[0].fd, useTitles);
      if key in row.fields {
        var v := row.fields[key];
        var t: Text := if IsEmpty(v) then [] else v.value;
        PackErrors(codecs[0], VText(t));
        if ImportField(s, codecs[0], v).Ok? {
          ImportFieldsErrors(ImportField(s, codecs[0], v).value, codecs[1..], row, useTitles);
        }
      }
    }
  }

  /** The row-size checks: a row with fewer fields than columns is refused as missing
      columns, one with more as too many, and no other row raises either error. */
  lemma ImportRowCounts(codecs: seq<Codec>, row: CsvRow, useTitles: bool)
    requires AllValid(codecs)
    ensures ImportRowSpec(codecs, row, useTitles) == Err(MissingColumns) <==> RowSize(row) < |codecs|
    ensures ImportRowSpec(codecs, row, useTitles) == Err(TooManyColumns) <==> RowSize(row) > |codecs|
  {
    ImportFieldsErrors(Empty, codecs, row, useTitles);
    var f := ImportFields(Empty, codecs, row, useTitles);
    if f.Ok? {
      var r := PackRowSpec(f.value, |codecs|).1;
      assert r.Err? ==> r.error in {AssertionFailed, StructError, FloatNotModelled};
    }
  }

  // ---------------------------------------------------------------------------
  // The row loop

  /** The bytes `csv_to_fexp` has written and the exception that stopped it, if any. */
  datatype Import = Import(out: seq<Byte>, error: Option<Error>)

  function ImportFrom(codecs: seq<Codec>, rows: seq<CsvRow>, useTitles: bool): Import
    requires AllValid(codecs)
  {
    if rows == [] then Import([], None)
    else
      match ImportRowSpec(codecs, rows[0], useTitles)
      case Err(e) => Import([], Some(e))
      case Ok(frame) =>
        var rest := ImportFrom(codecs, rows[1..], useTitles);
        Import(frame + rest.out, rest.error)
  }

  /** The row loop of `csv_to_fexp`. */
  method ImportStream(codecs: seq<Codec>, rows: seq<CsvRow>, useTitles: bool) returns (out: seq<Byte>, error: Option<Error>)
    requires AllValid(codecs)
    ensures Import(out, error) == ImportFrom(codecs, rows, useTitles)
  {
    out := [];
    var i := 0;
    assert rows[i..] == rows;
    assert Written([], ImportFrom(codecs, rows, useTitles)) == ImportFrom(codecs, rows, useTitles);
    while i < |rows|
      invariant i <= |rows|
      invariant ImportFrom(codecs, rows, useTitles) == Written(out, ImportFrom(codecs, rows[i..], useTitles))
    {
      ghost var rest := rows[i..];
      assert rest[0] == rows[i] && rest[1..] == rows[i + 1..];
      var frame := ImportRow(codecs, rows[i], useTitles);
      if frame.Err? {
        return out, Some(frame.error);
      }
      WrittenTwice(out, frame.value, ImportFrom(codecs, rows[i + 1..], useTitles));
      out := out + frame.value;
      i := i + 1;
    }
    assert rows[i..] == [];
    assert out + [] == out;
    error := None;
  }

  /** Bytes already written in front of what the remaining rows give. */
  function Written(out: seq<Byte>, rest: Import): Import {
    Import(out + rest.out, rest.error)
  }

  lemma WrittenTwice(a: seq<Byte>, b: seq<Byte>, rest: Import)
    ensures Written(a, Written(b, rest)) == Written(a + b, rest)
  {
    assert a + (b + rest.out) == a + b + rest.out;
  }
}
