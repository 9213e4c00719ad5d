# tdcli record codec, in Dafny

This project models the FastExport binary record codec of `dwhwrapper/tdcli.py`. The
converter moves data between Teradata FastExport files and csv files. It is written for
Python 2, where a `str` is a string of octets.

The model covers these parts:

- **Column codecs** (`td_type` and its subclasses). They cover INTEGER, SMALLINT, BYTEINT,
  DATE, CHAR, VARCHAR, DECIMAL, and the width of FLOAT. Each codec turns one csv text into
  the items the row builder stores, and reads one value back from a row. Multi-byte integers
  are little-endian, which is what `struct`'s native order gives on the x86 Linux target.
- **Null indicator** (`indic_data`). One bit per column, most significant bit first, in
  `ceil(n/8)` bytes.
- **Row builder** (`row_pack_handler`). A class with the fields `row_len`, `format`, `data`
  and `nulls`, the guard of `pack`, and `pack_row`. `pack_row` puts the indicator in front,
  adds the u16 length and appends the newline terminator.
- **Row reader** (`row_unpack_handler`). A class holding the null flags and the start
  offset. `unpack_row` walks the columns and fails once the offset passes the row length.
- **Column descriptors** (`PrepInfoColumn`) and the column walk of `get_ddf` over a
  PrepInfo parcel.
- **The two drivers** `fexp_to_csv` and `csv_to_fexp`, over in-memory values:
  - a FastExport file is a byte sequence, split into frames;
  - a csv row is a map from header to optional text.

Every operation returns a `Result`: `Ok` with its value, or `Err` with the exception the
source raises (module `Errors`).

The main theorems are these:

- every codec reads back the text it was given, for text in the form its decoder writes
  (`CodecLaws.CodecRoundTrip`);
- the indicator reads back the flags it was built from (`Indicator.IndicatorRoundTrip`);
- a csv row packed by `csv_to_fexp` comes back as the same row from `fexp_to_csv`, and so
  does a whole file (`FrameRoundTrip.RowTrip`, `FrameRoundTrip.StreamTrip`);
- a PrepInfo parcel built from column descriptors parses back to those descriptors
  (`PrepInfo.ParcelRoundTrip`).

Where the code and its documented intent differ, the model follows the code:

- **Two-digit years are taken literally.** The year is a regular-expression group, so it is
  a `str`. Under Python 2, `yr < 100` is then always false, so the "this century" correction
  never runs. `99-01-01` is stored as year 99 and read back as `0099-01-01`
  (`CodecLaws.TwoDigitYearPacked`, `CodecLaws.TwoDigitYearUnpacked`).
- **Null columns still advance the offset.** When reading a row, a null column moves the
  offset forward by its full width, because the value is decoded and then dropped.
- **Over-long CHAR text is an error.** The message for it names an undefined variable `d`,
  so the raise itself fails. Either way it is an error, modelled as `CharTooLong`.

## Model

| member | source | states |
|---|---|---|
| Bytes.DecodeEncodeLE | dwhwrapper/tdcli.py:704-714 | an unsigned value below 256^w written little-endian in w bytes reads back as itself |
| Bytes.EncodeDecodeLE | dwhwrapper/tdcli.py:380-382 | reading w bytes as an unsigned number and writing it back gives the same bytes |
| Bytes.DecodeEncodeSigned | dwhwrapper/tdcli.py:380-382 | a value in the signed range of w bytes, written in two's complement, reads back as itself |
| Bytes.Slice | dwhwrapper/tdcli.py:282-288 | Python slice clamping: the exact slice when in range, the tail when the end is past the string, empty when the start is past it |
| Bytes.FromToBytes | dwhwrapper/tdcli.py:473-482 | turning text into octets and back gives the same text |
| NumText.NatToText | dwhwrapper/tdcli.py:582-597 | `str()` of a natural is a non-empty digit string without a superfluous leading zero whose value is that natural |
| NumText.NatToTextOfDigits | dwhwrapper/tdcli.py:582-597 | `str(int(s))` is `s` for a digit string without a superfluous leading zero |
| NumText.ZFillOfDigits | dwhwrapper/tdcli.py:595 | zero-filling `str(int(d))` back to the width of `d` gives `d` |
| NumText.ZeroPadDigits | dwhwrapper/tdcli.py:456 | `'{0:0w}'` applied to `int(d)`, with w the length of `d`, gives `d` |
| NumText.ParseSigned | dwhwrapper/tdcli.py:571 | `int()` of an optional minus sign followed by digits is the signed value of those digits |
| NumText.ParseInt | dwhwrapper/tdcli.py:406 | `int()` fails only with the ValueError of a malformed integer; `ParseIntComplete` and `ParseIntSound` give exactly when it succeeds and with what value |
| NumText.ParseIntComplete | dwhwrapper/tdcli.py:406 | `int()` accepts every text made of whitespace, an optional `+` or `-`, whitespace only after a sign, one or more digits and whitespace, and gives the digits' value under the sign |
| NumText.ParseIntSound | dwhwrapper/tdcli.py:406 | every text `int()` accepts has that shape, and its value is the digits' value under the sign |
| NumText.StripLeft | dwhwrapper/tdcli.py:556-560 | removes exactly the leading whitespace: what is removed is whitespace and what is left does not start with it |
| NumText.StripRight | dwhwrapper/tdcli.py:556-560 | removes exactly the trailing whitespace: what is removed is whitespace and what is left does not end with it |
| NumText.StripTrimmed | dwhwrapper/tdcli.py:556-560 | `strip()` leaves a text with no surrounding whitespace unchanged |
| NumText.Remove | dwhwrapper/tdcli.py:564 | `translate(None, '-+')` leaves no character of the removed set, and every other character occurs as often as in the input |
| NumText.RemoveAppend | dwhwrapper/tdcli.py:564 | `translate` of a concatenation is the concatenation of the results, so characters outside the set are kept in their order |
| NumText.RemoveOne | dwhwrapper/tdcli.py:564 | a single character is kept exactly when it is not in the removed set |
| NumText.IndexOf | dwhwrapper/tdcli.py:550 | the first position of a separator: it holds the separator and nothing before it does |
| TdTypes.DecimalFormat | dwhwrapper/tdcli.py:514-536 | a DECIMAL width exists exactly when precision <= 18; it is 1, 2, 4 or 8 bytes for precision up to 2, 4, 9 or 18, in a signed format |
| TdTypes.MakeCodec | dwhwrapper/tdcli.py:376-512 | construction succeeds exactly when a FLOAT has `Len` 8, a CHAR has a plain length and a DECIMAL has a (precision, scale) with precision at most 18; FLOAT with another `Len` fails its assertion and DECIMAL above 18 raises; a codec keeps its definition |
| TdTypes.CodecWidths | dwhwrapper/tdcli.py:384-512 | formats and widths per kind: INTEGER and DATE 4 bytes, SMALLINT 2, BYTEINT 1, all signed; FLOAT a double; VARCHAR a u16 length; CHAR `Len` octets; DECIMAL precision at most 18 |
| TdTypes.HasDigit | dwhwrapper/tdcli.py:544-548 | true exactly when some character of the text is a decimal digit |
| TdTypes.DigitRun | dwhwrapper/tdcli.py:430 | the longest run of digits at the front of the text |
| TdTypes.MatchDate | dwhwrapper/tdcli.py:430 | a match yields a year of 2 to 4 digits and a month and a day of 1 to 2 digits; `MatchDateSound` and `MatchDateComplete` tie a match to the shape of the text |
| TdTypes.CharItems | dwhwrapper/tdcli.py:473-474 | one single-octet item per character of the text |
| TdTypes.Pack | dwhwrapper/tdcli.py:395-573 | the `pack` of each kind: the add calls it makes, or the exception it raises before any call; no contract of its own: `PackItems`, `PackOne`, `PackErrors` and `CodecRoundTrip` state its widths, its errors and its inverse |
| TdTypes.DatePack | dwhwrapper/tdcli.py:427-444 | `type_date.pack` with the year taken as written; no contract of its own: `DatePackMatched` and `DatePackOf` state the item it adds |
| TdTypes.DateItems | dwhwrapper/tdcli.py:431-444 | no match is the malformed-date error, a month above 12 the month error; no contract of its own: `DateItemsOf` states the stored integer |
| TdTypes.DecimalParts | dwhwrapper/tdcli.py:544-560 | the stripped integer and fraction parts, or the malformed error for more than one point or no digit; no contract of its own: `DecimalPartsPoint` and `DecimalPartsWhole` state the parts of canonical text |
| TdTypes.PadDigits | dwhwrapper/tdcli.py:562-571 | the overflow check on both paddings, then integer part, fraction and zeros; no contract of its own: `PadDigitsExact` and `PadDigitsWhole` state the digits of canonical text |
| TdTypes.DecimalDigits | dwhwrapper/tdcli.py:540-571 | the text handed to `int()`; no contract of its own: `DecimalDigitsPoint` and `DecimalDigitsWhole` state it for canonical text |
| TdTypes.DecimalPack | dwhwrapper/tdcli.py:538-573 | `type_decimal.pack`; no contract of its own: `DecimalPackShape` and `DecimalPackErrors` state its item and its errors |
| TdTypes.DateText | dwhwrapper/tdcli.py:446-456 | the floor-division decoding of a stored date; no contract of its own: `DateTextFields` and `DateIntegerText` state the text it gives |
| TdTypes.DecimalText | dwhwrapper/tdcli.py:576-597 | the text of a stored DECIMAL integer; no contract of its own: `DecimalTextPoint` and `DecimalTextWhole` state its shape |
| TdTypes.Shown | dwhwrapper/tdcli.py:797 | the csv spelling of a decoded value, `str()` of an integer; no contract of its own: `IntToTextIsIntText` and `ShowRow` state it |
| TdTypes.EncodeItem | dwhwrapper/tdcli.py:713-714 | a packed item occupies exactly its format's width; packing fails only with struct.error or on a double |
| TdTypes.EncodeItems | dwhwrapper/tdcli.py:713-714 | a packed item list has one datum per format and exactly the sum of the format widths |
| TdTypes.EncodeItemsAppend | dwhwrapper/tdcli.py:713-714 | packing two item lists one after the other succeeds exactly when both succeed, and gives their bytes in order |
| TdTypes.ItemBytesAppend | dwhwrapper/tdcli.py:713-714 | the bytes of concatenated item lists are the concatenated bytes, and they exist exactly when both exist |
| TdTypes.ItemWidthsAreBytes | dwhwrapper/tdcli.py:655-665 | the widths credited to `row_len` add up to the number of bytes the items pack to |
| TdTypes.PackItems | dwhwrapper/tdcli.py:395-573 | the items a codec adds credit their own widths, which total the column width, plus the text length for VARCHAR |
| TdTypes.VarcharItems | dwhwrapper/tdcli.py:465-474 | VARCHAR adds a 2-byte length item, then one octet item per character, crediting 2 + length |
| TdTypes.PackOne | dwhwrapper/tdcli.py:395-573 | every kind except VARCHAR adds exactly one item, in the codec's format and width |
| TdTypes.PackErrors | dwhwrapper/tdcli.py:395-573 | the only errors a codec raises while packing are type mismatch, too-long VARCHAR or CHAR, malformed or overflowing DECIMAL, bad integer text, malformed date, month above 12, and a double value |
| TdTypes.DecimalPackErrors | dwhwrapper/tdcli.py:538-573 | DECIMAL packing fails only as malformed, as overflow, or in `int()` |
| TdTypes.ReadSigned | dwhwrapper/tdcli.py:380-382 | `unpack_from` of a signed integer succeeds exactly when its bytes are inside the row, and gives their two's-complement value |
| TdTypes.ReadU16 | dwhwrapper/tdcli.py:476-478 | the VARCHAR length is read when two bytes are present, and is below 65536 |
| TdTypes.StripNul | dwhwrapper/tdcli.py:503 | `rstrip('\0')` removes exactly the trailing NULs: what is removed is NUL and what is left does not end with one |
| TdTypes.Unpack | dwhwrapper/tdcli.py:380-597 | decoding consumes exactly the column width for every kind except VARCHAR |
| CodecLaws.IntTextParses | dwhwrapper/tdcli.py:398-406 | `int()` reads `str(i)` back as `i` |
| CodecLaws.IntToTextIsIntText | dwhwrapper/tdcli.py:398-406 | `str(i)` is always in the form `int()` reads back as `i` |
| CodecLaws.StripNulPadded | dwhwrapper/tdcli.py:494-504 | stripping NULs from a NUL-padded text that does not end in NUL gives that text |
| CodecLaws.IntegerRoundTrip | dwhwrapper/tdcli.py:398-422 | INTEGER, SMALLINT and BYTEINT: an integer text within the signed range of the width packs, and reads back unchanged from its bytes wherever they sit in a row |
| CodecLaws.CharRoundTrip | dwhwrapper/tdcli.py:486-504 | CHAR: a text of at most `Len` octets not ending in NUL packs to `Len` NUL-padded bytes and reads back unchanged |
| CodecLaws.VarcharRoundTrip | dwhwrapper/tdcli.py:458-484 | VARCHAR: a text of at most `Len` octets packs to its u16 length and its octets, and reads back unchanged, consuming 2 + length |
| CodecLaws.MatchCanonicalDate | dwhwrapper/tdcli.py:430 | a `YYYY-MM-DD` text matches the date pattern with exactly its year, month and day groups |
| CodecLaws.MatchDateSound | dwhwrapper/tdcli.py:430 | a text the date pattern matches is whitespace, the year group, `-` or `/`, the month group, `-` or `/`, the day group and whitespace |
| CodecLaws.MatchDateComplete | dwhwrapper/tdcli.py:430 | every text of that shape, with groups of the allowed lengths, matches with exactly those groups |
| CodecLaws.DateIntegerText | dwhwrapper/tdcli.py:442-456 | the stored integer `(y-1900)*10000+m*100+d` fits 4 bytes and decodes to the zero-padded groups |
| CodecLaws.DateTextFields | dwhwrapper/tdcli.py:450-456 | the decoded text is the year, month and day of the floor divisions, zero-padded to 4, 2 and 2 places |
| CodecLaws.DateUnpackOf | dwhwrapper/tdcli.py:446-456 | DATE decoding reads the 4-byte integer and consumes 4 bytes |
| CodecLaws.DatePackMatched | dwhwrapper/tdcli.py:427-444 | a matched date with month at most 12 is stored as one item holding `(y-1900)*10000+m*100+d` |
| CodecLaws.DateItemsOf | dwhwrapper/tdcli.py:434-444 | groups with month at most 12 give one item holding `(y-1900)*10000+m*100+d` |
| CodecLaws.DatePackOf | dwhwrapper/tdcli.py:427-444 | a DATE codec packs a matched date with month at most 12 to one 4-byte signed item of that integer |
| CodecLaws.DateNormalises | dwhwrapper/tdcli.py:427-456 | any matched date whose month is at most 12 packs to 4 bytes that decode to the zero-padded `YYYY-MM-DD` of its groups; the day is not checked |
| CodecLaws.DateRoundTrip | dwhwrapper/tdcli.py:424-456 | DATE: a `YYYY-MM-DD` text with month at most 12 packs and reads back unchanged |
| CodecLaws.TwoDigitYearPacked | dwhwrapper/tdcli.py:436-444 | `99-01-01` is stored as -18009899: the year is taken literally because the century branch never runs |
| CodecLaws.TwoDigitYearUnpacked | dwhwrapper/tdcli.py:446-456 | the value stored for `99-01-01` decodes as `0099-01-01` |
| CodecLaws.DecimalTextPoint | dwhwrapper/tdcli.py:582-595 | the decoder shows a scaled integer as sign, integer digits, point and exactly `scale` fraction digits |
| CodecLaws.DecimalTextWhole | dwhwrapper/tdcli.py:596-597 | with scale 0 the decoder shows the integer as `str()` does |
| CodecLaws.RemoveSign | dwhwrapper/tdcli.py:564 | removing `-` and `+` from a signed digit string leaves the digits |
| CodecLaws.DecimalPartsPoint | dwhwrapper/tdcli.py:550-560 | a signed `i.f` text splits into the signed integer part and the fraction |
| CodecLaws.DecimalPartsWhole | dwhwrapper/tdcli.py:550-560 | a signed digit string without a point is the integer part with an empty fraction |
| CodecLaws.PadDigitsExact | dwhwrapper/tdcli.py:562-571 | with scale equal to the fraction length and the digits within precision, no overflow and no padding: sign, integer digits, fraction |
| CodecLaws.PadDigitsWhole | dwhwrapper/tdcli.py:562-571 | with scale 0 and the digits within precision, the signed digits unchanged |
| CodecLaws.DecimalDigitsPoint | dwhwrapper/tdcli.py:540-571 | `int()` is handed the sign, the integer digits and the fraction digits of a canonical `i.f` text |
| CodecLaws.DecimalDigitsWhole | dwhwrapper/tdcli.py:540-571 | `int()` is handed a canonical whole text unchanged |
| CodecLaws.DecimalPackShape | dwhwrapper/tdcli.py:571-573 | when the digits pass the checks and parse, DECIMAL adds one item of the parsed integer |
| CodecLaws.DecimalPackOf | dwhwrapper/tdcli.py:538-573 | DECIMAL packs signed digits to one item of their signed value in the codec's width |
| CodecLaws.DecimalUnpackOf | dwhwrapper/tdcli.py:576-597 | DECIMAL decoding reads the signed integer of the column width and shows it with `scale` fraction digits |
| CodecLaws.DecimalPointRoundTrip | dwhwrapper/tdcli.py:538-597 | canonical text with a fraction of exactly `scale` digits packs and reads back unchanged |
| CodecLaws.DecimalWholeRoundTrip | dwhwrapper/tdcli.py:538-597 | with scale 0, canonical integer text packs and reads back unchanged |
| CodecLaws.DecimalFits | dwhwrapper/tdcli.py:514-536 | a value with at most `precision` digits fits the signed width chosen for that precision |
| CodecLaws.DecimalRoundTrip | dwhwrapper/tdcli.py:506-597 | DECIMAL: canonical text packs to `int(intp + frac + zeros)` and reads back unchanged. Canonical means an optional minus on a non-zero value, no leading zeros, exactly `scale` fraction digits, and at most `precision` digits |
| CodecLaws.CodecRoundTrip | dwhwrapper/tdcli.py:369-597 | every codec: text in its canonical form packs without error, and its bytes read back as the same text, consuming exactly those bytes, wherever they sit in a row |
| Indicator.IndicatorLength | dwhwrapper/tdcli.py:603-609 | the indicator has `ceil(n/8)` bytes: n <= 8r < n + 8 |
| Indicator.IndicatorBytes | dwhwrapper/tdcli.py:611-628 | the bitmap of the flags in the given number of bytes; `FlagOfIndicator` and `PackIndicator` state its bits |
| Indicator.Flags | dwhwrapper/tdcli.py:630-646 | flags are read exactly when the data holds the indicator's bytes, and there is one flag per column |
| Indicator.PackIndicator | dwhwrapper/tdcli.py:611-628 | the bytes built by the nested loops equal the bitmap: column i sits in bit 7 - i%8 of byte i/8, and unused bits are 0 |
| Indicator.UnpackIndicator | dwhwrapper/tdcli.py:630-646 | the loop's flags are bit 7 - col%8 of byte col/8, or IndexError when the data is too short |
| Indicator.FlagOfIndicator | dwhwrapper/tdcli.py:611-646 | reading bit i of a built indicator gives flag i, or false past the last flag |
| Indicator.PartialByteComplete | dwhwrapper/tdcli.py:621-624 | stopping the inner loop at the last flag gives the same byte as eight steps over zero flags |
| Indicator.IndicatorRoundTrip | dwhwrapper/tdcli.py:603-646 | unpacking the indicator packed from n flags gives back the n flags |
| Indicator.FlagsPrefix | dwhwrapper/tdcli.py:630-646 | the flags depend only on the indicator bytes, not on the row data after them |
| RowPack.Insert | dwhwrapper/tdcli.py:667-673 | `list.insert`: the element goes at the index, or at the end when the index is past it |
| RowPack.RowPackHandler.constructor | dwhwrapper/tdcli.py:651-653 | a new builder has `row_len` 0 and empty `format`, `data` and `nulls` |
| RowPack.RowPackHandler.AddData | dwhwrapper/tdcli.py:655-659 | appends the codec's format and the datum, and raises `row_len` by the codec width; nothing else changes |
| RowPack.RowPackHandler.AddCustomData | dwhwrapper/tdcli.py:661-665 | appends the given format and datum, and raises `row_len` by the given width; nothing else changes |
| RowPack.RowPackHandler.InsertByte | dwhwrapper/tdcli.py:667-673 | inserts one `B` item at the offset, and raises `row_len` by one; nothing else changes |
| RowPack.RowPackHandler.DefineNull | dwhwrapper/tdcli.py:675-676 | appends one null flag; nothing else changes |
| RowPack.RowPackHandler.Pack | dwhwrapper/tdcli.py:678-688 | either applies the codec's additions and passes, or fails with the guard's or the codec's error and leaves the state unchanged |
| RowPack.RowPackHandler.AddAll | dwhwrapper/tdcli.py:655-665 | the loop adds the items in order |
| RowPack.RowPackHandler.PackRow | dwhwrapper/tdcli.py:691-714 | the builder state and the result of `pack_row`, as specified by `PackRowSpec` |
| RowPack.AddedConsistent | dwhwrapper/tdcli.py:655-665 | adding an item whose width is its format's width keeps `row_len` equal to the width of `format` |
| RowPack.NullDefinedConsistent | dwhwrapper/tdcli.py:675-676 | `define_null` keeps the builder consistent and appends exactly its flag |
| RowPack.PackConsistent | dwhwrapper/tdcli.py:678-688 | a successful `pack` keeps the builder consistent and the null flags unchanged |
| RowPack.PackGuard | dwhwrapper/tdcli.py:680-686 | `pack` raises OverflowError exactly when row_len + l + width + len(nulls) > 65534, with l the text length for CHAR and VARCHAR and 10 otherwise; after a success the new row_len plus the flags stays within 65534 |
| RowPack.PackSpec | dwhwrapper/tdcli.py:678-688 | the guard, then the codec's items; no contract of its own: `PackGuard`, `PackConsistent` and the `Pack` method state it |
| RowPack.PackRowSpec | dwhwrapper/tdcli.py:691-714 | the state and the bytes `pack_row` leaves; no contract of its own: `FrameLayout` and `PackRowAsserts` state the frame and the assertions |
| RowPack.ByteItems | dwhwrapper/tdcli.py:699-700 | the indicator bytes inserted as `B` items pack to themselves |
| RowPack.FrameLayout | dwhwrapper/tdcli.py:691-714 | a row packs to the u16 of (indicator + field bytes), then the indicator, the field bytes in the order added, and a newline |
| RowPack.PackRowAsserts | dwhwrapper/tdcli.py:697-702 | `pack_row` fails its assertion exactly when row_len + the indicator length reaches 65535 |
| RowUnpack.UnpackFrom | dwhwrapper/tdcli.py:729-744 | a successful row read has one entry per codec |
| RowUnpack.RowUnpackHandler.constructor | dwhwrapper/tdcli.py:718-722 | the reader keeps the column count, the flags and the start offset it is given |
| RowUnpack.NewRowUnpackHandler | dwhwrapper/tdcli.py:718-722 | a reader exists exactly when the row holds the indicator; its flags are the indicator's and its offset is just past it; otherwise IndexError |
| RowUnpack.RowUnpackHandler.UnpackRow | dwhwrapper/tdcli.py:724-744 | the loop's result and remaining flags are those of `UnpackFrom`: each column is decoded at the offset, the offset advances by the bytes consumed even for a null column, a flagged column gives None, and the row fails once the offset passes the row length |
| RowUnpack.UnpackStep | dwhwrapper/tdcli.py:729-742 | one loop step: a decode error stops the row; an offset past the row length gives "End of row overflow"; otherwise the value, or None when flagged, is appended and decoding continues after it |
| RowUnpack.DecodeRow | dwhwrapper/tdcli.py:718-744 | the indicator flags, then every column from just past the indicator; no contract of its own: `DecodeColumns` and `RowTrip` state what it reads back |
| PrepInfo.LookupTable | dwhwrapper/tdcli.py:224-259 | the type table: known exactly for the listed codes, all below 65536; an odd code allows nulls; each even code is paired with the next odd code under the same name |
| PrepInfo.Lookup | dwhwrapper/tdcli.py:224-259 | the type table as a function of the code; no contract of its own: `LookupTable` states it |
| PrepInfo.KindOf | dwhwrapper/tdcli.py:274-275 | a type name has a codec exactly when it is one of the supported types |
| PrepInfo.LookupDecimal | dwhwrapper/tdcli.py:277-279 | the DECIMAL kind is chosen exactly for codes 484 and 485 |
| PrepInfo.ReadType | dwhwrapper/tdcli.py:263-279 | an unknown code gives TypeError, a known but unsupported one ValueError; on success the code and its table entry |
| PrepInfo.ReadNames | dwhwrapper/tdcli.py:281-290 | reads three strings; `pic_length` covers at least the 10 fixed bytes and the three strings; a short parcel gives struct.error |
| PrepInfo.ParseColumn | dwhwrapper/tdcli.py:261-292 | fewer than 4 bytes give struct.error; a parsed column covers its 10 fixed bytes and its strings |
| PrepInfo.ColumnErrors | dwhwrapper/tdcli.py:263-275 | the type checks come first: unknown code gives TypeError, unsupported type ValueError, both decided by the first 4 bytes alone, before any name bytes are read |
| PrepInfo.ColumnNulls | dwhwrapper/tdcli.py:265-269 | a column allows nulls exactly when its type code is odd |
| PrepInfo.ColumnLength | dwhwrapper/tdcli.py:263-279 | the length of a DECIMAL is (byte 3, byte 2) as (precision, scale); otherwise it is the u16 at bytes 2-3 |
| PrepInfo.StringLayout | dwhwrapper/tdcli.py:281-288 | a string read at an offset is the clamped slice after its u16 length, and is complete exactly when the parcel holds all of it |
| PrepInfo.ReadString | dwhwrapper/tdcli.py:281-288 | a u16-prefixed string: struct.error when the length is past the data, otherwise at most that many bytes |
| PrepInfo.NamesLayout | dwhwrapper/tdcli.py:281-290 | name, format and title are consecutive u16-prefixed strings from offset 4; `pic_length` is 10 + their lengths exactly when it fits the data |
| PrepInfo.ParseEncoded | dwhwrapper/tdcli.py:261-292 | a well-formed descriptor, followed by anything, parses back to its column, and its `pic_length` is its encoded length |
| PrepInfo.Walk | dwhwrapper/tdcli.py:344-347 | a successful walk yields exactly `column_count` columns |
| PrepInfo.ParseParcel | dwhwrapper/tdcli.py:327-347 | an empty parcel is an error; a parcel shorter than the 12-byte header gives struct.error; zero columns is an error; otherwise the cost estimate's 8 bytes, the summary count, and `column_count` columns |
| PrepInfo.FieldOf | dwhwrapper/tdcli.py:349-356 | the ddf entry carries the column's name, format, title, type, length and nullability |
| PrepInfo.FieldsOf | dwhwrapper/tdcli.py:349-361 | one ddf entry per column, in order |
| PrepInfo.GetDdf | dwhwrapper/tdcli.py:327-361 | the loop's result is the parsed parcel, and its ddf lists are its columns' entries |
| PrepInfo.ReadColumns | dwhwrapper/tdcli.py:341-361 | the loop reads the columns `Walk` specifies, moving the offset by each `pic_length`, and builds their ddf entries |
| PrepInfo.ParcelRoundTrip | dwhwrapper/tdcli.py:330-361 | a parcel built from an 8-byte cost, a summary count and one or more well-formed descriptors parses back to exactly those |
| Converter.Labels | dwhwrapper/tdcli.py:756-766 | the header row holds each column's title or name, as chosen |
| Converter.ExportCodecs | dwhwrapper/tdcli.py:764-774 | a codec for every definition, in order and valid, exactly when each definition has one |
| Converter.ExportColumns | dwhwrapper/tdcli.py:761-774 | the loop builds the header labels and the codecs of `ExportCodecs` |
| Converter.ShowRow | dwhwrapper/tdcli.py:797 | the row is written exactly when every value can be spelled, and then field i is value i as the csv writer spells it |
| Converter.ShowItem | dwhwrapper/tdcli.py:797 | None is written as an empty field, any other value as it is spelled; stated through `ShowRow` |
| Converter.FrameFields | dwhwrapper/tdcli.py:790-797 | the decoded row of one frame, spelled for the csv writer; no contract of its own: `ExportOne` states it |
| Converter.SplitFrames | dwhwrapper/tdcli.py:783-798 | the frames the read loop meets; no contract of its own: `NextFrame` and `ExportFromStep` state how it advances |
| Converter.ExportFrom | dwhwrapper/tdcli.py:783-798 | the rows of those frames up to the first error; no contract of its own: `ExportFromStep`, `ExportStream` and `StreamTrip` state it |
| Converter.NextFrame | dwhwrapper/tdcli.py:785-798 | each frame moves the read position strictly forward |
| Converter.ExportFromStep | dwhwrapper/tdcli.py:783-798 | the stream ends when fewer than two bytes remain; otherwise one frame is decoded and reading goes on after its length, data and terminator |
| Converter.ExportOne | dwhwrapper/tdcli.py:793-795 | a frame's fields are the reader's decoded values shown as csv text |
| Converter.ExportFrameAt | dwhwrapper/tdcli.py:785-795 | the frame at a position is decoded from its u16 length and the row data after it |
| Converter.ExportStream | dwhwrapper/tdcli.py:783-798 | the loop emits the rows and stops at the first error, as `ExportFrom` specifies |
| Converter.ExportNext | dwhwrapper/tdcli.py:783-798 | one loop step: an error stops the export with the rows so far, otherwise the row is appended |
| Importer.MatchingCodecs | dwhwrapper/tdcli.py:834-843 | every codec built for a header is valid and carries that header as its label |
| Importer.ImportCodecs | dwhwrapper/tdcli.py:826-843 | every codec built is valid and labelled by one of the csv headers |
| Importer.ImportColumns | dwhwrapper/tdcli.py:826-843 | the loop over headers builds the codecs of `ImportCodecs` |
| Importer.Matching | dwhwrapper/tdcli.py:834-843 | the loop over definitions builds the codecs of `MatchingCodecs` |
| Importer.MatchingNone | dwhwrapper/tdcli.py:834-835 | a header no definition carries matches nothing |
| Importer.MatchingUnique | dwhwrapper/tdcli.py:834-843 | with distinct labels, a header matches exactly the one definition carrying it |
| Importer.ImportCodecsErrors | dwhwrapper/tdcli.py:829-832 | the codecs are built exactly when every csv header is some definition's label; otherwise the error is the undefined header |
| Importer.ImportCodecsUnique | dwhwrapper/tdcli.py:826-843 | with distinct labels and all headers defined, one codec per header in header order, each from the definition carrying that label |
| Importer.ImportRow | dwhwrapper/tdcli.py:850-882 | the loop packs the row as `ImportRowSpec` specifies |
| Importer.NullPolicy | dwhwrapper/tdcli.py:862-880 | ValueError exactly for an empty value in a non-character column that does not allow nulls. On success one flag is appended, set exactly for an empty non-character value, and the builder stays consistent |
| Importer.ImportFieldsErrors | dwhwrapper/tdcli.py:858-880 | packing the fields never reports the row-count errors |
| Importer.ImportRowCounts | dwhwrapper/tdcli.py:850-854 | "missing columns" exactly when the row has fewer fields than codecs, "too many columns" exactly when it has more |
| Importer.ImportField | dwhwrapper/tdcli.py:858-880 | one column of the row loop; no contract of its own: `NullPolicy` and `ImportColumn` state its null policy and its bytes |
| Importer.ImportFields | dwhwrapper/tdcli.py:858-881 | every column in codec order, read by its label; no contract of its own: `ImportFieldsErrors` and `StoreColumns` state it |
| Importer.ImportRowSpec | dwhwrapper/tdcli.py:850-882 | the field-count checks, the columns, then `pack_row`; no contract of its own: `ImportRowCounts` and `ImportedFrame` state it |
| Importer.ImportFrom | dwhwrapper/tdcli.py:848-882 | the frames of all rows in order until the first error; no contract of its own: `ImportStream` and `StreamTrip` state it |
| Importer.ImportStream | dwhwrapper/tdcli.py:846-882 | the loop writes each row's frame in order and stops at the first error, as `ImportFrom` specifies |
| RowRoundTrip.ImportColumn | dwhwrapper/tdcli.py:858-880 | storing an acceptable value packs it, records one flag (set exactly for a null), and adds the column's bytes, no more than its cost |
| RowRoundTrip.ExportColumn | dwhwrapper/tdcli.py:729-739 | the bytes stored for an acceptable value decode, consuming exactly them, to a value shown as the original text; a null shows as empty |
| RowRoundTrip.StoreColumns | dwhwrapper/tdcli.py:858-880 | storing all the values of an acceptable row appends their null flags and their bytes in column order |
| RowRoundTrip.DecodeColumns | dwhwrapper/tdcli.py:724-744 | columns laid out one after another decode back to the row's texts |
| FrameRoundTrip.ImportedFrame | dwhwrapper/tdcli.py:856-882 | an acceptable row packs to the frame `u16 n + data + newline`, whose data decode back to the row's texts |
| FrameRoundTrip.PackedFrame | dwhwrapper/tdcli.py:691-714 | the frame data of an acceptable row are its indicator, which holds its null flags, followed by its column bytes |
| FrameRoundTrip.ExportedFrame | dwhwrapper/tdcli.py:783-798 | a frame at the head of a stream yields its row, then the export of the rest |
| FrameRoundTrip.RowTrip | dwhwrapper/tdcli.py:783-882 | a csv row of acceptable values packs to a frame whose length prefix counts all but 3 bytes, and the exporter reads it back as exactly that row |
| FrameRoundTrip.StreamTrip | dwhwrapper/tdcli.py:783-882 | a csv file of acceptable rows imports without error, and exporting the result gives back every row in order with no error |

## Left out

- The warehouse connection (`dbc_connection`, `cli_failure`), logon, logout and the
  fetching of the PrepInfo parcel are calls into a native library. The fetched parcel is a
  parameter, and its `plen` is its length.
- The cost estimate is a double. It is kept as its 8 raw bytes, and the summary count is
  read but not used.
- FLOAT values: converting text to an IEEE double is floating-point. The model keeps the
  `Len == 8` check and the 8-byte width. Packing a non-empty FLOAT value gives
  `FloatNotModelled`, and decoding gives the 8 raw bytes.
- File and csv I/O (`open`, `read`, `write`, csv quoting, `DictReader`) is left out. A
  FastExport file is a byte sequence, a csv row is a map with a field count, and the output
  of each driver is a value.
- The command line, the verbose printing and `main` are left out.
- The `globals()['type_...']` lookup is replaced by a closed kind type. A definition
  without a handler is refused when its PrepInfo descriptor is read.
- NumText.ParseInt: models base-10 `int()` on octet text; suffixes such as the long-literal
  `L` are not modelled.
- TdTypes.MakeCodec: a CHAR definition whose `Len` is not a plain length is refused at construction
  (`TypeMismatch`). The source builds a struct format from it and fails only later, inside
  `struct`. No column descriptor produces such a definition.
- CodecLaws.IntegerRoundTrip: requires the value to be in range for the width, because the
  source does no bounds check and leaves it to `struct.error` (modelled as `StructError`
  when the row is packed).
- CodecLaws.CodecRoundTrip: says nothing about FLOAT, whose values are not modelled.
