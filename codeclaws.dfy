/** What the column codecs guarantee: a value written in the form the decoder produces
    is packed without error and read back unchanged from the bytes it packs to. */
module CodecLaws {
  import opened Bytes
  import opened Errors
  import opened NumText
  import opened TdTypes

  // ---------------------------------------------------------------------------
  // Canonical text forms

  /** `str(i)` of some integer: digits without a superfluous leading zero, and a
      minus sign only in front of a non-zero value. */
  predicate IntText(t: Text) {
    if t != [] && t[0] == '-' then |t| >= 2 && AllDigits(t[1..]) && NoLeadingZero(t[1..]) && t[1..] != "0"
    else t != [] && AllDigits(t) && NoLeadingZero(t)
  }

  function IntTextValue(t: Text): int
    requires IntText(t)
  {
    var v: int := if t[0] == '-' then DigitsValue(t[1..]) else DigitsValue(t);
    if t[0] == '-' then -v else v
  }

  /** The ISO text `type_date.unpack` produces: four year digits, two month digits, two
      day digits; months above 12 are refused by the encoder. */
  predicate CanonicalDate(t: Text) {
    |t| == 10 && AllDigits(t[..4]) && t[4] == '-' && AllDigits(t[5..7]) && t[7] == '-'
    && AllDigits(t[8..]) && DigitsValue(t[5..7]) <= 12
  }

  /** The text `type_decimal.unpack` produces for DECIMAL(precision, scale): an optional
      minus sign on a non-zero value, the integer digits without leading zero (none at all
      for a value below one), and, when the scale is positive, a point and exactly
      `scale` fraction digits. */
  predicate CanonicalDecimal(t: Text, precision: nat, scale: nat) {
    var neg := t != [] && t[0] == '-';
    var u := if neg then t[1..] else t;
    if scale == 0 then
      u != [] && AllDigits(u) && NoLeadingZero(u) && |u| <= precision && (neg ==> u != "0")
    else
      |u| > scale && u[|u| - scale - 1] == '.'
      && var i := u[..|u| - scale - 1];
         var f := u[|u| - scale..];
         AllDigits(i) && AllDigits(f) && (i == [] || i[0] != '0') && |i| + scale <= precision
         && (neg ==> DigitsValue(i + f) != 0)
  }

  /** A text the decoder of the codec could have produced and the encoder accepts. */
  predicate CanonicalText(c: Codec, t: Text)
    requires c.Valid()
  {
    if IsIntegerKind(c.fd.kind) then IntText(t) && InSigned(IntTextValue(t), c.width)
    else match c.fd.kind
    case Char => |t| <= c.fd.len.n && (t == [] || t[|t| - 1] != '\0')
    case Varchar => !ExceedsVarcharLength(|t|, c.fd.len) && |t| < 65536
    case Date => CanonicalDate(t)
    case Decimal => CanonicalDecimal(t, c.fd.len.precision, c.fd.len.scale)
    case Float => false
  }

  // ---------------------------------------------------------------------------
  // Integers

  /** `int()` reads `str(i)` back as `i`, and `str()` gives the same text again. */
  lemma IntTextParses(t: Text)
    requires IntText(t)
    ensures ParseInt(t) == Ok(IntTextValue(t))
    ensures IntToText(IntTextValue(t)) == t
  {
    var neg := t != [] && t[0] == '-';
    var d := if neg then t[1..] else t;
    SignThen(t, neg, d);
    ParseSigned(neg, d);
    SignedDigitsText(neg, d);
  }

  /** `str()` of signed digits without a superfluous zero gives them back. */
  lemma SignedDigitsText(neg: bool, d: Text)
    requires AllDigits(d) && d != [] && NoLeadingZero(d) && (neg ==> d != "0")
    ensures IntToText(SignedDigits(neg, d)) == Sign(neg) + d
  {
    NatToTextOfDigits(d);
    if neg {
      if |d| == 1 {
        assert d == [d[0]];
      }
      NonZeroLeadPositive(d);
    }
  }

  /** Every integer's `str()` is an integer text of that value. */
  lemma IntToTextIsIntText(i: int)
    ensures IntText(IntToText(i)) && IntTextValue(IntToText(i)) == i
  {
    var t := IntToText(i);
    if i < 0 {
      var d := NatToText(-i);
      assert t[1..] == d;
      assert DigitsValue(d) != DigitsValue("0");
    }
  }

  // ---------------------------------------------------------------------------
  // Byte-level helpers

  function Nuls(k: nat): (r: Text)
    ensures |r| == k
  {
    seq(k, i => '\0')
  }

  lemma {:induction false} ZeroBytes(k: nat)
    ensures forall i :: 0 <= i < k ==> EncodeLE(0, k)[i] == 0
  {
    if k > 0 {
      ZeroBytes(k - 1);
      assert EncodeLE(0, k) == [0] + EncodeLE(0, k - 1);
    }
  }

  lemma {:induction false} StripNulPadded(t: Text, k: nat)
    requires t == [] || t[|t| - 1] != '\0'
    ensures StripNul(t + Nuls(k)) == t
  {
    if k == 0 {
      assert t + Nuls(0) == t;
    } else {
      assert (t + Nuls(k))[..|t| + k - 1] == t + Nuls(k - 1);
      StripNulPadded(t, k - 1);
    }
  }

  lemma {:induction false} CharItemsBytes(t: Text)
    ensures ItemBytes(CharItems(t)) == Ok(ToBytes(t))
    ensures WidthsAgree(CharItems(t))
  {
    if t != [] {
      var head := [Item(Char1, DText([t[0]]), 1)];
      CharItemsBytes(t[1..]);
      ItemBytesAppend(head, CharItems(t[1..]));
      ItemBytesSingle(head[0]);
      assert ToBytes(t) == [Ord(t[0])] + ToBytes(t[1..]);
    } else {
      assert ItemBytes([]) == Ok([]);
    }
  }

  /** A window of a row: `row[off:off+|b|] == b`. */
  predicate At(row: seq<Byte>, off: nat, b: seq<Byte>) {
    off + |b| <= |row| && row[off..off + |b|] == b
  }

  lemma AtSplit(row: seq<Byte>, off: nat, a: seq<Byte>, b: seq<Byte>)
    requires At(row, off, a + b)
    ensures At(row, off, a) && At(row, off + |a|, b)
  {
    assert row[off..off + |a|] == (a + b)[..|a|];
    assert row[off + |a|..off + |a| + |b|] == (a + b)[|a|..];
  }

  /** Where the bytes of a signed value sit in a row, reading them gives the value. */
  lemma SignedWindow(row: seq<Byte>, off: nat, x: int, w: nat)
    requires InSigned(x, w) && At(row, off, EncodeSigned(x, w))
    ensures ReadSigned(row, off, w) == Ok(x)
  {
    DecodeEncodeSigned(x, w);
  }

  lemma AtSlice(row: seq<Byte>, off: nat, b: seq<Byte>)
    requires At(row, off, b)
    ensures Slice(row, off, off + |b|) == b
  {
  }

  // ---------------------------------------------------------------------------
  // Round trips, one kind at a time

  /** The round-trip property of one codec for one text: packing succeeds, every item
      credits its own size, and wherever the packed bytes sit in a row, decoding there
      consumes exactly them and gives a value the csv writer spells as the same text. */
  predicate RoundTrips(c: Codec, t: Text, row: seq<Byte>, off: nat)
    requires c.Valid()
  {
    Pack(c, VText(t)).Ok?
    && var items := Pack(c, VText(t)).value;
       WidthsAgree(items) && ItemBytes(items).Ok?
       && (At(row, off, ItemBytes(items).value) ==>
             var u := Unpack(c, row, off);
             u.Ok? && u.value.1 == |ItemBytes(items).value| && Shown(u.value.0) == Ok(t))
  }

  /** `RoundTrips` from its parts: the items and bytes a text packs to, and what the
      decoder reads where those bytes sit. */
  lemma RoundTripsOf(c: Codec, t: Text, items: seq<Item>, b: seq<Byte>, v: Value, row: seq<Byte>, off: nat)
    requires c.Valid() && Pack(c, VText(t)) == Ok(items) && WidthsAgree(items) && ItemBytes(items) == Ok(b)
    requires At(row, off, b) ==> Unpack(c, row, off) == Ok((v, |b|)) && Shown(v) == Ok(t)
    ensures RoundTrips(c, t, row, off)
  {
  }

  lemma IntegerRoundTrip(c: Codec, t: Text, row: seq<Byte>, off: nat)
    requires c.Valid() && IsIntegerKind(c.fd.kind) && CanonicalText(c, t)
    ensures RoundTrips(c, t, row, off)
  {
    var x, b := IntegerBytes(c, t);
    IntegerUnpackAt(c, t, row, off, x, b);
    RoundTripsOf(c, t, [Item(Signed(c.width), DInt(x), c.width)], b, VInt(x), row, off);
  }

  /** What an integer text packs to: one signed item of the column's width. */
  lemma IntegerBytes(c: Codec, t: Text) returns (x: int, b: seq<Byte>)
    requires c.Valid() && IsIntegerKind(c.fd.kind) && CanonicalText(c, t)
    ensures (c.width == 1 || c.width == 2 || c.width == 4) && InSigned(x, c.width) && b == EncodeSigned(x, c.width) && |b| == c.width
    ensures Pack(c, VText(t)) == Ok([Item(Signed(c.width), DInt(x), c.width)])
    ensures WidthsAgree([Item(Signed(c.width), DInt(x), c.width)])
    ensures ItemBytes([Item(Signed(c.width), DInt(x), c.width)]) == Ok(b)
    ensures Shown(VInt(x)) == Ok(t)
  {
    x := IntegerParts(c, t);
    IntegerPacks(c, t, x);
    b := SignedItemBytes(c.width, x);
  }

  /** The integer a canonical text stands for, in range of the column. */
  lemma IntegerParts(c: Codec, t: Text) returns (x: int)
    requires c.Valid() && IsIntegerKind(c.fd.kind) && CanonicalText(c, t)
    ensures (c.width == 1 || c.width == 2 || c.width == 4) && c.fmt == Signed(c.width)
    ensures InSigned(x, c.width) && ParseInt(t) == Ok(x) && Shown(VInt(x)) == Ok(t)
  {
    CodecWidths(c);
    assert IntText(t) && InSigned(IntTextValue(t), c.width);
    IntTextParses(t);
    x := IntTextValue(t);
  }

  /** The bytes of one signed item of width `w`. */
  lemma SignedItemBytes(w: nat, x: int) returns (b: seq<Byte>)
    requires (w == 1 || w == 2 || w == 4) && InSigned(x, w)
    ensures WidthsAgree([Item(Signed(w), DInt(x), w)]) && ItemBytes([Item(Signed(w), DInt(x), w)]) == Ok(b)
    ensures b == EncodeSigned(x, w) && |b| == w
  {
    b := EncodeSigned(x, w);
    ItemBytesSingle(Item(Signed(w), DInt(x), w));
  }

  lemma IntegerPacks(c: Codec, t: Text, x: int)
    requires c.Valid() && IsIntegerKind(c.fd.kind) && ParseInt(t) == Ok(x)
    ensures Pack(c, VText(t)) == Ok([Item(c.fmt, DInt(x), c.width)])
  {
    assert ToInt(VText(t)) == Ok(x);
  }

  /** Where the bytes of an integer sit, the decoder reads that integer back. */
  lemma IntegerUnpackAt(c: Codec, t: Text, row: seq<Byte>, off: nat, x: int, b: seq<Byte>)
    requires c.Valid() && IsIntegerKind(c.fd.kind) && InSigned(x, c.width)
    requires b == EncodeSigned(x, c.width) && |b| == c.width && Shown(VInt(x)) == Ok(t)
    ensures At(row, off, b) ==> Unpack(c, row, off) == Ok((VInt(x), |b|)) && Shown(VInt(x)) == Ok(t)
  {
    if At(row, off, b) {
      SignedWindow(row, off, x, c.width);
      UnpackIntegerIs(c, row, off, x);
    }
  }

  lemma UnpackIntegerIs(c: Codec, row: seq<Byte>, off: nat, x: int)
    requires c.Valid() && IsIntegerKind(c.fd.kind) && ReadSigned(row, off, c.width) == Ok(x)
    ensures Unpack(c, row, off) == Ok((VInt(x), c.width))
  {
  }

  lemma CharRoundTrip(c: Codec, t: Text, row: seq<Byte>, off: nat)
    requires c.Valid() && c.fd.kind == Char && CanonicalText(c, t)
    ensures RoundTrips(c, t, row, off)
  {
    var b := CharBytes(c, t);
    CharUnpackAt(c, row, off, b, t);
    RoundTripsOf(c, t, [Item(Chars(c.width), DText(t), c.width)], b, VText(t), row, off);
  }

  /** The bytes a CHAR text packs to: the text padded with NULs, which the decoder strips. */
  lemma CharBytes(c: Codec, t: Text) returns (b: seq<Byte>)
    requires c.Valid() && c.fd.kind == Char && CanonicalText(c, t)
    ensures var items := [Item(Chars(c.width), DText(t), c.width)];
            Pack(c, VText(t)) == Ok(items) && WidthsAgree(items) && ItemBytes(items) == Ok(b)
    ensures |b| == c.width && StripNul(FromBytes(b)) == t
  {
    CharPacks(c, t);
    b := CharItemBytes(c.width, t);
  }

  lemma CharPacks(c: Codec, t: Text)
    requires c.Valid() && c.fd.kind == Char && CanonicalText(c, t)
    ensures Pack(c, VText(t)) == Ok([Item(Chars(c.width), DText(t), c.width)])
    ensures |t| <= c.width && (t == [] || t[|t| - 1] != '\0')
  {
    CodecWidths(c);
  }

  /** A CHAR(n) item of a text no longer than n. */
  lemma CharItemBytes(n: nat, t: Text) returns (b: seq<Byte>)
    requires |t| <= n && (t == [] || t[|t| - 1] != '\0')
    ensures var items := [Item(Chars(n), DText(t), n)];
            WidthsAgree(items) && ItemBytes(items) == Ok(b)
    ensures |b| == n && StripNul(FromBytes(b)) == t
  {
    b := ToBytes(t) + EncodeLE(0, n - |t|);
    assert Slice(t, 0, n) == t;
    assert EncodeItem(Chars(n), DText(t)) == Ok(b);
    ItemBytesSingle(Item(Chars(n), DText(t), n));
    PaddedText(t, n - |t|);
  }

  /** NUL padding is stripped again by the decoder of CHAR. */
  lemma PaddedText(t: Text, k: nat)
    requires t == [] || t[|t| - 1] != '\0'
    ensures StripNul(FromBytes(ToBytes(t) + EncodeLE(0, k))) == t
  {
    FromBytesPadded(t, k);
    StripNulPadded(t, k);
  }

  lemma CharUnpackAt(c: Codec, row: seq<Byte>, off: nat, b: seq<Byte>, t: Text)
    requires c.Valid() && c.fd.kind == Char && |b| == c.width && StripNul(FromBytes(b)) == t
    ensures At(row, off, b) ==> Unpack(c, row, off) == Ok((VText(t), |b|)) && Shown(VText(t)) == Ok(t)
  {
    if At(row, off, b) {
      AtSlice(row, off, b);
      UnpackCharIs(c, row, off, b, t);
    }
  }

  lemma UnpackCharIs(c: Codec, row: seq<Byte>, off: nat, b: seq<Byte>, t: Text)
    requires c.Valid() && c.fd.kind == Char
    requires Slice(row, off, off + c.width) == b && StripNul(FromBytes(b)) == t
    ensures Unpack(c, row, off) == Ok((VText(t), c.width))
  {
  }

  lemma FromBytesPadded(t: Text, k: nat)
    ensures FromBytes(ToBytes(t) + EncodeLE(0, k)) == t + Nuls(k)
  {
    ZeroBytes(k);
    var b := ToBytes(t) + EncodeLE(0, k);
    var r := FromBytes(b);
    forall i | 0 <= i < |r|
      ensures r[i] == (t + Nuls(k))[i]
    {
      assert Ord(r[i]) == b[i];
      if i < |t| {
        assert b[i] == Ord(t[i]);
      } else {
        assert b[i] == 0;
      }
    }
  }

  lemma VarcharRoundTrip(c: Codec, t: Text, row: seq<Byte>, off: nat)
    requires c.Valid() && c.fd.kind == Varchar && CanonicalText(c, t)
    ensures RoundTrips(c, t, row, off)
  {
    var head := [Item(U16, DInt(|t|), 2)];
    var items := head + CharItems(t);
    assert Pack(c, VText(t)) == Ok(items);
    VarcharBytes(t);
    var b := EncodeLE(|t|, 2) + ToBytes(t);
    VarcharUnpackAt(c, t, row, off, b);
    RoundTripsOf(c, t, items, b, VText(t), row, off);
  }

  /** Where the length and the bytes of a text sit, the decoder reads the text back. */
  lemma VarcharUnpackAt(c: Codec, t: Text, row: seq<Byte>, off: nat, b: seq<Byte>)
    requires c.Valid() && c.fd.kind == Varchar && |t| < 65536 && b == EncodeLE(|t|, 2) + ToBytes(t)
    ensures At(row, off, b) ==> Unpack(c, row, off) == Ok((VText(t), |b|)) && Shown(VText(t)) == Ok(t)
  {
    var tb := ToBytes(t);
    FromToBytes(t);
    assert |b| == 2 + |tb| && Shown(VText(t)) == Ok(t);
    if At(row, off, b) {
      VarcharWindow(tb, row, off);
      VarcharUnpack(c, tb, row, off);
    }
  }

  lemma VarcharBytes(t: Text)
    requires |t| < 65536
    ensures var items := [Item(U16, DInt(|t|), 2)] + CharItems(t);
            WidthsAgree(items) && ItemBytes(items) == Ok(EncodeLE(|t|, 2) + ToBytes(t))
  {
    var head := [Item(U16, DInt(|t|), 2)];
    CharItemsBytes(t);
    ItemBytesAppend(head, CharItems(t));
    Pow256Values();
    ItemBytesSingle(head[0]);
  }

  lemma VarcharUnpack(c: Codec, b: seq<Byte>, row: seq<Byte>, off: nat)
    requires c.Valid() && c.fd.kind == Varchar && |b| < 65536
    requires ReadU16(row, off) == Ok(|b|) && Slice(row, off + 2, off + 2 + |b|) == b
    ensures Unpack(c, row, off) == Ok((VText(FromBytes(b)), 2 + |b|))
  {
  }

  /** Where a length and that many bytes sit in a row, `unpack_from('H')` reads the length
      and the slice after it is the bytes. */
  lemma VarcharWindow(b: seq<Byte>, row: seq<Byte>, off: nat)
    requires |b| < 65536 && At(row, off, EncodeLE(|b|, 2) + b)
    ensures ReadU16(row, off) == Ok(|b|) && Slice(row, off + 2, off + 2 + |b|) == b
  {
    var h := EncodeLE(|b|, 2);
    AtSplit(row, off, h, b);
    assert row[off..off + 2] == h;
    Pow256Values();
    DecodeEncodeLE(|b|, 2);
    assert Slice(row, off + 2, off + 2 + |b|) == row[off + 2..off + 2 + |b|];
  }

  // ---------------------------------------------------------------------------
  // Dates

  lemma {:induction false} DigitRunPrefix(s: Text, k: nat)
    requires k <= |s| && AllDigits(s[..k]) && (k == |s| || !IsDigit(s[k]))
    ensures DigitRun(s) == s[..k]
    decreases k
  {
    if k > 0 {
      assert s[..k][0] == s[0];
      assert s[1..][..k - 1] == s[1..k];
      DigitRunPrefix(s[1..], k - 1);
      assert s[..k] == [s[0]] + s[1..k];
    }
  }

  /** The date pattern matches year, month and day digit groups of the allowed lengths
      joined by '-'. */
  lemma MatchDateParts(y: Text, m: Text, d: Text)
    requires AllDigits(y) && AllDigits(m) && AllDigits(d)
    requires 2 <= |y| <= 4 && 1 <= |m| <= 2 && 1 <= |d| <= 2
    ensures MatchDate(y + "-" + m + "-" + d) == Some((y, m, d))
  {
    var rest := m + ['-'] + d;
    var t := y + ['-'] + rest;
    assert y + "-" + m + "-" + d == t;
    LeadingDigit(t);
    GroupThenSeparator(y, '-', rest);
    GroupThenSeparator(m, '-', d);
    DayGroup(d);
    MatchDateOf(t, y, m, d);
  }

  lemma LeadingDigit(t: Text)
    requires t != [] && IsDigit(t[0])
    ensures StripLeft(t) == t
  {
    assert !IsSpace(t[0]);
  }

  /** The match from its three group facts. */
  lemma MatchDateOf(t: Text, y: Text, m: Text, d: Text)
    requires 2 <= |y| <= 4 && 1 <= |m| <= 2 && 1 <= |d| <= 2
    requires StripLeft(t) == t && DigitRun(t) == y
    requires t[|y|..] != [] && t[|y|..][0] == '-'
    requires DigitRun(t[|y|..][1..]) == m
    requires t[|y|..][1..][|m|..] != [] && t[|y|..][1..][|m|..][0] == '-'
    requires DigitRun(t[|y|..][1..][|m|..][1..]) == d
    requires t[|y|..][1..][|m|..][1..][|d|..] == []
    ensures MatchDate(t) == Some((y, m, d))
  {
  }

  /** A match of the date pattern is the whole text: white space, the year group, a '-' or
      '/', the month group, a '-' or '/', the day group and white space. */
  lemma MatchDateSound(t: Text) returns (p: Text, s1: Char8, s2: Char8, q: Text)
    requires MatchDate(t).Some?
    ensures var (y, m, d) := MatchDate(t).value;
            AllSpace(p) && IsDateSeparator(s1) && IsDateSeparator(s2) && AllSpace(q)
            && t == p + y + [s1] + m + [s2] + d + q
  {
    var s, y, r1, m, r2, d := MatchDateSteps(t);
    p := t[..|t| - |s|];
    s1, s2, q := r1[0], r2[0], r2[1..][|d|..];
    DateJoin(t, p, s, y, r1, m, r2, d, q);
  }

  /** The intermediate texts of a successful match. */
  lemma MatchDateSteps(t: Text) returns (s: Text, y: Text, r1: Text, m: Text, r2: Text, d: Text)
    requires MatchDate(t).Some?
    ensures MatchDate(t).value == (y, m, d)
    ensures s == StripLeft(t) && y == DigitRun(s) && r1 == s[|y|..]
    ensures r1 != [] && IsDateSeparator(r1[0]) && m == DigitRun(r1[1..]) && r2 == r1[1..][|m|..]
    ensures r2 != [] && IsDateSeparator(r2[0]) && d == DigitRun(r2[1..]) && AllSpace(r2[1..][|d|..])
  {
    s := StripLeft(t);
    y := DigitRun(s);
    r1 := s[|y|..];
    m := DigitRun(r1[1..]);
    r2 := r1[1..][|m|..];
    d := DigitRun(r2[1..]);
  }

  /** Gluing the pieces of the match back together gives the text. */
  lemma DateJoin(t: Text, p: Text, s: Text, y: Text, r1: Text, m: Text, r2: Text, d: Text, q: Text)
    requires |s| <= |t| && s == t[|t| - |s|..] && p == t[..|t| - |s|]
    requires |y| <= |s| && y == s[..|y|] && r1 == s[|y|..] && r1 != []
    requires |m| < |r1| && m == r1[1..][..|m|] && r2 == r1[1..][|m|..] && r2 != []
    requires |d| < |r2| && d == r2[1..][..|d|] && q == r2[1..][|d|..]
    ensures t == p + y + [r1[0]] + m + [r2[0]] + d + q
  {
    var c1, c2 := r1[0], r2[0];
    var dq := r2[1..];
    var mr := r1[1..];
    SplitAt(dq, |d|, d, q);
    SplitAt(r2, 1, [c2], dq);
    SplitAt(mr, |m|, m, r2);
    SplitAt(r1, 1, [c1], mr);
    SplitAt(s, |y|, y, r1);
    SplitAt(t, |t| - |s|, p, s);
    FlatDate(p, y, c1, m, c2, d, q);
  }

  lemma SplitAt(s: Text, k: nat, a: Text, b: Text)
    requires k <= |s| && a == s[..k] && b == s[k..]
    ensures s == a + b
  {
  }

  lemma FlatDate(p: Text, y: Text, c1: Char8, m: Text, c2: Char8, d: Text, q: Text)
    ensures p + (y + ([c1] + (m + ([c2] + (d + q))))) == p + y + [c1] + m + [c2] + d + q
  {
  }

  /** Conversely, every text of that shape with groups of the allowed lengths matches, with
      exactly those groups. */
  lemma MatchDateComplete(p: Text, y: Text, s1: Char8, m: Text, s2: Char8, d: Text, q: Text)
    requires AllSpace(p) && AllSpace(q) && IsDateSeparator(s1) && IsDateSeparator(s2)
    requires AllDigits(y) && AllDigits(m) && AllDigits(d)
    requires 2 <= |y| <= 4 && 1 <= |m| <= 2 && 1 <= |d| <= 2
    ensures MatchDate(p + y + [s1] + m + [s2] + d + q) == Some((y, m, d))
  {
    var t, x, r1, r2 := DateShape(p, y, s1, m, s2, d, q);
    MatchDateFrom(t, x, y, r1, m, r2, d, q);
  }

  /** The intermediate texts the match meets on a text of the date shape. */
  lemma DateShape(p: Text, y: Text, s1: Char8, m: Text, s2: Char8, d: Text, q: Text)
    returns (t: Text, x: Text, r1: Text, r2: Text)
    requires AllSpace(p) && AllSpace(q) && IsDateSeparator(s1) && IsDateSeparator(s2)
    requires AllDigits(y) && AllDigits(m) && AllDigits(d) && y != [] && d != []
    ensures t == p + y + [s1] + m + [s2] + d + q
    ensures StripLeft(t) == x && DigitRun(x) == y && x[|y|..] == r1
    ensures r1 != [] && r1[0] == s1 && DigitRun(r1[1..]) == m && r1[1..][|m|..] == r2
    ensures r2 != [] && r2[0] == s2 && DigitRun(r2[1..]) == d && r2[1..][|d|..] == q
  {
    var dq, mr;
    t, x, mr, dq := DateConcat(p, y, s1, m, s2, d, q);
    StripLeftSpace(p, x);
    GroupThenSeparator(y, s1, mr);
    r1 := x[|y|..];
    GroupThenSeparator(m, s2, dq);
    r2 := mr[|m|..];
    DayThenSpace(d, q);
  }

  lemma DateConcat(p: Text, y: Text, s1: Char8, m: Text, s2: Char8, d: Text, q: Text)
    returns (t: Text, x: Text, mr: Text, dq: Text)
    requires y != []
    ensures dq == d + q && mr == m + [s2] + dq && x == y + [s1] + mr && t == p + x
    ensures x[0] == y[0] && t == p + y + [s1] + m + [s2] + d + q
  {
    dq := d + q;
    mr := m + [s2] + dq;
    x := y + [s1] + mr;
    t := p + x;
  }

  lemma DayThenSpace(d: Text, q: Text)
    requires AllDigits(d) && AllSpace(q)
    ensures DigitRun(d + q) == d && (d + q)[|d|..] == q
  {
    var dq := d + q;
    assert dq[..|d|] == d && dq[|d|..] == q;
    assert |d| < |dq| ==> IsSpace(q[0]);
    DigitRunPrefix(dq, |d|);
  }

  /** The match from its group facts. */
  lemma MatchDateFrom(t: Text, x: Text, y: Text, r1: Text, m: Text, r2: Text, d: Text, q: Text)
    requires 2 <= |y| <= 4 && 1 <= |m| <= 2 && 1 <= |d| <= 2 && AllSpace(q)
    requires StripLeft(t) == x && DigitRun(x) == y && x[|y|..] == r1
    requires r1 != [] && IsDateSeparator(r1[0]) && DigitRun(r1[1..]) == m && r1[1..][|m|..] == r2
    requires r2 != [] && IsDateSeparator(r2[0]) && DigitRun(r2[1..]) == d && r2[1..][|d|..] == q
    ensures MatchDate(t) == Some((y, m, d))
  {
  }

  lemma MonthDayGroups(m: Text, d: Text)
    requires AllDigits(m) && AllDigits(d) && m != []
    ensures var s1 := m + "-" + d;
            DigitRun(s1) == m && s1[|m|..] != [] && s1[|m|..][0] == '-' && s1[|m|..][1..] == d
            && DigitRun(d) == d && d[|d|..] == []
  {
    GroupThenSeparator(m, '-', d);
    assert m + "-" + d == m + ['-'] + d;
    DayGroup(d);
  }

  /** A digit group followed by a non-digit and anything. */
  lemma GroupThenSeparator(g: Text, c: Char8, rest: Text)
    requires AllDigits(g) && !IsDigit(c)
    ensures var s := g + [c] + rest;
            DigitRun(s) == g && s[|g|..] != [] && s[|g|..][0] == c && s[|g|..][1..] == rest
  {
    var s := g + [c] + rest;
    assert s[..|g|] == g && s[|g|] == c;
    DigitRunPrefix(s, |g|);
    assert s[|g|..] == [c] + rest;
  }

  lemma DayGroup(d: Text)
    requires AllDigits(d)
    ensures DigitRun(d) == d && d[|d|..] == []
  {
    assert d[..|d|] == d;
    DigitRunPrefix(d, |d|);
  }


  lemma MatchCanonicalDate(t: Text)
    requires CanonicalDate(t)
    ensures MatchDate(t) == Some((t[..4], t[5..7], t[8..]))
  {
    assert t == t[..4] + "-" + t[5..7] + "-" + t[8..];
    MatchDateParts(t[..4], t[5..7], t[8..]);
  }

  /** The floor divisions of `type_date.unpack` recover year, month and day from
      (year - 1900) * 10000 + month * 100 + day, for any year. */
  lemma DateFields(y: int, m: nat, d: nat)
    requires m <= 99 && d <= 99
    ensures var ri := (y - 1900) * 10000 + m * 100 + d;
            ri / 10000 + 1900 == y && ri / 100 - (ri / 10000) * 100 == m && ri - (ri / 100) * 100 == d
  {
    var ri := (y - 1900) * 10000 + m * 100 + d;
    DivModUnique(ri, y - 1900, m * 100 + d, 10000);
    assert ri == ((y - 1900) * 100 + m) * 100 + d;
    DivModUnique(ri, (y - 1900) * 100 + m, d, 100);
  }

  /** The text `type_date.unpack` makes of a date the pattern matched: each group taken
      at its literal value and zero-padded, so a two-digit year stays in the first century. */
  function NormalDate(y: Text, m: Text, d: Text): Text
    requires AllDigits(y) && AllDigits(m) && AllDigits(d)
  {
    ZeroPad(DigitsValue(y), 4) + "-" + ZeroPad(DigitsValue(m), 2) + "-" + ZeroPad(DigitsValue(d), 2)
  }

  /** The integer `type_date.pack` stores for the groups of a matched date. */
  function DateInteger(y: Text, m: Text, d: Text): int
    requires AllDigits(y) && AllDigits(m) && AllDigits(d)
  {
    (DigitsValue(y) - 1900) * 10000 + DigitsValue(m) * 100 + DigitsValue(d)
  }

  lemma DatePackOf(c: Codec, t: Text)
    requires c.Valid() && c.fd.kind == Date
    requires MatchDate(t).Some? && DigitsValue(MatchDate(t).value.1) <= 12
    ensures var g := MatchDate(t).value;
            Pack(c, VText(t)) == Ok([Item(Signed(4), DInt(DateInteger(g.0, g.1, g.2)), 4)])
  {
    CodecWidths(c);
    PackDateIs(c, t);
    var g := MatchDate(t).value;
    DatePackMatched(c, t, g.0, g.1, g.2);
  }

  lemma PackDateIs(c: Codec, t: Text)
    requires c.Valid() && c.fd.kind == Date
    ensures Pack(c, VText(t)) == DatePack(c, t)
  {
  }

  lemma DatePackMatched(c: Codec, t: Text, y: Text, m: Text, d: Text)
    requires MatchDate(t) == Some((y, m, d)) && DigitsValue(m) <= 12
    ensures DatePack(c, t) == Ok([Item(c.fmt, DInt(DateInteger(y, m, d)), c.width)])
  {
    DateItemsOf(c, y, m, d);
  }

  lemma DateItemsOf(c: Codec, y: Text, m: Text, d: Text)
    requires AllDigits(y) && AllDigits(m) && AllDigits(d) && DigitsValue(m) <= 12
    ensures DateItems(c, Some((y, m, d))) == Ok([Item(c.fmt, DInt(DateInteger(y, m, d)), c.width)])
  {
  }

  /** Where the bytes of a date integer sit, the decoder reads its text back. */
  lemma DateUnpackAt(c: Codec, t: Text, row: seq<Byte>, off: nat, ri: int, b: seq<Byte>)
    requires c.Valid() && c.fd.kind == Date && InSigned(ri, 4) && b == EncodeSigned(ri, 4) && DateText(ri) == t
    ensures At(row, off, b) ==> Unpack(c, row, off) == Ok((VText(t), |b|)) && Shown(VText(t)) == Ok(t)
  {
    if At(row, off, b) {
      SignedWindow(row, off, ri, 4);
      DateUnpackOf(c, ri, row, off);
    }
  }

  lemma DateUnpackOf(c: Codec, ri: int, row: seq<Byte>, off: nat)
    requires c.Valid() && c.fd.kind == Date && ReadSigned(row, off, 4) == Ok(ri)
    ensures Unpack(c, row, off) == Ok((VText(DateText(ri)), 4))
  {
    CodecWidths(c);
  }

  /** The items and bytes of a date the pattern accepts, and the text its integer reads
      back as. */
  lemma DateBytes(c: Codec, t: Text) returns (b: seq<Byte>, ri: int)
    requires c.Valid() && c.fd.kind == Date
    requires MatchDate(t).Some? && DigitsValue(MatchDate(t).value.1) <= 12
    ensures var items := [Item(Signed(4), DInt(ri), 4)];
            Pack(c, VText(t)) == Ok(items) && WidthsAgree(items) && ItemBytes(items) == Ok(b)
    ensures InSigned(ri, 4) && b == EncodeSigned(ri, 4)
    ensures var g := MatchDate(t).value; DateText(ri) == NormalDate(g.0, g.1, g.2)
  {
    var g := MatchDate(t).value;
    DatePackOf(c, t);
    b, ri := DateIntegerBytes(g.0, g.1, g.2);
  }

  lemma DateIntegerBytes(y: Text, m: Text, d: Text) returns (b: seq<Byte>, ri: int)
    requires AllDigits(y) && AllDigits(m) && AllDigits(d)
    requires 2 <= |y| <= 4 && 1 <= |m| <= 2 && 1 <= |d| <= 2 && DigitsValue(m) <= 12
    ensures var items := [Item(Signed(4), DInt(ri), 4)];
            WidthsAgree(items) && ItemBytes(items) == Ok(b)
    ensures ri == DateInteger(y, m, d) && InSigned(ri, 4) && b == EncodeSigned(ri, 4)
    ensures DateText(ri) == NormalDate(y, m, d)
  {
    DateIntegerText(y, m, d);
    ri := DateInteger(y, m, d);
    var items := [Item(Signed(4), DInt(ri), 4)];
    ItemBytesSingle(items[0]);
    b := EncodeSigned(ri, 4);
  }

  /** A matched date's integer fits the 4-byte format and reads back as its normal form. */
  lemma DateIntegerText(y: Text, m: Text, d: Text)
    requires AllDigits(y) && AllDigits(m) && AllDigits(d)
    requires 2 <= |y| <= 4 && 1 <= |m| <= 2 && 1 <= |d| <= 2 && DigitsValue(m) <= 12
    ensures InSigned(DateInteger(y, m, d), 4)
    ensures DateText(DateInteger(y, m, d)) == NormalDate(y, m, d)
  {
    var yv: int, mv, dv := DigitsValue(y), DigitsValue(m), DigitsValue(d);
    assert yv < 10000 by {
      Pow10Monotone(|y|, 4);
      Pow10Values();
    }
    assert dv < 100 by {
      Pow10Monotone(|d|, 2);
      Pow10Values();
    }
    var ri := DateInteger(y, m, d);
    assert ri == (yv - 1900) * 10000 + mv * 100 + dv;
    DateIntegerFits(yv, mv, dv);
    DateFields(yv, mv, dv);
    DateTextFields(ri, yv, mv, dv);
    assert NormalDate(y, m, d) == ZeroPad(yv, 4) + "-" + ZeroPad(mv, 2) + "-" + ZeroPad(dv, 2);
  }

  lemma DateIntegerFits(y: int, m: nat, d: nat)
    requires 0 <= y < 10000 && m <= 12 && d < 100
    ensures InSigned((y - 1900) * 10000 + m * 100 + d, 4)
  {
    Pow256Values();
  }

  lemma DateTextFields(ri: int, y: int, m: int, d: int)
    requires ri / 10000 + 1900 == y && ri / 100 - (ri / 10000) * 100 == m && ri - (ri / 100) * 100 == d
    ensures DateText(ri) == ZeroPad(y, 4) + "-" + ZeroPad(m, 2) + "-" + ZeroPad(d, 2)
  {
  }

  /** Packing any date the pattern accepts and unpacking it gives the zero-padded literal
      year, month and day; no century is added to short years. */
  lemma DateNormalises(c: Codec, t: Text, row: seq<Byte>, off: nat)
    requires c.Valid() && c.fd.kind == Date
    requires MatchDate(t).Some? && DigitsValue(MatchDate(t).value.1) <= 12
    ensures Pack(c, VText(t)).Ok?
    ensures var (y, m, d) := MatchDate(t).value;
            var items := Pack(c, VText(t)).value;
            WidthsAgree(items) && ItemBytes(items).Ok? && |ItemBytes(items).value| == 4
            && (At(row, off, ItemBytes(items).value) ==>
                  Unpack(c, row, off) == Ok((VText(NormalDate(y, m, d)), 4)))
  {
    var b, ri := DateBytes(c, t);
    if At(row, off, b) {
      SignedWindow(row, off, ri, 4);
      DateUnpackOf(c, ri, row, off);
    }
  }

  lemma DateRoundTrip(c: Codec, t: Text, row: seq<Byte>, off: nat)
    requires c.Valid() && c.fd.kind == Date && CanonicalText(c, t)
    ensures RoundTrips(c, t, row, off)
  {
    var b, ri := CanonicalDateBytes(c, t);
    DateUnpackAt(c, t, row, off, ri, b);
    RoundTripsOf(c, t, [Item(Signed(4), DInt(ri), 4)], b, VText(t), row, off);
  }

  /** The bytes of a canonical date, whose integer reads back as the same text. */
  lemma CanonicalDateBytes(c: Codec, t: Text) returns (b: seq<Byte>, ri: int)
    requires c.Valid() && c.fd.kind == Date && CanonicalText(c, t)
    ensures var items := [Item(Signed(4), DInt(ri), 4)];
            Pack(c, VText(t)) == Ok(items) && WidthsAgree(items) && ItemBytes(items) == Ok(b)
    ensures InSigned(ri, 4) && b == EncodeSigned(ri, 4) && DateText(ri) == t
  {
    assert CanonicalDate(t);
    MatchCanonicalDate(t);
    CanonicalDateNormal(t);
    b, ri := DateBytes(c, t);
  }

  /** A canonical date is its own normal form. */
  lemma CanonicalDateNormal(t: Text)
    requires CanonicalDate(t)
    ensures NormalDate(t[..4], t[5..7], t[8..]) == t
  {
    var y, m, d := t[..4], t[5..7], t[8..];
    assert |y| == 4 && |m| == 2 && |d| == 2;
    ZeroPadDigits(y);
    ZeroPadDigits(m);
    ZeroPadDigits(d);
    assert t == y + "-" + m + "-" + d;
  }

  /** The century adjustment of `type_date.pack` never happens: "99-01-01" is stored as
      year 99, the integer -18009899 ... */
  lemma TwoDigitYearPacked(c: Codec)
    requires c.Valid() && c.fd.kind == Date
    ensures Pack(c, VText("99-01-01")) == Ok([Item(Signed(4), DInt(-18009899), 4)])
  {
    MatchShortDate();
    ShortDateValues();
    DatePackOf(c, "99-01-01");
  }

  /** ... which reads back as "0099-01-01", not as the text that was packed. */
  lemma TwoDigitYearUnpacked(c: Codec, row: seq<Byte>, off: nat)
    requires c.Valid() && c.fd.kind == Date
    ensures ReadSigned(row, off, 4) == Ok(-18009899) ==> Unpack(c, row, off) == Ok((VText("0099-01-01"), 4))
  {
    ShortDateValues();
    DateIntegerText("99", "01", "01");
    if ReadSigned(row, off, 4) == Ok(-18009899) {
      DateUnpackOf(c, -18009899, row, off);
    }
  }

  lemma MatchShortDate()
    ensures MatchDate("99-01-01") == Some(("99", "01", "01"))
  {
    assert "99-01-01" == "99" + "-" + "01" + "-" + "01";
    MatchDateParts("99", "01", "01");
  }

  lemma ShortDateValues()
    ensures DigitsValue("99") == 99 && DigitsValue("01") == 1
    ensures DateInteger("99", "01", "01") == -18009899
    ensures NormalDate("99", "01", "01") == "0099-01-01"
  {
    ShortYearDigits();
    ShortYearText();
  }

  lemma ShortYearDigits()
    ensures DigitsValue("99") == 99 && DigitsValue("01") == 1
  {
  }

  lemma ShortYearText()
    ensures ZeroPad(99, 4) == "0099" && ZeroPad(1, 2) == "01"
  {
    assert NatToText(99) == "99";
    assert NatToText(1) == "1";
    assert Zeros(2) == "00";
    assert Zeros(1) == "0";
  }

  // ---------------------------------------------------------------------------
  // Decimals

  lemma NoPointNoSpace(sgn: Text, d: Text)
    requires sgn == "" || sgn == "-"
    requires AllDigits(d)
    ensures '.' !in sgn + d
    ensures forall k :: 0 <= k < |sgn + d| ==> !IsSpace((sgn + d)[k])
  {
    assert forall k :: 0 <= k < |sgn + d| ==> (sgn + d)[k] == '-' || IsDigit((sgn + d)[k]);
  }

  lemma RemoveSign(neg: bool, d: Text)
    requires AllDigits(d)
    ensures Remove(Sign(neg) + d, {'-', '+'}) == d
  {
    RemoveNothing(d, {'-', '+'});
    if neg {
      var s := Sign(neg) + d;
      assert s[0] == '-' && s[1..] == d;
      assert Remove(s, {'-', '+'}) == [] + Remove(d, {'-', '+'});
    } else {
      assert Sign(neg) + d == d;
    }
  }

  lemma SplitPoint(head: Text, f: Text)
    requires '.' !in head && '.' !in f
    ensures Split(head + "." + f, '.') == [head, f]
  {
    var t := head + "." + f;
    assert t[..|head|] == head && t[|head|] == '.';
    IndexOfAt(t, '.', |head|);
    assert t[|head| + 1..] == f;
  }

  lemma HasDigitAt(t: Text, k: nat)
    requires k < |t| && IsDigit(t[k])
    ensures HasDigit(t)
  {
  }

  lemma DecimalPartsPoint(neg: bool, i: Text, f: Text)
    requires AllDigits(i) && AllDigits(f) && |f| >= 1
    ensures DecimalParts(Sign(neg) + i + "." + f) == Ok((Sign(neg) + i, f))
  {
    DecimalPartsPointNamed(neg, i, f, Sign(neg) + i + "." + f, Sign(neg) + i);
  }

  /** The same, with the texts named so that the prover does not take them apart. */
  lemma DecimalPartsPointNamed(neg: bool, i: Text, f: Text, t: Text, h: Text)
    requires AllDigits(i) && AllDigits(f) && |f| >= 1
    requires t == Sign(neg) + i + "." + f && h == Sign(neg) + i
    ensures DecimalParts(t) == Ok((h, f))
  {
    DecimalPointSplit(neg, i, f);
    NoPointNoSpace(Sign(neg), i);
    StripNoSpace(h);
    DigitsStrip(f);
    DecimalPartsOfSplit(t, h, f);
  }

  lemma DigitsStrip(f: Text)
    requires AllDigits(f)
    ensures Strip(f) == f
  {
    NoPointNoSpace("", f);
    assert "" + f == f;
    StripNoSpace(f);
  }

  lemma DecimalPointSplit(neg: bool, i: Text, f: Text)
    requires AllDigits(i) && AllDigits(f) && |f| >= 1
    ensures Split(Sign(neg) + i + "." + f, '.') == [Sign(neg) + i, f]
    ensures HasDigit(Sign(neg) + i + "." + f)
  {
    var head := Sign(neg) + i;
    NoPointNoSpace(Sign(neg), i);
    DigitsNoPoint(f);
    SplitPoint(head, f);
    FractionDigit(head, f);
  }

  lemma DigitsNoPoint(f: Text)
    requires AllDigits(f)
    ensures '.' !in f
  {
    assert forall k :: 0 <= k < |f| ==> f[k] != '.';
  }

  lemma FractionDigit(head: Text, f: Text)
    requires f != [] && IsDigit(f[0])
    ensures HasDigit(head + "." + f)
  {
    var t := head + "." + f;
    assert t[|head| + 1] == f[0];
    HasDigitAt(t, |head| + 1);
  }

  lemma DecimalPartsOfSplit(t: Text, a: Text, b: Text)
    requires Split(t, '.') == [a, b] && HasDigit(t) && Strip(a) == a && Strip(b) == b
    ensures DecimalParts(t) == Ok((a, b))
  {
  }

  lemma PadDigitsExact(neg: bool, i: Text, f: Text, precision: nat)
    requires AllDigits(i) && |i| + |f| <= precision
    ensures PadDigits(Sign(neg) + i, f, precision, |f|) == Ok(Sign(neg) + (i + f))
  {
    RemoveSign(neg, i);
    assert Zeros(0) == [];
    Associative(Sign(neg), i, f);
    assert Sign(neg) + i + f + [] == Sign(neg) + i + f;
  }

  /** `type_decimal.pack` of sign, integer digits, a point and exactly `scale` fraction
      digits hands `int()` the sign and all the digits. */
  lemma DecimalDigitsPoint(neg: bool, i: Text, f: Text, precision: nat)
    requires AllDigits(i) && AllDigits(f) && |f| >= 1 && |i| + |f| <= precision
    ensures DecimalDigits(Sign(neg) + i + "." + f, precision, |f|) == Ok(Sign(neg) + (i + f))
  {
    DecimalPartsPoint(neg, i, f);
    PadDigitsExact(neg, i, f, precision);
  }

  lemma DecimalPartsWhole(neg: bool, u: Text)
    requires AllDigits(u) && u != []
    ensures DecimalParts(Sign(neg) + u) == Ok((Sign(neg) + u, []))
  {
    var t := Sign(neg) + u;
    NoPointNoSpace(Sign(neg), u);
    assert Split(t, '.') == [t];
    HasDigitAt(t, |t| - 1);
    StripNoSpace(t);
  }

  lemma PadDigitsWhole(neg: bool, u: Text, precision: nat)
    requires AllDigits(u) && |u| <= precision
    ensures PadDigits(Sign(neg) + u, [], precision, 0) == Ok(Sign(neg) + u)
  {
    RemoveSign(neg, u);
    assert Zeros(0) == [];
    assert Sign(neg) + u + [] + [] == Sign(neg) + u;
  }

  /** With scale zero, `type_decimal.pack` hands `int()` the text itself. */
  lemma DecimalDigitsWhole(neg: bool, u: Text, precision: nat)
    requires AllDigits(u) && u != [] && |u| <= precision
    ensures DecimalDigits(Sign(neg) + u, precision, 0) == Ok(Sign(neg) + u)
  {
    DecimalPartsWhole(neg, u);
    PadDigitsWhole(neg, u, precision);
  }

  lemma DecimalPackOf(c: Codec, t: Text, digits: Text, neg: bool, d: Text)
    requires c.Valid() && c.fd.kind == Decimal
    requires DecimalDigits(t, c.fd.len.precision, c.fd.len.scale) == Ok(digits)
    requires digits == Sign(neg) + d && d != [] && AllDigits(d)
    ensures Pack(c, VText(t)) == Ok([Item(c.fmt, DInt(SignedDigits(neg, d)), c.width)])
  {
    ParseSigned(neg, d);
    assert ParseInt(digits) == Ok(SignedDigits(neg, d));
    DecimalPackShape(c, t, c.fd.len.precision, c.fd.len.scale);
  }

  lemma DecimalPackShape(c: Codec, t: Text, p: nat, s: nat)
    requires DecimalDigits(t, p, s).Ok? && ParseInt(DecimalDigits(t, p, s).value).Ok?
    ensures DecimalPack(c, t, p, s) == Ok([Item(c.fmt, DInt(ParseInt(DecimalDigits(t, p, s).value).value), c.width)])
  {
  }

  /** `type_decimal.unpack` spells a value with a positive scale as sign, integer digits
      (none below one), point and fraction digits. */
  lemma DecimalTextPoint(neg: bool, i: Text, f: Text)
    requires AllDigits(i) && AllDigits(f) && |f| >= 1
    requires i == [] || i[0] != '0'
    requires neg ==> DigitsValue(i + f) != 0
    ensures DecimalText(SignedDigits(neg, i + f), |f|) == Sign(neg) + i + "." + f
  {
    var d := i + f;
    var x := SignedDigits(neg, d);
    assert (x < 0) == neg;
    var s := NatToText(DigitsValue(d));
    assert (if x < 0 then -x else x) == DigitsValue(d);
    var cut := if |s| > |f| then |s| - |f| else 0;
    DecimalTextCut(x, |f|, s, cut);
    if i == [] {
      assert d == f;
      NatToTextLength(DigitsValue(f), |f|);
      ZFillOfDigits(f);
      CutNothing(s);
    } else {
      NatToTextOfDigits(d);
      CutAt(s, i, f);
      ZFillFull(f);
    }
  }

  lemma DecimalTextCut(x: int, scale: nat, s: Text, cut: nat)
    requires scale > 0 && s == NatToText(if x < 0 then -x else x)
    requires cut == if |s| > scale then |s| - scale else 0
    ensures DecimalText(x, scale) == Sign(x < 0) + s[..cut] + "." + ZFill(s[cut..], scale)
  {
  }

  lemma CutNothing(s: Text)
    ensures s[..0] == [] && s[0..] == s
  {
  }

  lemma CutAt(s: Text, i: Text, f: Text)
    requires s == i + f
    ensures |s| - |f| == |i| && s[..|i|] == i && s[|i|..] == f
  {
  }

  lemma ZFillFull(f: Text)
    ensures ZFill(f, |f|) == f
  {
    assert Zeros(0) == [];
  }

  /** `type_decimal.unpack` spells a value with scale zero as `str()` does. */
  lemma DecimalTextWhole(neg: bool, u: Text)
    requires AllDigits(u) && u != [] && NoLeadingZero(u)
    requires neg ==> u != "0"
    ensures DecimalText(SignedDigits(neg, u), 0) == Sign(neg) + u
  {
    NatToTextOfDigits(u);
    if neg {
      assert |u| == 1 ==> u == [u[0]];
      NonZeroLeadPositive(u);
    }
  }

  /** A value of at most `precision` digits fits the integer format `type_decimal.length`
      picks for that precision. */
  lemma DecimalFits(x: int, precision: nat)
    requires precision <= 18 && 0 < x + Pow10(precision) && x < Pow10(precision)
    ensures InSigned(x, DecimalFormat(precision).value.1)
  {
    Pow10Values();
    Pow256Values();
    if precision <= 2 {
      Pow10Monotone(precision, 2);
    } else if precision <= 4 {
      Pow10Monotone(precision, 4);
    } else if precision <= 9 {
      Pow10Monotone(precision, 9);
    } else {
      Pow10Monotone(precision, 18);
    }
  }

  /** Once a DECIMAL text packs to the value of some digits and that value's spelling is the
      text again, the text survives the bytes. */
  lemma DecimalStored(c: Codec, t: Text, neg: bool, d: Text, row: seq<Byte>, off: nat)
    requires c.Valid() && c.fd.kind == Decimal
    requires AllDigits(d) && |d| <= c.fd.len.precision
    requires Pack(c, VText(t)) == Ok([Item(c.fmt, DInt(SignedDigits(neg, d)), c.width)])
    requires DecimalText(SignedDigits(neg, d), c.fd.len.scale) == t
    ensures RoundTrips(c, t, row, off)
  {
    var x := SignedDigits(neg, d);
    var b := DecimalBytes(c, neg, d);
    CodecWidths(c);
    DecimalUnpackAt(c, t, row, off, x, b);
    RoundTripsOf(c, t, [Item(c.fmt, DInt(x), c.width)], b, VText(t), row, off);
  }

  /** Where the bytes of a DECIMAL integer sit, the decoder reads its text back. */
  lemma DecimalUnpackAt(c: Codec, t: Text, row: seq<Byte>, off: nat, x: int, b: seq<Byte>)
    requires c.Valid() && c.fd.kind == Decimal && InSigned(x, c.width)
    requires b == EncodeSigned(x, c.width) && |b| == c.width && DecimalText(x, c.fd.len.scale) == t
    ensures At(row, off, b) ==> Unpack(c, row, off) == Ok((VText(t), |b|)) && Shown(VText(t)) == Ok(t)
  {
    if At(row, off, b) {
      DecimalUnpackOf(c, x, row, off);
    }
  }

  /** The single item of a packed DECIMAL and its bytes. */
  lemma DecimalBytes(c: Codec, neg: bool, d: Text) returns (b: seq<Byte>)
    requires c.Valid() && c.fd.kind == Decimal
    requires AllDigits(d) && |d| <= c.fd.len.precision
    ensures var items := [Item(c.fmt, DInt(SignedDigits(neg, d)), c.width)];
            WidthsAgree(items) && ItemBytes(items) == Ok(b)
    ensures InSigned(SignedDigits(neg, d), c.width) && b == EncodeSigned(SignedDigits(neg, d), c.width)
  {
    CodecWidths(c);
    DecimalWidth(c);
    var x := SignedDigits(neg, d);
    Pow10Monotone(|d|, c.fd.len.precision);
    DecimalFits(x, c.fd.len.precision);
    var items := [Item(c.fmt, DInt(x), c.width)];
    ItemBytesSingle(items[0]);
    b := EncodeSigned(x, c.width);
  }

  lemma DecimalWidth(c: Codec)
    requires c.Valid() && c.fd.kind == Decimal
    ensures c.width == DecimalFormat(c.fd.len.precision).value.1
  {
  }

  lemma DecimalUnpackOf(c: Codec, x: int, row: seq<Byte>, off: nat)
    requires c.Valid() && c.fd.kind == Decimal && InSigned(x, c.width)
    requires At(row, off, EncodeSigned(x, c.width))
    ensures Unpack(c, row, off) == Ok((VText(DecimalText(x, c.fd.len.scale)), c.width))
  {
    CodecWidths(c);
    DecodeEncodeSigned(x, c.width);
    assert ReadSigned(row, off, c.width) == Ok(x);
  }

  lemma DecimalPointRoundTrip(c: Codec, t: Text, neg: bool, i: Text, f: Text, row: seq<Byte>, off: nat)
    requires c.Valid() && c.fd.kind == Decimal && c.fd.len.scale == |f| && |f| >= 1
    requires AllDigits(i) && AllDigits(f) && (i == [] || i[0] != '0') && |i| + |f| <= c.fd.len.precision
    requires neg ==> DigitsValue(i + f) != 0
    requires t == Sign(neg) + i + "." + f
    ensures RoundTrips(c, t, row, off)
  {
    var d := i + f;
    DecimalPointPacks(c, t, neg, i, f);
    DecimalTextPoint(neg, i, f);
    DecimalStored(c, t, neg, d, row, off);
  }

  lemma DecimalPointPacks(c: Codec, t: Text, neg: bool, i: Text, f: Text)
    requires c.Valid() && c.fd.kind == Decimal && c.fd.len.scale == |f| && |f| >= 1
    requires AllDigits(i) && AllDigits(f) && |i| + |f| <= c.fd.len.precision
    requires t == Sign(neg) + i + "." + f
    ensures Pack(c, VText(t)) == Ok([Item(c.fmt, DInt(SignedDigits(neg, i + f)), c.width)])
    ensures AllDigits(i + f) && |i + f| <= c.fd.len.precision
  {
    var d := i + f;
    assert AllDigits(d) && d != [] by {
      assert forall k :: 0 <= k < |d| ==> d[k] == if k < |i| then i[k] else f[k - |i|];
    }
    DecimalDigitsPoint(neg, i, f, c.fd.len.precision);
    assert DecimalDigits(t, c.fd.len.precision, c.fd.len.scale) == Ok(Sign(neg) + d);
    DecimalPackOf(c, t, Sign(neg) + d, neg, d);
  }

  lemma DecimalWholeRoundTrip(c: Codec, t: Text, neg: bool, u: Text, row: seq<Byte>, off: nat)
    requires c.Valid() && c.fd.kind == Decimal && c.fd.len.scale == 0
    requires AllDigits(u) && u != [] && NoLeadingZero(u) && |u| <= c.fd.len.precision
    requires neg ==> u != "0"
    requires t == Sign(neg) + u
    ensures RoundTrips(c, t, row, off)
  {
    DecimalWholePacks(c, t, neg, u);
    DecimalTextWhole(neg, u);
    DecimalStored(c, t, neg, u, row, off);
  }

  lemma DecimalWholePacks(c: Codec, t: Text, neg: bool, u: Text)
    requires c.Valid() && c.fd.kind == Decimal && c.fd.len.scale == 0
    requires AllDigits(u) && u != [] && |u| <= c.fd.len.precision
    requires t == Sign(neg) + u
    ensures Pack(c, VText(t)) == Ok([Item(c.fmt, DInt(SignedDigits(neg, u)), c.width)])
  {
    DecimalDigitsWhole(neg, u, c.fd.len.precision);
    DecimalPackOf(c, t, Sign(neg) + u, neg, u);
  }

  lemma DecimalRoundTrip(c: Codec, t: Text, row: seq<Byte>, off: nat)
    requires c.Valid() && c.fd.kind == Decimal && CanonicalText(c, t)
    ensures RoundTrips(c, t, row, off)
  {
    if c.fd.len.scale == 0 {
      var neg, u := CanonicalDecimalWhole(t, c.fd.len.precision);
      DecimalWholeRoundTrip(c, t, neg, u, row, off);
    } else {
      var neg, i, f := CanonicalDecimalPoint(t, c.fd.len.precision, c.fd.len.scale);
      DecimalPointRoundTrip(c, t, neg, i, f, row, off);
    }
  }

  /** A canonical DECIMAL text of scale 0 is a sign and digits. */
  lemma CanonicalDecimalWhole(t: Text, precision: nat) returns (neg: bool, u: Text)
    requires CanonicalDecimal(t, precision, 0)
    ensures AllDigits(u) && u != [] && NoLeadingZero(u) && |u| <= precision
    ensures (neg ==> u != "0") && t == Sign(neg) + u
  {
    neg := t != [] && t[0] == '-';
    u := if neg then t[1..] else t;
  }

  /** A canonical DECIMAL text of positive scale is a sign, integer digits, a point and
      `scale` fraction digits. */
  lemma CanonicalDecimalPoint(t: Text, precision: nat, scale: nat) returns (neg: bool, i: Text, f: Text)
    requires scale > 0 && CanonicalDecimal(t, precision, scale)
    ensures AllDigits(i) && AllDigits(f) && (i == [] || i[0] != '0') && |f| == scale
    ensures |i| + |f| <= precision && (neg ==> DigitsValue(i + f) != 0)
    ensures t == Sign(neg) + i + "." + f
  {
    neg := t != [] && t[0] == '-';
    var u := if neg then t[1..] else t;
    SignThen(t, neg, u);
    i, f := u[..|u| - scale - 1], u[|u| - scale..];
    PointCut(u, |u| - scale - 1);
    Associative(Sign(neg), i + ".", f);
    Associative(Sign(neg), i, ".");
  }

  lemma SignThen(t: Text, neg: bool, u: Text)
    requires neg == (t != [] && t[0] == '-') && u == (if neg then t[1..] else t)
    ensures t == Sign(neg) + u
  {
    if neg {
      assert t == [t[0]] + t[1..];
    }
  }

  lemma PointCut(u: Text, k: nat)
    requires k < |u| && u[k] == '.'
    ensures u == u[..k] + "." + u[k + 1..]
  {
    assert u == u[..k] + [u[k]] + u[k + 1..];
  }

  // ---------------------------------------------------------------------------
  // All kinds

  /** Every canonical text of every codec survives packing and unpacking. */
  lemma CodecRoundTrip(c: Codec, t: Text, row: seq<Byte>, off: nat)
    requires c.Valid() && CanonicalText(c, t)
    ensures RoundTrips(c, t, row, off)
  {
    if IsIntegerKind(c.fd.kind) {
      IntegerRoundTrip(c, t, row, off);
    } else {
      match c.fd.kind
      case Char => CharRoundTrip(c, t, row, off);
      case Varchar => VarcharRoundTrip(c, t, row, off);
      case Date => DateRoundTrip(c, t, row, off);
      case Decimal => DecimalRoundTrip(c, t, row, off);
    }
  }
}
