/** The indicator bitmap (`indic_data`): one null flag per column, eight to a byte,
    the first column of each group of eight in the most significant bit. */
module Indicator {
  import opened Bytes
  import opened Errors

  /** Bytes of indicator data for `n` columns: ceil(n / 8). */
  function IndicatorLength(n: nat): (r: nat)
    ensures n <= 8 * r < n + 8
  {
    if n % 8 == 0 then n / 8 else n / 8 + 1
  }

  /** 2^k for the bit positions of one byte. */
  const Pow2: seq<nat> := [1, 2, 4, 8, 16, 32, 64, 128]

  function FlagBit(nulls: seq<bool>, i: nat): nat {
    if i < |nulls| && nulls[i] then 1 else 0
  }

  /** The byte built from the first `c` flags starting at `base`, flag k in bit 7 - k;
      the bits not yet filled in are still clear. */
  function PartialByte(nulls: seq<bool>, base: nat, c: nat): (r: nat)
    requires c <= 8
    ensures r + (if c == 8 then 1 else 2 * Pow2[7 - c]) <= 256
  {
    if c == 0 then 0
    else PartialByte(nulls, base, c - 1) + FlagBit(nulls, base + c - 1) * Pow2[8 - c]
  }

  /** Byte `j` of the indicator data for the given null flags. */
  function IndicatorByte(nulls: seq<bool>, j: nat): Byte {
    PartialByte(nulls, 8 * j, 8)
  }

  /** The indicator data `indic_data.pack` produces: `len` bytes, flags packed from the left. */
  function IndicatorBytes(nulls: seq<bool>, len: nat): (r: seq<Byte>)
    ensures |r| == len
  {
    seq(len, j requires 0 <= j < len => IndicatorByte(nulls, j))
  }

  /** Bit `bit` of byte `b`: `(b >> bit) & 1`. */
  function BitOf(b: Byte, bit: nat): nat
    requires bit < 8
  {
    (b / Pow2[bit]) % 2
  }

  /** The null flag of column `col`: bit 7 - col % 8 of byte col / 8. */
  function FlagOf(data: seq<Byte>, col: nat): bool
    requires col / 8 < |data|
  {
    BitOf(data[col / 8], 7 - col % 8) == 1
  }

  /** What `indic_data(n).unpack(data)` returns: the first n flags, or IndexError when
      the data has fewer than ceil(n / 8) bytes. */
  function Flags(data: seq<Byte>, n: nat): (r: Result<seq<bool>>)
    ensures r.Ok? <==> IndicatorLength(n) <= |data|
    ensures r.Ok? ==> |r.value| == n
  {
    if 8 * |data| < n then Err(IndexError)
    else Ok(seq(n, i requires 0 <= i < n => FlagOf(data, i)))
  }

  function Min(a: int, b: int): int { if a <= b then a else b }

  /** `indic_data(columnCount).pack(nulls)`. */
  method PackIndicator(columnCount: nat, nulls: seq<bool>) returns (bytes: seq<Byte>)
    ensures bytes == IndicatorBytes(nulls, IndicatorLength(columnCount))
  {
    var len := IndicatorLength(columnCount);
    var n := 0;
    bytes := [];
    var i := 0;
    while i < len
      invariant i <= len
      invariant n == Min(8 * i, |nulls|)
      invariant bytes == IndicatorBytes(nulls, i)
    {
      var byte := 0;
      var count := Min(8, |nulls| - n);
      var octet := 0;
      while octet < count
        invariant 0 <= octet <= count
        invariant count > 0 ==> n == 8 * i + octet
        invariant count <= 0 ==> n == Min(8 * i, |nulls|)
        invariant byte == PartialByte(nulls, 8 * i, octet)
      {
        // byte + (nulls[n] << (7 - octet))
        byte := byte + (if nulls[n] then 1 else 0) * Pow2[7 - octet];
        n := n + 1;
        octet := octet + 1;
      }
      var c := if count < 0 then 0 else count;
      PartialByteComplete(nulls, 8 * i, c);
      bytes := bytes + [byte];
      i := i + 1;
    }
  }

  /** Once the flags run out, the remaining bits of the byte stay zero. */
  lemma {:induction false} PartialByteComplete(nulls: seq<bool>, base: nat, c: nat)
    requires c <= 8
    requires c == 8 || |nulls| <= base + c
    ensures PartialByte(nulls, base, c) == PartialByte(nulls, base, 8)
    decreases 8 - c
  {
    if c < 8 {
      PartialByteComplete(nulls, base, c + 1);
    }
  }

  /** `indic_data(columnCount).unpack(data)`. */
  method UnpackIndicator(columnCount: nat, data: seq<Byte>) returns (r: Result<seq<bool>>)
    ensures r == Flags(data, columnCount)
  {
    var nulls := [];
    var col := 0;
    while col < columnCount
      invariant col <= columnCount && col <= 8 * |data|
      invariant nulls == seq(col, i requires 0 <= i < col => FlagOf(data, i))
    {
      if col / 8 >= |data| {
        return Err(IndexError);
      }
      var byte := data[col / 8];
      var bit := 7 - col % 8;
      var isNull := (byte / Pow2[bit]) % 2;
      nulls := nulls + [isNull == 1];
      col := col + 1;
    }
    r := Ok(nulls);
  }

  /** Reading bit 7 - k of a byte assembled MSB first from eight 0/1 digits gives digit k. */
  lemma ExtractBit(b0: nat, b1: nat, b2: nat, b3: nat, b4: nat, b5: nat, b6: nat, b7: nat, k: nat)
    requires b0 <= 1 && b1 <= 1 && b2 <= 1 && b3 <= 1 && b4 <= 1 && b5 <= 1 && b6 <= 1 && b7 <= 1
    requires k < 8
    ensures var x := 128 * b0 + 64 * b1 + 32 * b2 + 16 * b3 + 8 * b4 + 4 * b5 + 2 * b6 + b7;
            (x / Pow2[7 - k]) % 2 == [b0, b1, b2, b3, b4, b5, b6, b7][k]
  {
    var x := 128 * b0 + 64 * b1 + 32 * b2 + 16 * b3 + 8 * b4 + 4 * b5 + 2 * b6 + b7;
    if k == 0 {
      DigitOf(x, 0, b0, 64 * b1 + 32 * b2 + 16 * b3 + 8 * b4 + 4 * b5 + 2 * b6 + b7, 128);
    } else if k == 1 {
      DigitOf(x, b0, b1, 32 * b2 + 16 * b3 + 8 * b4 + 4 * b5 + 2 * b6 + b7, 64);
    } else if k == 2 {
      DigitOf(x, 2 * b0 + b1, b2, 16 * b3 + 8 * b4 + 4 * b5 + 2 * b6 + b7, 32);
    } else if k == 3 {
      DigitOf(x, 4 * b0 + 2 * b1 + b2, b3, 8 * b4 + 4 * b5 + 2 * b6 + b7, 16);
    } else if k == 4 {
      DigitOf(x, 8 * b0 + 4 * b1 + 2 * b2 + b3, b4, 4 * b5 + 2 * b6 + b7, 8);
    } else if k == 5 {
      DigitOf(x, 16 * b0 + 8 * b1 + 4 * b2 + 2 * b3 + b4, b5, 2 * b6 + b7, 4);
    } else if k == 6 {
      DigitOf(x, 32 * b0 + 16 * b1 + 8 * b2 + 4 * b3 + 2 * b4 + b5, b6, b7, 2);
    } else {
      DigitOf(x, 64 * b0 + 32 * b1 + 16 * b2 + 8 * b3 + 4 * b4 + 2 * b5 + b6, b7, 0, 1);
    }
  }

  /** The digit of weight `p` of `(2 * hi + bit) * p + lo`, where `lo < p`, is `bit`. */
  lemma DigitOf(x: int, hi: int, bit: int, lo: int, p: int)
    requires p > 0 && 0 <= bit <= 1 && 0 <= lo < p && x == (2 * hi + bit) * p + lo
    ensures (x / p) % 2 == bit
  {
    DivModUnique(x, 2 * hi + bit, lo, p);
    DivModUnique(2 * hi + bit, hi, bit, 2);
  }

  lemma IndicatorByteExpanded(nulls: seq<bool>, j: nat)
    ensures var base := 8 * j;
            IndicatorByte(nulls, j) ==
              128 * FlagBit(nulls, base) + 64 * FlagBit(nulls, base + 1) + 32 * FlagBit(nulls, base + 2)
              + 16 * FlagBit(nulls, base + 3) + 8 * FlagBit(nulls, base + 4) + 4 * FlagBit(nulls, base + 5)
              + 2 * FlagBit(nulls, base + 6) + FlagBit(nulls, base + 7)
  {
    var base := 8 * j;
    assert PartialByte(nulls, base, 1) == 128 * FlagBit(nulls, base);
    assert PartialByte(nulls, base, 2) == PartialByte(nulls, base, 1) + 64 * FlagBit(nulls, base + 1);
    assert PartialByte(nulls, base, 3) == PartialByte(nulls, base, 2) + 32 * FlagBit(nulls, base + 2);
    assert PartialByte(nulls, base, 4) == PartialByte(nulls, base, 3) + 16 * FlagBit(nulls, base + 3);
    assert PartialByte(nulls, base, 5) == PartialByte(nulls, base, 4) + 8 * FlagBit(nulls, base + 4);
    assert PartialByte(nulls, base, 6) == PartialByte(nulls, base, 5) + 4 * FlagBit(nulls, base + 5);
    assert PartialByte(nulls, base, 7) == PartialByte(nulls, base, 6) + 2 * FlagBit(nulls, base + 6);
  }

  /** Flag i of packed indicator data is bit 7 - (i % 8) of byte i / 8, and it is set exactly
      when column i is null; every bit past the last column is zero. */
  lemma FlagOfIndicator(nulls: seq<bool>, len: nat, i: nat)
    requires i < 8 * len
    ensures FlagOf(IndicatorBytes(nulls, len), i) == (i < |nulls| && nulls[i])
  {
    var j, k := i / 8, i % 8;
    var base := 8 * j;
    assert base + k == i && j < len;
    assert IndicatorBytes(nulls, len)[j] == IndicatorByte(nulls, j);
    IndicatorByteExpanded(nulls, j);
    ExtractBit(FlagBit(nulls, base), FlagBit(nulls, base + 1), FlagBit(nulls, base + 2),
               FlagBit(nulls, base + 3), FlagBit(nulls, base + 4), FlagBit(nulls, base + 5),
               FlagBit(nulls, base + 6), FlagBit(nulls, base + 7), k);
    FlagBitAt(nulls, base, k);
  }

  /** Digit k of the eight flag bits from `base` is the flag of column base + k. */
  lemma FlagBitAt(nulls: seq<bool>, base: nat, k: nat)
    requires k < 8
    ensures [FlagBit(nulls, base), FlagBit(nulls, base + 1), FlagBit(nulls, base + 2), FlagBit(nulls, base + 3),
             FlagBit(nulls, base + 4), FlagBit(nulls, base + 5), FlagBit(nulls, base + 6), FlagBit(nulls, base + 7)][k]
            == FlagBit(nulls, base + k)
  {
  }

  /** Unpacking packed indicator data gives the flags back (for any number of columns). */
  lemma IndicatorRoundTrip(nulls: seq<bool>)
    ensures Flags(IndicatorBytes(nulls, IndicatorLength(|nulls|)), |nulls|) == Ok(nulls)
  {
    var len := IndicatorLength(|nulls|);
    var data := IndicatorBytes(nulls, len);
    forall i | 0 <= i < |nulls|
      ensures FlagOf(data, i) == nulls[i]
    {
      FlagOfIndicator(nulls, len, i);
    }
    assert Flags(data, |nulls|).value == nulls;
  }

  /** Bytes after the indicator data do not change the flags read from it. */
  lemma FlagsPrefix(data: seq<Byte>, more: seq<Byte>, n: nat)
    requires IndicatorLength(n) <= |data|
    ensures Flags(data + more, n) == Flags(data, n)
  {
    var r := IndicatorLength(n);
    assert n <= 8 * r <= 8 * |data|;
    var a := Flags(data + more, n).value;
    var b := Flags(data, n).value;
    forall i | 0 <= i < n
      ensures a[i] == b[i]
    {
      assert i / 8 < |data| by {
        assert i < 8 * |data|;
      }
      assert (data + more)[i / 8] == data[i / 8];
    }
    assert a == b;
  }
}
