/** Bytes, 8-bit characters and little-endian integers.

    The converter runs under Python 2, where a `str` is a string of bytes: every
    character of a field is one octet. Multi-byte integers are written with the
    struct module in native order without alignment, which on the x86 Linux target
    is little-endian; the model writes that order out explicitly. */
module Bytes {

  type Byte = b: int | 0 <= b < 256

  /** A character of a Python 2 byte string. */
  type Char8 = c: char | c as int < 256 witness '\0'

  type Text = seq<Char8>

  function Ord(c: Char8): Byte { c as int }

  function Chr(b: Byte): Char8 { b as char }

  /** The octets of a byte string. */
  function ToBytes(t: Text): (r: seq<Byte>)
    ensures |r| == |t|
    ensures forall i :: 0 <= i < |t| ==> r[i] == Ord(t[i])
  {
    seq(|t|, i requires 0 <= i < |t| => Ord(t[i]))
  }

  /** The byte string spelled by some octets. */
  function FromBytes(b: seq<Byte>): (r: Text)
    ensures |r| == |b|
    ensures forall i :: 0 <= i < |b| ==> Ord(r[i]) == b[i]
  {
    seq(|b|, i requires 0 <= i < |b| => Chr(b[i]))
  }

  lemma FromToBytes(t: Text)
    ensures FromBytes(ToBytes(t)) == t
  {
  }

  lemma ToFromBytes(b: seq<Byte>)
    ensures ToBytes(FromBytes(b)) == b
  {
  }

  /** Python slicing `s[i:j]` for non-negative bounds: out-of-range bounds are clamped. */
  function Slice<T>(s: seq<T>, i: nat, j: nat): (r: seq<T>)
    ensures |r| <= |s|
    ensures i <= j <= |s| ==> r == s[i..j]
    ensures |s| <= i || j <= i ==> r == []
    ensures i < j && |s| <= j && i < |s| ==> r == s[i..]
  {
    if |s| <= i || j <= i then [] else s[i..if j <= |s| then j else |s|]
  }

  /** Python slicing `s[i:]` for a non-negative bound. */
  function Drop<T>(s: seq<T>, i: nat): (r: seq<T>)
    ensures i <= |s| ==> r == s[i..]
    ensures |s| <= i ==> r == []
  {
    if |s| <= i then [] else s[i..]
  }

  function Pow256(w: nat): (r: nat)
    ensures r >= 1
  {
    if w == 0 then 1 else 256 * Pow256(w - 1)
  }

  /** The `w` little-endian bytes of an unsigned value (the value taken modulo 256^w). */
  function EncodeLE(v: nat, w: nat): (r: seq<Byte>)
    ensures |r| == w
  {
    if w == 0 then [] else [v % 256] + EncodeLE(v / 256, w - 1)
  }

  /** The unsigned value of little-endian bytes. */
  function DecodeLE(s: seq<Byte>): (r: nat)
    ensures r < Pow256(|s|)
  {
    if s == [] then 0 else s[0] + 256 * DecodeLE(s[1..])
  }

  lemma {:induction false} DecodeEncodeLE(v: nat, w: nat)
    requires v < Pow256(w)
    ensures DecodeLE(EncodeLE(v, w)) == v
  {
    if w > 0 {
      DecodeEncodeLE(v / 256, w - 1);
      assert EncodeLE(v, w)[1..] == EncodeLE(v / 256, w - 1);
    }
  }

  lemma {:induction false} EncodeDecodeLE(s: seq<Byte>)
    ensures EncodeLE(DecodeLE(s), |s|) == s
  {
    if s != [] {
      EncodeDecodeLE(s[1..]);
      var d := DecodeLE(s[1..]);
      assert (s[0] + 256 * d) % 256 == s[0];
      assert (s[0] + 256 * d) / 256 == d;
    }
  }

  /** The smallest value a signed integer of `w` bytes can hold (-2^(8w-1)). */
  function SignedMin(w: nat): int
    requires w > 0
  {
    -128 * Pow256(w - 1)
  }

  /** Whether `v` fits a two's-complement integer of `w` bytes (struct formats b, h, i, q). */
  predicate InSigned(v: int, w: nat) {
    w > 0 && SignedMin(w) <= v < -SignedMin(w)
  }

  /** Two's-complement little-endian encoding of a signed value. */
  function EncodeSigned(v: int, w: nat): (r: seq<Byte>)
    requires InSigned(v, w)
    ensures |r| == w
  {
    EncodeLE(if v < 0 then v + Pow256(w) else v, w)
  }

  /** Two's-complement reading of little-endian bytes. */
  function DecodeSigned(s: seq<Byte>): (r: int)
    requires |s| > 0
    ensures InSigned(r, |s|)
  {
    var u := DecodeLE(s);
    if u >= -SignedMin(|s|) then u - Pow256(|s|) else u
  }

  lemma DecodeEncodeSigned(v: int, w: nat)
    requires InSigned(v, w)
    ensures DecodeSigned(EncodeSigned(v, w)) == v
  {
    var u := if v < 0 then v + Pow256(w) else v;
    DecodeEncodeLE(u, w);
  }

  /** Powers of 256 the fixed-width formats use. */
  lemma Pow256Values()
    ensures Pow256(0) == 1 && Pow256(1) == 256 && Pow256(2) == 65536
    ensures Pow256(3) == 16777216 && Pow256(4) == 4294967296
    ensures Pow256(7) == 72057594037927936 && Pow256(8) == 18446744073709551616
  {
    assert Pow256(1) == 256;
    assert Pow256(2) == 65536;
    assert Pow256(3) == 16777216;
    assert Pow256(4) == 4294967296;
    assert Pow256(5) == 1099511627776;
    assert Pow256(6) == 281474976710656;
    assert Pow256(7) == 72057594037927936;
  }

  lemma MulNonNegative(a: int, b: int)
    requires a >= 0 && b >= 0
    ensures a * b >= 0
  {
  }

  /** Division by a positive divisor is determined by quotient and remainder. */
  lemma DivModUnique(x: int, q: int, r: int, d: int)
    requires d > 0 && 0 <= r < d && x == q * d + r
    ensures x / d == q && x % d == r
  {
    var t := x / d - q;
    assert x == (x / d) * d + x % d;
    assert t * d == r - x % d;
    if t > 0 {
      MulNonNegative(t - 1, d);
      assert false;
    } else if t < 0 {
      MulNonNegative(-t - 1, d);
      assert false;
    }
  }

  /** Concatenation regrouped, kept as a lemma so that callers need not unfold it. */
  lemma Associative<T>(a: seq<T>, b: seq<T>, c: seq<T>)
    ensures a + b + c == a + (b + c)
  {
  }
}
