/** Decimal digit strings: Python's `int()` on text, `str()` of an integer,
    zero padding (`'{0:04}'.format`, `string.zfill`), `strip()` and `split()`. */
module NumText {
  import opened Bytes
  import opened Errors

  /** The characters Python 2 treats as white space (`str.strip()`, regex `\s`). */
  predicate IsSpace(c: Char8) {
    c == ' ' || c == '\t' || c == '\n' || c == '\r' || c as int == 11 || c as int == 12
  }

  predicate IsDigit(c: Char8) { '0' <= c <= '9' }

  predicate AllDigits(s: Text) { forall i :: 0 <= i < |s| ==> IsDigit(s[i]) }

  function DigitValue(c: Char8): nat
    requires IsDigit(c)
  {
    c as int - '0' as int
  }

  function DigitChar(d: nat): (c: Char8)
    requires d < 10
    ensures IsDigit(c) && DigitValue(c) == d
  {
    ('0' as int + d) as char
  }

  /** Whether the text has no superfluous leading zero. */
  predicate NoLeadingZero(s: Text) { |s| <= 1 || s[0] != '0' }

  function Pow10(n: nat): (r: nat)
    ensures r >= 1
  {
    if n == 0 then 1 else 10 * Pow10(n - 1)
  }

  /** The value of a string of decimal digits, read most significant digit first. */
  function DigitsValue(s: Text): (r: nat)
    requires AllDigits(s)
    ensures r < Pow10(|s|)
  {
    if s == [] then 0 else 10 * DigitsValue(s[..|s| - 1]) + DigitValue(s[|s| - 1])
  }

  /** Python `str(n)` for a non-negative integer. */
  function NatToText(n: nat): (r: Text)
    ensures |r| >= 1 && AllDigits(r) && NoLeadingZero(r)
    ensures DigitsValue(r) == n
  {
    if n < 10 then [DigitChar(n)]
    else
      var p := NatToText(n / 10);
      assert (p + [DigitChar(n % 10)])[..|p|] == p;
      p + [DigitChar(n % 10)]
  }

  /** Python `str(i)` for any integer. */
  function IntToText(i: int): (r: Text)
    ensures |r| >= 1
  {
    if i < 0 then "-" + NatToText(-i) else NatToText(i)
  }

  function Zeros(k: int): (r: Text)
    ensures |r| == if k < 0 then 0 else k
    ensures AllDigits(r)
    ensures forall i :: 0 <= i < |r| ==> r[i] == '0'
  {
    if k <= 0 then [] else Zeros(k - 1) + "0"
  }

  /** Python `string.zfill(s, w)` for a string without a sign: left-pad with '0' to width `w`. */
  function ZFill(s: Text, w: int): (r: Text)
    ensures |r| == if |s| < w then w else |s|
  {
    Zeros(w - |s|) + s
  }

  /** Python `'{0:0w}'.format(n)`: zero padding to width `w`, the sign counted in the width. */
  function ZeroPad(n: int, w: nat): Text {
    if n < 0 then "-" + ZFill(NatToText(-n), w - 1) else ZFill(NatToText(n), w)
  }

  predicate AllSpace(s: Text) { forall i :: 0 <= i < |s| ==> IsSpace(s[i]) }

  function StripLeft(s: Text): (r: Text)
    ensures |r| <= |s| && r == s[|s| - |r|..]
    ensures r == [] || !IsSpace(r[0])
    ensures forall i :: 0 <= i < |s| - |r| ==> IsSpace(s[i])
  {
    if s != [] && IsSpace(s[0]) then StripLeft(s[1..]) else s
  }

  function StripRight(s: Text): (r: Text)
    ensures |r| <= |s| && r == s[..|r|]
    ensures r == [] || !IsSpace(r[|r| - 1])
    ensures forall i :: |r| <= i < |s| ==> IsSpace(s[i])
  {
    if s != [] && IsSpace(s[|s| - 1]) then StripRight(s[..|s| - 1]) else s
  }

  /** Python `s.strip()`. */
  function Strip(s: Text): Text {
    StripRight(StripLeft(s))
  }

  /** Whether a non-empty text has white space at neither end, so that `strip()` keeps it. */
  predicate Trimmed(s: Text) {
    s != [] && !IsSpace(s[0]) && !IsSpace(s[|s| - 1])
  }

  lemma StripTrimmed(s: Text)
    requires Trimmed(s)
    ensures Strip(s) == s
  {
  }

  /** The character sequence of `s` with every `c` removed (Python `s.translate(None, c)`). */
  function Remove(s: Text, c: set<Char8>): (r: Text)
    ensures |r| <= |s|
    ensures forall i :: 0 <= i < |r| ==> r[i] !in c
    ensures forall x :: x !in c ==> multiset(r)[x] == multiset(s)[x]
  {
    if s == [] then []
    else
      assert s == [s[0]] + s[1..];
      (if s[0] in c then [] else [s[0]]) + Remove(s[1..], c)
  }

  /** What `translate` keeps of one character. */
  function KeepChar(x: Char8, c: set<Char8>): Text {
    if x in c then [] else [x]
  }

  lemma RemoveCons(s: Text, c: set<Char8>)
    requires s != []
    ensures Remove(s, c) == KeepChar(s[0], c) + Remove(s[1..], c)
  {
  }

  /** `translate` works character by character: the result for a concatenation is the
      concatenation of the results. */
  lemma {:induction false} RemoveAppend(a: Text, b: Text, c: set<Char8>)
    ensures Remove(a + b, c) == Remove(a, c) + Remove(b, c)
    decreases |a|
  {
    if a != [] {
      var ab := a + b;
      assert ab[0] == a[0] && ab[1..] == a[1..] + b;
      RemoveCons(ab, c);
      RemoveCons(a, c);
      RemoveAppend(a[1..], b, c);
      Assoc(KeepChar(a[0], c), Remove(a[1..], c), Remove(b, c));
    } else {
      assert a + b == b;
    }
  }

  /** One character is kept exactly when it is not removed. */
  lemma RemoveOne(x: Char8, c: set<Char8>)
    ensures Remove([x], c) == KeepChar(x, c)
  {
    RemoveCons([x], c);
  }

  lemma Assoc(a: Text, b: Text, d: Text)
    ensures a + (b + d) == a + b + d
  {
  }

  /** Python `s.split(sep)` for a one-character separator. */
  function Split(s: Text, sep: Char8): (r: seq<Text>)
    ensures |r| >= 1
    decreases |s|
  {
    if sep !in s then [s]
    else
      var k := IndexOf(s, sep);
      [s[..k]] + Split(s[k + 1..], sep)
  }

  function IndexOf(s: Text, c: Char8): (k: nat)
    requires c in s
    ensures k < |s| && s[k] == c && c !in s[..k]
  {
    if s[0] == c then 0 else 1 + IndexOf(s[1..], c)
  }

  /** Python 2 `int(t)` on text: optional white space, an optional sign, white space after a
      sign, at least one digit, optional white space. */
  function ParseInt(t: Text): (r: Result<int>)
    ensures r.Err? ==> r.error == NotAnInteger
  {
    var s := Strip(t);
    if s == [] then Err(NotAnInteger)
    else
      var body := if s[0] == '-' || s[0] == '+' then StripLeft(s[1..]) else s;
      if body == [] || !AllDigits(body) then Err(NotAnInteger)
      else Ok(SignedDigits(s[0] == '-', body))
  }

  // ---------------------------------------------------------------------------
  // Lemmas relating digit strings and their values

  lemma DigitsValueAppend(s: Text, c: Char8)
    requires AllDigits(s) && IsDigit(c)
    ensures DigitsValue(s + [c]) == 10 * DigitsValue(s) + DigitValue(c)
  {
    assert (s + [c])[..|s|] == s;
  }

  /** A leading zero does not change the value. */
  lemma {:induction false} LeadingZeroValue(e: Text)
    requires AllDigits(e)
    ensures DigitsValue("0" + e) == DigitsValue(e)
  {
    if e != [] {
      var e' := e[..|e| - 1];
      LeadingZeroValue(e');
      assert ("0" + e)[..|e|] == "0" + e';
    }
  }

  lemma {:induction false} ZerosValue(k: int)
    ensures DigitsValue(Zeros(k)) == 0
  {
    if k > 0 {
      ZerosValue(k - 1);
      DigitsValueAppend(Zeros(k - 1), '0');
    }
  }

  /** A digit string that starts with a non-zero digit has a non-zero value. */
  lemma {:induction false} NonZeroLeadPositive(s: Text)
    requires AllDigits(s) && s != [] && s[0] != '0'
    ensures DigitsValue(s) >= 1
  {
    if |s| > 1 {
      NonZeroLeadPositive(s[..|s| - 1]);
    }
  }

  /** `str(int(s)) == s` for a digit string without superfluous leading zeros. */
  lemma {:induction false} NatToTextOfDigits(s: Text)
    requires AllDigits(s) && s != [] && NoLeadingZero(s)
    ensures NatToText(DigitsValue(s)) == s
    decreases |s|
  {
    var c := s[|s| - 1];
    var s' := s[..|s| - 1];
    if |s| == 1 {
      assert s' == [] && s == [c];
    } else {
      NatToTextOfDigits(s');
      NonZeroLeadPositive(s');
      LastDigit(s', c);
      assert s == s' + [c];
    }
  }

  /** `str()` of a number of two or more digits: the digits of all but the last, then the last. */
  lemma LastDigit(s: Text, c: Char8)
    requires AllDigits(s) && IsDigit(c) && DigitsValue(s) >= 1
    ensures NatToText(DigitsValue(s + [c])) == NatToText(DigitsValue(s)) + [DigitChar(DigitValue(c))]
    ensures DigitChar(DigitValue(c)) == c
  {
    var v := DigitsValue(s);
    DigitsValueAppend(s, c);
    DivMod10(v, DigitValue(c));
  }

  lemma DivMod10(q: nat, r: nat)
    requires r < 10
    ensures (10 * q + r) / 10 == q && (10 * q + r) % 10 == r
  {
  }

  /** `zfill(str(int(d)), len(d)) == d` for every digit string: leading zeros come back. */
  lemma {:induction false} ZFillOfDigits(d: Text)
    requires AllDigits(d) && d != []
    ensures ZFill(NatToText(DigitsValue(d)), |d|) == d
    decreases |d|
  {
    if NoLeadingZero(d) {
      NatToTextOfDigits(d);
      assert Zeros(0) + d == d;
    } else {
      var e := d[1..];
      assert d == "0" + e;
      LeadingZeroValue(e);
      ZFillOfDigits(e);
      var n := NatToText(DigitsValue(e));
      ZerosFront(|e| - |n|);
      Assoc("0", Zeros(|e| - |n|), n);
    }
  }

  lemma {:induction false} ZerosFront(k: nat)
    ensures Zeros(k + 1) == "0" + Zeros(k)
  {
    if k > 0 {
      ZerosFront(k - 1);
    }
  }

  /** Zero padding of a non-negative value to a width that holds it gives that many digits back. */
  lemma ZeroPadDigits(d: Text)
    requires AllDigits(d) && d != []
    ensures ZeroPad(DigitsValue(d), |d|) == d
  {
    ZFillOfDigits(d);
  }

  lemma {:induction false} Pow10Monotone(a: nat, b: nat)
    requires a <= b
    ensures Pow10(a) <= Pow10(b)
  {
    if a < b {
      Pow10Monotone(a, b - 1);
    }
  }

  lemma Pow10Values()
    ensures Pow10(2) == 100 && Pow10(4) == 10000 && Pow10(9) == 1000000000
    ensures Pow10(18) == 1000000000000000000
  {
    assert Pow10(2) == 100;
    assert Pow10(4) == 10000;
    assert Pow10(6) == 1000000;
    assert Pow10(9) == 1000000000;
    assert Pow10(12) == 1000000000000;
    assert Pow10(15) == 1000000000000000;
  }

  /** A value below 10^k has at most k digits. */
  lemma {:induction false} NatToTextLength(n: nat, k: nat)
    requires k >= 1 && n < Pow10(k)
    ensures |NatToText(n)| <= k
  {
    if n >= 10 {
      assert Pow10(k) == 10 * Pow10(k - 1);
      NatToTextLength(n / 10, k - 1);
    }
  }

  lemma {:induction false} IndexOfAt(s: Text, c: Char8, k: nat)
    requires k < |s| && s[k] == c && c !in s[..k]
    ensures IndexOf(s, c) == k
  {
    if k > 0 {
      assert s[0] in s[..k];
      assert s[1..][..k - 1] == s[1..k];
      IndexOfAt(s[1..], c, k - 1);
    }
  }

  lemma {:induction false} RemoveNothing(s: Text, c: set<Char8>)
    requires forall i :: 0 <= i < |s| ==> s[i] !in c
    ensures Remove(s, c) == s
  {
    if s != [] {
      RemoveNothing(s[1..], c);
    }
  }

  /** `lstrip()` removes a leading run of white space and stops at the first other character. */
  lemma {:induction false} StripLeftSpace(p: Text, x: Text)
    requires AllSpace(p)
    requires x == [] || !IsSpace(x[0])
    ensures StripLeft(p + x) == x
  {
    if p != [] {
      assert (p + x)[0] == p[0] && (p + x)[1..] == p[1..] + x;
      StripLeftSpace(p[1..], x);
    } else {
      assert p + x == x;
    }
  }

  lemma StripNoSpace(s: Text)
    requires forall i :: 0 <= i < |s| ==> !IsSpace(s[i])
    ensures Strip(s) == s
  {
  }

  function Sign(neg: bool): Text { if neg then "-" else "" }

  /** The value of digits under an optional minus sign. */
  function SignedDigits(neg: bool, d: Text): int
    requires AllDigits(d)
  {
    var v: int := DigitsValue(d);
    if neg then -v else v
  }

  /** `int()` of an optional minus sign followed by digits. */
  lemma ParseSigned(neg: bool, d: Text)
    requires d != [] && AllDigits(d)
    ensures ParseInt(Sign(neg) + d) == Ok(SignedDigits(neg, d))
  {
    var m := if neg then Minus else NoSign;
    ParseIntComplete([], m, [], d, []);
    SignedNoSpace(neg, m, d);
  }

  lemma SignedNoSpace(neg: bool, m: SignMark, d: Text)
    requires m == if neg then Minus else NoSign
    ensures [] + SignText(m) + [] + d + [] == Sign(neg) + d
  {
    var x := SignText(m);
    assert x == Sign(neg);
    assert [] + x + [] + d + [] == x + d;
  }

  /** `int()` from the stripped text and the digits after the sign. */
  lemma ParseIntOf(t: Text, s: Text, b: Text)
    requires Strip(t) == s && s != []
    requires b == if s[0] == '-' || s[0] == '+' then StripLeft(s[1..]) else s
    requires b != [] && AllDigits(b)
    ensures ParseInt(t) == Ok(SignedDigits(s[0] == '-', b))
  {
  }

  /** The sign in front of the digits of an integer literal. */
  datatype SignMark = NoSign | Plus | Minus

  function SignText(m: SignMark): Text {
    match m
    case NoSign => []
    case Plus => "+"
    case Minus => "-"
  }

  /** The texts `int()` accepts: white space, an optional sign, white space only after a
      sign, digits and white space. */
  predicate IntShape(p: Text, m: SignMark, w: Text, d: Text, q: Text) {
    AllSpace(p) && AllSpace(w) && AllSpace(q) && (m == NoSign ==> w == [])
    && d != [] && AllDigits(d)
  }

  /** Every text of that shape parses, to the value of its digits under its sign. */
  lemma ParseIntComplete(p: Text, m: SignMark, w: Text, d: Text, q: Text)
    requires IntShape(p, m, w, d, q)
    ensures ParseInt(p + SignText(m) + w + d + q) == Ok(SignedDigits(m == Minus, d))
  {
    var s, t := IntShapeStrip(p, m, w, d, q);
    SignBody(s, m, w, d);
    ParseIntOf(t, s, d);
  }

  /** What `int()` keeps after the sign of a stripped literal: the digits. */
  lemma SignBody(s: Text, m: SignMark, w: Text, d: Text)
    requires AllSpace(w) && (m == NoSign ==> w == []) && d != [] && AllDigits(d)
    requires s == SignText(m) + w + d
    ensures s != [] && (s[0] == '-' <==> m == Minus)
    ensures d == if s[0] == '-' || s[0] == '+' then StripLeft(s[1..]) else s
  {
    if m == NoSign {
      assert s == d;
      assert IsDigit(d[0]);
    } else {
      assert s[0] == SignText(m)[0];
      assert s[1..] == w + d;
      StripLeftSpace(w, d);
    }
  }

  /** `strip()` of a text of that shape keeps the sign, the white space after it and the digits. */
  lemma IntShapeStrip(p: Text, m: SignMark, w: Text, d: Text, q: Text) returns (s: Text, t: Text)
    requires IntShape(p, m, w, d, q)
    ensures s == SignText(m) + w + d && t == p + SignText(m) + w + d + q && Strip(t) == s
  {
    s := SignText(m) + w + d;
    t := p + SignText(m) + w + d + q;
    Regroup(p, SignText(m), w, d, q);
    SignedEnds(m, w, d);
    StripEnds(p, s, q);
  }

  /** A signed literal starts with its sign or its first digit and ends with its last digit. */
  lemma SignedEnds(m: SignMark, w: Text, d: Text)
    requires (m == NoSign ==> w == []) && d != [] && AllDigits(d)
    ensures var s := SignText(m) + w + d; !IsSpace(s[0]) && !IsSpace(s[|s| - 1])
  {
    var s := SignText(m) + w + d;
    assert s[|s| - 1] == d[|d| - 1];
    if m == NoSign {
      assert s == d;
    } else {
      assert s[0] == SignText(m)[0];
    }
  }

  /** `strip()` removes white space around a text that has none at its ends. */
  lemma StripEnds(p: Text, s: Text, q: Text)
    requires AllSpace(p) && AllSpace(q) && s != [] && !IsSpace(s[0]) && !IsSpace(s[|s| - 1])
    ensures Strip(p + s + q) == s
  {
    assert p + s + q == p + (s + q);
    assert (s + q)[0] == s[0];
    StripLeftSpace(p, s + q);
    StripRightSpace(s, q);
  }

  /** Conversely, every text that parses has that shape, and its value is the one above. */
  lemma ParseIntSound(t: Text) returns (p: Text, m: SignMark, w: Text, d: Text, q: Text)
    requires ParseInt(t).Ok?
    ensures IntShape(p, m, w, d, q) && t == p + SignText(m) + w + d + q
    ensures ParseInt(t).value == SignedDigits(m == Minus, d)
  {
    var s: Text;
    s, d := ParseIntSteps(t);
    p, q := StripParts(t, s);
    m, w := SignParts(s, d);
    Regroup(p, SignText(m), w, d, q);
  }

  lemma Regroup(p: Text, a: Text, w: Text, d: Text, q: Text)
    ensures p + (a + w + d) + q == p + a + w + d + q
  {
  }

  /** `strip()` takes white space off both ends and nothing else. */
  lemma StripParts(t: Text, s: Text) returns (p: Text, q: Text)
    requires s == Strip(t)
    ensures AllSpace(p) && AllSpace(q) && t == p + s + q
  {
    p := LeftSpace(t);
    q := RightSpace(StripLeft(t));
    Assoc(p, s, q);
  }

  /** What `lstrip()` removes is white space at the front. */
  lemma LeftSpace(t: Text) returns (p: Text)
    ensures AllSpace(p) && t == p + StripLeft(t)
  {
    var l := StripLeft(t);
    p := t[..|t| - |l|];
    assert t == p + t[|t| - |l|..];
  }

  /** What `rstrip()` removes is white space at the end. */
  lemma RightSpace(t: Text) returns (q: Text)
    ensures AllSpace(q) && t == StripRight(t) + q
  {
    var r := StripRight(t);
    q := t[|r|..];
    assert t == t[..|r|] + q;
  }

  /** The sign of a stripped literal, the white space after it and the digits. */
  lemma SignParts(s: Text, d: Text) returns (m: SignMark, w: Text)
    requires s != [] && d == if s[0] == '-' || s[0] == '+' then StripLeft(s[1..]) else s
    ensures AllSpace(w) && (m == NoSign ==> w == []) && s == SignText(m) + w + d
    ensures m == Minus <==> s[0] == '-'
  {
    if s[0] == '-' {
      m := Minus;
      w := SpaceAfterSign(s, d);
    } else if s[0] == '+' {
      m := Plus;
      w := SpaceAfterSign(s, d);
    } else {
      m, w := NoSign, [];
      assert s == d;
    }
  }

  /** A one-character sign, then white space, then what `lstrip()` leaves of the rest. */
  lemma SpaceAfterSign(s: Text, d: Text) returns (w: Text)
    requires s != [] && d == StripLeft(s[1..])
    ensures AllSpace(w) && s == [s[0]] + w + d
  {
    w := LeftSpace(s[1..]);
    assert s == [s[0]] + s[1..];
    Assoc([s[0]], w, d);
  }

  /** The stripped text and the digits of a text that parses. */
  lemma ParseIntSteps(t: Text) returns (s: Text, b: Text)
    requires ParseInt(t).Ok?
    ensures s == Strip(t) && s != [] && b != [] && AllDigits(b)
    ensures b == if s[0] == '-' || s[0] == '+' then StripLeft(s[1..]) else s
    ensures ParseInt(t).value == SignedDigits(s[0] == '-', b)
  {
    s := Strip(t);
    b := if s[0] == '-' || s[0] == '+' then StripLeft(s[1..]) else s;
  }

  /** `rstrip()` removes a trailing run of white space after a text that does not end in one. */
  lemma {:induction false} StripRightSpace(x: Text, q: Text)
    requires AllSpace(q)
    requires x == [] || !IsSpace(x[|x| - 1])
    ensures StripRight(x + q) == x
    decreases |q|
  {
    if q != [] {
      var q' := q[..|q| - 1];
      assert (x + q)[..|x + q| - 1] == x + q';
      StripRightSpace(x, q');
    } else {
      assert x + q == x;
    }
  }
}
