/** The text codecs of src/osfx_solidity.c: Base62 values, decimal addresses and
    base64url timestamps (alphabet of section 5 of RFC 4648). */
module Solidity {
  import opened Bytes
  import opened Numerals

  const TWO63: int := 0x8000_0000_0000_0000
  const TWO64: int := 0x1_0000_0000_0000_0000

  // ---- Base62 ------------------------------------------------------------

  function Char62(d: nat): byte
    requires d < 62
  {
    if d < 10 then 48 + d else if d < 36 then 97 + (d - 10) else 65 + (d - 36)
  }

  function Digit62(c: byte): (d: Option<nat>)
    ensures d.Some? ==> d.value < 62
  {
    if 48 <= c <= 57 then Some(c - 48)
    else if 97 <= c <= 122 then Some(10 + (c - 97))
    else if 65 <= c <= 90 then Some(36 + (c - 65))
    else None
  }

  lemma CharDigit62(d: nat, c: byte)
    ensures d < 62 ==> Digit62(Char62(d)) == Some(d)
    ensures Digit62(c).Some? ==> Char62(Digit62(c).value) == c
  {
  }

  predicate AllDigits62(s: Text) {
    forall i :: 0 <= i < |s| ==> Digit62(s[i]).Some?
  }

  function Digits62(s: Text): (ds: seq<nat>)
    requires AllDigits62(s)
    ensures |ds| == |s| && InBase(ds, 62)
  {
    seq(|s|, i requires 0 <= i < |s| => Digit62(s[i]).value)
  }

  function Chars62(ds: seq<nat>): (s: Text)
    requires InBase(ds, 62)
    ensures |s| == |ds| && AllDigits62(s)
    ensures Digits62(s) == ds
  {
    seq(|ds|, i requires 0 <= i < |ds| => Char62(ds[i]))
  }

  function Unsigned62(n: nat): (s: Text)
    ensures s != [] && AllDigits62(s) && s[0] != MINUS
  {
    Chars62(Numeral(n, 62))
  }

  /** The text of a value: a sign if negative, then the shortest Base62 numeral. */
  function Text62(v: int): (s: Text)
    ensures s != []
  {
    if v < 0 then [MINUS] + Unsigned62(-v) else Unsigned62(v)
  }

  function Signed64(u: nat): (v: int)
    requires u < TWO64
    ensures u < TWO63 ==> v == u
    ensures -TWO63 <= v < TWO63
  {
    if u >= TWO63 then u - TWO64 else u
  }

  /** The accumulator wraps at 2^64 and is read as a two's complement number; its
      one value without a counterpart is its own negation. */
  function Wrapped(neg: bool, u: nat): int {
    var v := Signed64(u % TWO64);
    if neg && v != -TWO63 then -v else v
  }

  lemma WrappedSmall(neg: bool, u: int)
    requires 0 <= u < TWO63
    ensures Wrapped(neg, u) == if neg then -u else u
  {
    assert u % TWO64 == u;
  }

  function DecodeDigits62(neg: bool, digits: Text): Option<int> {
    if digits == [] || !AllDigits62(digits) then None
    else Some(Wrapped(neg, Value(Digits62(digits), 62)))
  }

  /** What osfx_b62_decode_i64 computes. */
  function Decode62(s: Text): Option<int> {
    if s != [] && s[0] == MINUS then DecodeDigits62(true, s[1..]) else DecodeDigits62(false, s)
  }

  lemma Pow62()
    ensures Pow(62, 11) > TWO63
  {
    assert Pow(62, 2) == 3844;
    assert Pow(62, 4) == 3844 * Pow(62, 2);
    assert Pow(62, 6) == 3844 * Pow(62, 4);
    assert Pow(62, 8) == 3844 * Pow(62, 6);
    assert Pow(62, 10) == 3844 * Pow(62, 8);
  }

  /** Every value that C can negate takes at most 12 characters. */
  lemma Text62Length(v: int)
    requires -TWO63 < v < TWO63
    ensures |Text62(v)| <= if v < 0 then 12 else 11
    ensures forall i :: 0 <= i < |Text62(v)| ==> Digit62(Text62(v)[i]).Some? || Text62(v)[i] == MINUS
  {
    Pow62();
    NumeralLength(if v < 0 then -v else v, 62, 11);
  }

  lemma Text62Clean(v: int)
    requires -TWO63 < v < TWO63
    ensures 0 < |Text62(v)| <= 12
    ensures Free(Text62(v), BAR) && Free(Text62(v), COLON) && Free(Text62(v), NUL)
    ensures Free(Text62(v), HASH) && Free(Text62(v), BANG) && Free(Text62(v), AT)
  {
    hide Text62;
    Text62Length(v);
  }

  lemma Unsigned62Value(n: nat)
    ensures Value(Digits62(Unsigned62(n)), 62) == n
    ensures Shortest(Digits62(Unsigned62(n)), 62)
    ensures Digits62(Unsigned62(n))[0] == 0 ==> n == 0
  {
    NumeralValue(n, 62);
  }

  lemma DecodeUnsigned62(neg: bool, n: int)
    requires 0 <= n < TWO63
    ensures DecodeDigits62(neg, Unsigned62(n)) == Some(if neg then -n else n)
  {
    hide Unsigned62, Digits62, Wrapped;
    Unsigned62Value(n);
    WrappedSmall(neg, n);
  }

  lemma Text62RoundTrip(v: int)
    requires -TWO63 < v < TWO63
    ensures Decode62(Text62(v)) == Some(v)
  {
    hide Unsigned62, DecodeDigits62;
    if v < 0 {
      DecodeUnsigned62(true, -v);
      assert Text62(v)[1..] == Unsigned62(-v);
    } else {
      DecodeUnsigned62(false, v);
    }
  }

  /** The digits in order of their value, and the order of the places. */
  lemma Base62Digits()
    ensures forall d: nat :: d < 62 ==>
              Text62(d) == [if d < 10 then '0' as int + d
                            else if d < 36 then 'a' as int + (d - 10) else 'A' as int + (d - 36)]
    ensures Text62(62) == ['1' as int, '0' as int] && Text62(-62) == ['-' as int, '1' as int, '0' as int]
  {
    hide Numeral;
    forall d: nat | d < 62 ensures Numeral(d, 62) == [d] {
      NumeralDigit(d, 62);
    }
    NumeralSnoc(1, 62, 0);
  }

  /** The digit texts that the printer produces: shortest numeral, in range, no negative zero. */
  ghost predicate CanonicalDigits62(neg: bool, digits: Text) {
    && digits != [] && AllDigits62(digits)
    && Shortest(Digits62(digits), 62)
    && Value(Digits62(digits), 62) < TWO63
    && (neg ==> Digits62(digits)[0] != 0)
  }

  ghost predicate Canonical62(s: Text) {
    if s != [] && s[0] == MINUS then CanonicalDigits62(true, s[1..]) else CanonicalDigits62(false, s)
  }

  lemma UnsignedCanonical(digits: Text)
    requires CanonicalDigits62(false, digits)
    ensures Unsigned62(Value(Digits62(digits), 62)) == digits
    ensures Digits62(digits)[0] != 0 ==> Value(Digits62(digits), 62) > 0
  {
    hide Numeral, Value;
    var ds := Digits62(digits);
    ValueNumeral(ds, 62);
    forall i | 0 <= i < |digits| ensures Chars62(ds)[i] == digits[i] {
      CharDigit62(0, digits[i]);
    }
  }

  lemma CanonicalReprints(neg: bool, digits: Text)
    requires CanonicalDigits62(neg, digits)
    ensures DecodeDigits62(neg, digits).Some?
    ensures var v := DecodeDigits62(neg, digits).value; -TWO63 < v && (v < 0 <==> neg)
    ensures var v := DecodeDigits62(neg, digits).value; Unsigned62(if neg then -v else v) == digits
  {
    hide Unsigned62, Digits62, Wrapped;
    UnsignedCanonical(digits);
    WrappedSmall(neg, Value(Digits62(digits), 62));
  }

  lemma PrintedIsCanonical(v: int)
    requires -TWO63 < v < TWO63
    ensures Canonical62(Text62(v))
  {
    hide Unsigned62, Digits62;
    Unsigned62Value(if v < 0 then -v else v);
    if v < 0 {
      assert Text62(v)[1..] == Unsigned62(-v);
    }
  }

  lemma Decode62Range(s: Text)
    requires Decode62(s).Some?
    ensures -TWO63 <= Decode62(s).value < TWO63
  {
  }

  /** Decoding and printing again gives the text back exactly for the canonical texts. */
  lemma Canonical62Iff(s: Text)
    ensures Canonical62(s) <==>
            Decode62(s).Some? && -TWO63 < Decode62(s).value && Text62(Decode62(s).value) == s
  {
    hide Unsigned62, DecodeDigits62, CanonicalDigits62;
    if Canonical62(s) {
      var neg := s != [] && s[0] == MINUS;
      CanonicalReprints(neg, if neg then s[1..] else s);
      assert neg ==> s == [MINUS] + s[1..];
    }
    if Decode62(s).Some? && -TWO63 < Decode62(s).value && Text62(Decode62(s).value) == s {
      Decode62Range(s);
      PrintedIsCanonical(Decode62(s).value);
    }
  }

  lemma ModShift(n: nat, k: nat)
    ensures (n + k * TWO64) % TWO64 == n % TWO64
  {
  }

  lemma WrapStep(a: nat, b: nat, d: nat)
    requires b == a % TWO64
    ensures (b * 62 + d) % TWO64 == (a * 62 + d) % TWO64
  {
    ModShift(b * 62 + d, a / TWO64 * 62);
    assert a * 62 + d == b * 62 + d + a / TWO64 * 62 * TWO64;
  }

  /** The accumulator of the decoder: the digits so far, modulo 2^64. */
  ghost predicate Accumulated(digits: Text, i: nat, val: nat) {
    i <= |digits| && AllDigits62(digits[..i]) && val == Value(Digits62(digits[..i]), 62) % TWO64
  }

  lemma Accumulate(digits: Text, i: nat, val: nat)
    requires i < |digits| && Accumulated(digits, i, val) && Digit62(digits[i]).Some?
    ensures Accumulated(digits, i + 1, (val * 62 + Digit62(digits[i]).value) % TWO64)
  {
    var d := Digit62(digits[i]).value;
    assert Digits62(digits[..i + 1])[..i] == Digits62(digits[..i]);
    WrapStep(Value(Digits62(digits[..i]), 62), val, d);
  }

  lemma AccumulatedEnds(digits: Text, val: nat)
    ensures Accumulated(digits, 0, 0)
    ensures Accumulated(digits, |digits|, val) ==>
            AllDigits62(digits) && val == Value(Digits62(digits), 62) % TWO64
  {
    assert digits[..|digits|] == digits;
  }

  method DecodeI64(s: Text) returns (value: int, ok: bool)
    requires Free(s, NUL)
    ensures ok == Decode62(s).Some?
    ensures value == if ok then Decode62(s).value else 0
  {
    hide Accumulated, Value, Digits62;
    var val: uint64 := 0;
    var p, neg := 0, false;
    value, ok := 0, false;
    if |s| == 0 {
      return;
    }
    if s[p] == MINUS {
      neg := true;
      p := p + 1;
      if p == |s| {
        return;
      }
    }
    ghost var start := p;
    ghost var digits := s[start..];
    AccumulatedEnds(digits, 0);
    while p < |s|
      invariant start <= p <= |s|
      invariant Accumulated(digits, p - start, val)
    {
      var c := s[p];
      assert digits[p - start] == c;
      var d := 0;
      if 48 <= c <= 57 {
        d := c - 48;
      } else if 97 <= c <= 122 {
        d := 10 + (c - 97);
      } else if 65 <= c <= 90 {
        d := 36 + (c - 65);
      } else {
        assert Digit62(digits[p - start]).None?;
        return;
      }
      Accumulate(digits, p - start, val);
      val := (val * 62 + d) % TWO64;
      p := p + 1;
    }
    AccumulatedEnds(digits, val);
    assert !neg ==> digits == s;
    ok := true;
    value := Signed64(val);
    if neg && value != -TWO63 {
      value := -value;
    }
  }

  /** Peeling digits off n, least significant first: idx digits of ds are out. */
  ghost predicate Peeled(n: nat, ds: seq<nat>, base: nat, idx: nat)
    requires base >= 2
  {
    && idx <= |ds|
    && (n == 0 <==> idx == |ds|)
    && (n > 0 ==> Numeral(n, base) == ds[..|ds| - idx])
  }

  lemma Peel(n: nat, ds: seq<nat>, base: nat, idx: nat)
    requires base >= 2 && n > 0 && Peeled(n, ds, base, idx)
    ensures idx < |ds| && n % base == ds[|ds| - 1 - idx]
    ensures Peeled(n / base, ds, base, idx + 1)
  {
    var front := ds[..|ds| - idx];
    if n >= base {
      DivSmaller(n, base);
      assert front[..|front| - 1] == ds[..|ds| - idx - 1];
    } else {
      assert front == [n];
      assert n / base == 0 by {
        DivStep(0, base, n);
      }
    }
  }

  lemma ZeroText()
    ensures Unsigned62(0) == [ZERO] && Decimal(0) == [ZERO]
  {
  }

  method EncodeI64(value: int, out: array<byte>) returns (ok: bool)
    requires -TWO63 < value < TWO63
    modifies out
    ensures ok <==> |Text62(value)| + 1 <= out.Length
    ensures ok ==> out[..|Text62(value)| + 1] == Text62(value) + [NUL]
    ensures forall k :: (if ok then |Text62(value)| + 1 else 0) <= k < out.Length ==> out[k] == old(out[k])
  {
    hide Unsigned62;
    if out.Length < 2 {
      return false;
    }
    if value == 0 {
      ZeroText();
      out[0] := ZERO;
      out[1] := NUL;
      return true;
    }
    var n: nat := if value < 0 then -value else value;
    ghost var digits := Unsigned62(n);
    Text62Length(value);
    var buf := new byte[96];
    var idx := Reversed62(n, buf);
    if idx == 0 {
      return false;
    }
    if idx + (if value < 0 then 1 else 0) + 1 > out.Length {
      return false;
    }
    var w := 0;
    if value < 0 {
      out[w] := MINUS;
      w := w + 1;
    }
    ghost var text := Text62(value);
    assert |text| == w + |digits| && (w == 1 ==> text[0] == MINUS && text[1..] == digits);
    while idx > 0
      invariant 0 <= idx <= |digits| && |text| < out.Length && w == |text| - idx
      invariant out[..w] == text[..w]
      invariant forall k :: w <= k < out.Length ==> out[k] == old(out[k])
      modifies out
    {
      idx := idx - 1;
      out[w] := buf[idx];
      w := w + 1;
    }
    out[w] := NUL;
    return true;
  }

  method Reversed62(value: nat, buf: array<byte>) returns (idx: nat)
    requires 0 < value && |Unsigned62(value)| < buf.Length
    modifies buf
    ensures idx == |Unsigned62(value)|
    ensures forall k :: 0 <= k < idx ==> buf[k] == Unsigned62(value)[idx - 1 - k]
  {
    var n := value;
    ghost var ds := Numeral(n, 62);
    idx := 0;
    while n > 0 && idx < buf.Length - 1
      invariant Peeled(n, ds, 62, idx)
      invariant forall k :: 0 <= k < idx ==> buf[k] == Char62(ds[|ds| - 1 - k])
    {
      Peel(n, ds, 62, idx);
      buf[idx] := Char62(n % 62);
      idx := idx + 1;
      n := n / 62;
    }
  }

  // ---- Decimal addresses and base64url timestamps ------------------------

  lemma DecimalU32Length(n: uint32)
    ensures |Decimal(n)| <= 10
  {
    assert Pow(10, 2) == 100;
    assert Pow(10, 4) == 100 * Pow(10, 2);
    assert Pow(10, 6) == 100 * Pow(10, 4);
    assert Pow(10, 8) == 100 * Pow(10, 6);
    assert Pow(10, 10) == 100 * Pow(10, 8);
    NumeralLength(n, 10, 10);
  }

  method U32ToA(n: uint32, buf: array<byte>) returns (len: nat)
    modifies buf
    ensures len == if 2 <= buf.Length && |Decimal(n)| < buf.Length then |Decimal(n)| else 0
    ensures len > 0 ==> buf[..len + 1] == Decimal(n) + [NUL]
    ensures forall k :: (if len > 0 then len + 1 else 0) <= k < buf.Length ==> buf[k] == old(buf[k])
  {
    hide Decimal;
    if buf.Length < 2 {
      return 0;
    }
    if n == 0 {
      ZeroText();
      buf[0] := ZERO;
      buf[1] := NUL;
      return 1;
    }
    DecimalU32Length(n);
    ghost var text := Decimal(n);
    var tmp := new byte[11];
    var idx := ReversedDecimal(n, tmp);
    if idx >= buf.Length {
      return 0;
    }
    for i := 0 to idx
      invariant buf[..i] == text[..i]
      invariant forall k :: i <= k < buf.Length ==> buf[k] == old(buf[k])
      modifies buf
    {
      buf[i] := tmp[idx - 1 - i];
    }
    buf[idx] := NUL;
    return idx;
  }

  method ReversedDecimal(n: nat, tmp: array<byte>) returns (idx: nat)
    requires 0 < n && |Decimal(n)| <= tmp.Length
    modifies tmp
    ensures idx == |Decimal(n)|
    ensures forall k :: 0 <= k < idx ==> tmp[k] == Decimal(n)[idx - 1 - k]
  {
    var m := n;
    ghost var ds := Numeral(n, 10);
    idx := 0;
    while m > 0 && idx < tmp.Length
      invariant Peeled(m, ds, 10, idx)
      invariant forall k :: 0 <= k < idx ==> tmp[k] == 48 + ds[|ds| - 1 - k]
    {
      Peel(m, ds, 10, idx);
      tmp[idx] := 48 + m % 10;
      idx := idx + 1;
      m := m / 10;
    }
  }

  function Char64(d: nat): byte
    requires d < 64
  {
    if d < 26 then 65 + d else if d < 52 then 97 + (d - 26) else if d < 62 then 48 + (d - 52)
    else if d == 62 then 45 else 95
  }

  function Digit64(c: byte): (d: nat)
    ensures d < 64
  {
    if 65 <= c <= 90 then c - 65 else if 97 <= c <= 122 then 26 + (c - 97)
    else if 48 <= c <= 57 then 52 + (c - 48) else if c == 45 then 62 else 63
  }

  /** Eight sextets of the low 48 bits. */
  function TsToken(ts: nat): (s: Text)
    ensures |s| == 8
  {
    var ds := Digits(ts, 64, 8);
    seq(8, i requires 0 <= i < 8 => Char64(ds[i]))
  }

  function TsOfToken(s: Text): nat {
    Value(seq(|s|, i requires 0 <= i < |s| => Digit64(s[i])), 64)
  }

  lemma Pow64()
    ensures Pow(64, 4) == 0x100_0000 && Pow(64, 8) == 0x1_0000_0000_0000
  {
    assert Pow(64, 2) == 4096;
    assert Pow(64, 4) == 4096 * Pow(64, 2);
    assert Pow(64, 6) == 4096 * Pow(64, 4);
  }

  /** The token determines the low 48 bits and stays clear of every delimiter. */
  lemma TsTokenRoundTrip(ts: nat)
    ensures TsOfToken(TsToken(ts)) == ts % 0x1_0000_0000_0000
    ensures Free(TsToken(ts), DOT) && Free(TsToken(ts), BAR) && Free(TsToken(ts), NUL)
  {
    var ds, s := Digits(ts, 64, 8), TsToken(ts);
    forall i | 0 <= i < 8 ensures Digit64(s[i]) == ds[i] {
      assert s[i] == Char64(ds[i]);
    }
    assert seq(|s|, i requires 0 <= i < |s| => Digit64(s[i])) == ds;
    DigitsValue(ts, 64, 8);
    Pow64();
  }

  /** The place of every character: the first one holds the highest six of the 48 bits, in the
      URL-safe alphabet. */
  lemma TokenAt(ts: nat, k: nat)
    requires k < 8
    ensures var d := ts / Pow(64, 7 - k) % 64;
            TsToken(ts)[k] ==
            if d < 26 then 'A' as int + d
            else if d < 52 then 'a' as int + (d - 26)
            else if d < 62 then '0' as int + (d - 52)
            else if d == 62 then '-' as int else '_' as int
  {
    hide Digits, Pow;
    DigitAt(ts, 64, 8, k);
  }

  /** Four characters for one 24-bit group. */
  method WriteGroup(out: array<byte>, at: nat, g: nat)
    requires at + 4 <= out.Length
    modifies out
    ensures out[at..at + 4] == Chars64(Group(g))
    ensures forall k :: 0 <= k < out.Length && !(at <= k < at + 4) ==> out[k] == old(out[k])
  {
    hide Char64;
    out[at] := Char64(g / 0x4_0000 % 64);
    out[at + 1] := Char64(g / 0x1000 % 64);
    out[at + 2] := Char64(g / 0x40 % 64);
    out[at + 3] := Char64(g % 64);
  }

  function Chars64(ds: seq<nat>): (s: Text)
    requires forall i :: 0 <= i < |ds| ==> ds[i] < 64
    ensures |s| == |ds|
  {
    seq(|ds|, i requires 0 <= i < |ds| => Char64(ds[i]))
  }

  method B64UrlTs6(ts: uint64, out: array<byte>)
    requires out.Length >= 9
    modifies out
    ensures out[..9] == TsToken(ts) + [NUL]
    ensures forall k :: 9 <= k < out.Length ==> out[k] == old(out[k])
  {
    hide Char64, Digits, Group;
    var b := new byte[6];
    b[0] := ts / 0x100_0000_0000 % 256;
    b[1] := ts / 0x1_0000_0000 % 256;
    b[2] := ts / 0x100_0000 % 256;
    b[3] := ts / 0x1_0000 % 256;
    b[4] := ts / 0x100 % 256;
    b[5] := ts % 256;
    var g1: nat := b[0] as int * 0x1_0000 + b[1] as int * 0x100 + b[2];
    var g2: nat := b[3] as int * 0x1_0000 + b[4] as int * 0x100 + b[5];
    ThreeBytes(ts / 0x100_0000);
    ThreeBytes(ts);
    Sextets(ts, g1, g2);
    TokenOfGroups(ts, g1, g2);
    WriteGroup(out, 0, g1);
    ghost var first := out[0..4];
    WriteGroup(out, 4, g2);
    assert out[0..4] == first;
    out[8] := NUL;
    assert out[..9] == out[0..4] + out[4..8] + [out[8]];
  }

  lemma TokenOfGroups(ts: nat, g1: nat, g2: nat)
    requires Digits(ts, 64, 8) == Group(g1) + Group(g2)
    ensures TsToken(ts) == Chars64(Group(g1)) + Chars64(Group(g2))
  {
    hide Char64, Digits;
  }

  lemma ThreeBytes(u: nat)
    ensures u / 0x1_0000 % 256 * 0x1_0000 + u / 0x100 % 256 * 0x100 + u % 256 == u % 0x100_0000
  {
    ModStep(u, 256, 256);
    ModStep(u, 256, 0x1_0000);
    ModStep(u / 0x100, 256, 256);
  }

  /** Four sextets of a 24-bit group are four base-64 digits of the number it was cut from. */
  lemma FourDigits(v: nat)
    ensures Digits(v, 64, 4) == Group(v % 0x100_0000)
  {
    var g := v % 0x100_0000;
    Pow64();
    DigitsMod(v, 64, 4);
    GroupDigits(g);
  }

  lemma GroupDigits(g: nat)
    ensures Digits(g, 64, 4) == Group(g)
  {
    var g1, g2, g3 := g / 64, g / 0x1000, g / 0x4_0000;
    assert g2 == g1 / 64 && g3 == g2 / 64;
    assert Digits(g3, 64, 1) == Digits(g3 / 64, 64, 0) + [g3 % 64];
    assert Digits(g2, 64, 2) == Digits(g3, 64, 1) + [g2 % 64];
    assert Digits(g1, 64, 3) == Digits(g2, 64, 2) + [g1 % 64];
    assert Digits(g, 64, 4) == Digits(g1, 64, 3) + [g % 64];
  }

  function Group(g: nat): (ds: seq<nat>)
    ensures |ds| == 4 && forall i :: 0 <= i < 4 ==> ds[i] < 64
  {
    [g / 0x4_0000 % 64, g / 0x1000 % 64, g / 0x40 % 64, g % 64]
  }

  lemma Sextets(ts: nat, g1: nat, g2: nat)
    requires g1 == ts / 0x100_0000 % 0x100_0000 && g2 == ts % 0x100_0000
    ensures Digits(ts, 64, 8) == Group(g1) + Group(g2)
  {
    FourDigits(ts);
    FourDigits(ts / 0x100_0000);
    DigitsSplit(ts, 64, 4, 4);
    Pow64();
  }
}
