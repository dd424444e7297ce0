/** Positional notation: the fixed-width fields of a frame and the shortest
    numerals that the text layers print. */
module Numerals {
  import opened Bytes

  function Pow(base: nat, n: nat): (p: nat)
    ensures base > 0 ==> p > 0
  {
    if n == 0 then 1 else base * Pow(base, n - 1)
  }

  ghost predicate InBase(ds: seq<nat>, base: nat) {
    forall i :: 0 <= i < |ds| ==> ds[i] < base
  }

  /** Most significant digit first. */
  function Value(ds: seq<nat>, base: nat): nat {
    if ds == [] then 0 else Value(ds[..|ds| - 1], base) * base + ds[|ds| - 1]
  }

  /** The n low digits of v. */
  function Digits(v: nat, base: nat, n: nat): (ds: seq<nat>)
    requires base >= 2
    ensures |ds| == n && InBase(ds, base)
    decreases n
  {
    if n == 0 then [] else Digits(v / base, base, n - 1) + [v % base]
  }

  lemma MulMonotone(a: int, b: int, c: int)
    ensures a <= b && 0 <= c ==> a * c <= b * c
  {
  }

  lemma DivStep(q: nat, base: nat, d: nat)
    requires 0 <= d < base
    ensures q * base + d >= 0
    ensures (q * base + d) / base == q && (q * base + d) % base == d
  {
    var v := q * base + d;
    MulMonotone(0, q, base);
    MulMonotone(v / base + 1, q, base);
    MulMonotone(q + 1, v / base, base);
  }

  lemma DivSmaller(v: nat, base: nat)
    requires 2 <= base <= v
    ensures 0 < v / base < v
    ensures v == (v / base) * base + v % base
  {
    MulMonotone(v / base, 0, base);
    MulMonotone(2, base, v / base);
  }

  lemma Regroup(t: nat, p: nat, r: nat, base: nat, d: nat)
    requires r < p && d < base
    ensures (t * p + r) * base + d == t * (base * p) + (r * base + d)
    ensures 0 <= r * base + d < base * p
  {
    MulMonotone(0, r, base);
    MulMonotone(r + 1, p, base);
  }

  lemma Requotient(t: nat, p: nat, r: nat, base: nat, d: nat)
    requires r < p && d < base
    ensures base * p > 0 && (t * p + r) * base + d >= 0
    ensures ((t * p + r) * base + d) % (base * p) == r * base + d
    ensures ((t * p + r) * base + d) / (base * p) == t
  {
    Regroup(t, p, r, base, d);
    DivStep(t, base * p, r * base + d);
  }

  lemma Division(v: nat, d: nat)
    requires d > 0
    ensures v == v / d * d + v % d
  {
  }

  /** A number by its quotient and remainder by base, and the quotient by those by p. */
  lemma TwoDivisions(v: nat, base: nat, p: nat, t: nat, r: nat, d: nat)
    requires base > 0 && p > 0 && v == (t * p + r) * base + d && r < p && d < base
    ensures base * p > 0 && v % (base * p) == r * base + d && v / (base * p) == t
  {
    Requotient(t, p, r, base, d);
  }

  /** Reducing by base * p keeps the last digit and reduces the rest by p; dividing by it is
      dividing twice. */
  lemma ModStep(v: nat, base: nat, p: nat)
    requires base > 0 && p > 0
    ensures base * p > 0
    ensures v % (base * p) == (v / base % p) * base + v % base
    ensures v / (base * p) == v / base / p
  {
    var q := v / base;
    Division(v, base);
    Division(q, p);
    TwoDivisions(v, base, p, q / p, q % p, v % base);
  }

  lemma {:induction false} DigitsValue(v: nat, base: nat, n: nat)
    requires base >= 2
    ensures Value(Digits(v, base, n), base) == v % Pow(base, n)
    decreases n
  {
    if n == 0 {
    } else {
      DigitsValue(v / base, base, n - 1);
      ModStep(v, base, Pow(base, n - 1));
      var ds := Digits(v, base, n);
      assert ds[..n - 1] == Digits(v / base, base, n - 1);
    }
  }

  lemma {:induction false} ValueBound(ds: seq<nat>, base: nat)
    requires base >= 2 && InBase(ds, base)
    ensures Value(ds, base) < Pow(base, |ds|)
  {
    if ds != [] {
      var front := ds[..|ds| - 1];
      ValueBound(front, base);
      Regroup(0, Pow(base, |front|), Value(front, base), base, ds[|ds| - 1]);
    }
  }

  lemma {:induction false} ValueDigits(ds: seq<nat>, base: nat)
    requires base >= 2 && InBase(ds, base)
    ensures Digits(Value(ds, base), base, |ds|) == ds
  {
    if ds != [] {
      var front, d := ds[..|ds| - 1], ds[|ds| - 1];
      ValueDigits(front, base);
      DivStep(Value(front, base), base, d);
      assert ds == front + [d];
    }
  }

  /** The low m digits follow the digits of the rest. */
  lemma {:induction false} DigitsSplit(v: nat, base: nat, n: nat, m: nat)
    requires base >= 2
    ensures Digits(v, base, n + m) == Digits(v / Pow(base, m), base, n) + Digits(v, base, m)
    decreases m
  {
    hide Digits, Pow;
    PowQuotients(v, base, if m == 0 then 0 else m - 1);
    if m == 0 {
      DigitsStep(v, base, 0);
    } else {
      DigitsSplit(v / base, base, n, m - 1);
      DigitsStep(v, base, n + m);
      DigitsStep(v, base, m);
    }
  }

  lemma DigitsStep(v: nat, base: nat, n: nat)
    requires base >= 2
    ensures Digits(v, base, n) == if n == 0 then [] else Digits(v / base, base, n - 1) + [v % base]
  {
  }

  lemma PowQuotients(v: nat, base: nat, m: nat)
    requires base >= 2
    ensures v / Pow(base, 0) == v && v / Pow(base, m + 1) == v / base / Pow(base, m)
  {
    ModStep(v, base, Pow(base, m));
  }

  /** The place of every digit: the first one weighs most. */
  lemma {:induction false} DigitAt(v: nat, base: nat, n: nat, k: nat)
    requires base >= 2 && k < n
    ensures Digits(v, base, n)[k] == v / Pow(base, n - 1 - k) % base
    decreases n
  {
    hide Pow;
    if k < n - 1 {
      DigitAt(v / base, base, n - 1, k);
      PowQuotients(v, base, n - 2 - k);
    } else {
      PowQuotients(v, base, 0);
    }
  }

  lemma DigitsMod(v: nat, base: nat, n: nat)
    requires base >= 2
    ensures Digits(v % Pow(base, n), base, n) == Digits(v, base, n)
  {
    DigitsValue(v, base, n);
    ValueDigits(Digits(v, base, n), base);
  }

  /** The shortest numeral of v, "0" for zero. */
  function Numeral(v: nat, base: nat): (ds: seq<nat>)
    requires base >= 2
    ensures |ds| > 0 && InBase(ds, base)
  {
    if v < base then
      [v]
    else
      DivSmaller(v, base);
      Numeral(v / base, base) + [v % base]
  }

  ghost predicate Shortest(ds: seq<nat>, base: nat) {
    |ds| > 0 && InBase(ds, base) && (ds[0] != 0 || |ds| == 1)
  }

  lemma {:induction false} NumeralValue(v: nat, base: nat)
    requires base >= 2
    ensures Value(Numeral(v, base), base) == v
    ensures Shortest(Numeral(v, base), base)
    ensures Numeral(v, base)[0] == 0 ==> v == 0
  {
    var ds := Numeral(v, base);
    if v < base {
      assert ds[..0] == [];
    } else {
      DivSmaller(v, base);
      NumeralValue(v / base, base);
      assert ds[..|ds| - 1] == Numeral(v / base, base);
    }
  }

  lemma NumeralSnoc(q: nat, base: nat, d: nat)
    requires base >= 2 && 0 < q && d < base
    ensures q * base + d > 0
    ensures Numeral(q * base + d, base) == Numeral(q, base) + [d]
  {
    MulMonotone(1, q, base);
    DivStep(q, base, d);
  }

  lemma {:induction false} ValueNumeral(ds: seq<nat>, base: nat)
    requires base >= 2 && Shortest(ds, base)
    ensures Numeral(Value(ds, base), base) == ds
    ensures ds[0] != 0 ==> Value(ds, base) > 0
  {
    hide Numeral;
    var front, d := ds[..|ds| - 1], ds[|ds| - 1];
    assert ds == front + [d];
    if |ds| == 1 {
      assert front == [] && Value(ds, base) == d;
      NumeralDigit(d, base);
    } else {
      assert front[0] == ds[0];
      ValueNumeral(front, base);
      NumeralSnoc(Value(front, base), base, d);
    }
  }

  lemma NumeralDigit(d: nat, base: nat)
    requires base >= 2 && d < base
    ensures Numeral(d, base) == [d]
  {
  }

  lemma PowQuotient(v: nat, base: nat, n: nat)
    requires base >= 2 && n >= 1 && v < Pow(base, n)
    ensures v / base < Pow(base, n - 1)
  {
    MulMonotone(Pow(base, n - 1), v / base, base);
    assert v == (v / base) * base + v % base;
  }

  lemma {:induction false} NumeralLength(v: nat, base: nat, n: nat)
    requires base >= 2 && n >= 1 && v < Pow(base, n)
    ensures |Numeral(v, base)| <= n
    decreases n
  {
    PowQuotient(v, base, n);
    if v >= base {
      DivSmaller(v, base);
      NumeralLength(v / base, base, n - 1);
    }
  }

  /** Big-endian field of n bytes. */
  function BE(v: nat, n: nat): (s: Text)
    ensures |s| == n
  {
    Digits(v, 256, n)
  }

  function FromBE(s: Text): nat {
    Value(s, 256)
  }

  lemma BERoundTrip(v: nat, n: nat)
    ensures FromBE(BE(v, n)) == v % Pow(256, n)
  {
    DigitsValue(v, 256, n);
  }

  lemma PowBytes()
    ensures Pow(256, 2) == 0x1_0000
    ensures Pow(256, 4) == 0x1_0000_0000
    ensures Pow(256, 6) == 0x1_0000_0000_0000
    ensures Pow(256, 8) == 0x1_0000_0000_0000_0000
  {
    assert Pow(256, 3) == 256 * Pow(256, 2);
    assert Pow(256, 5) == 256 * Pow(256, 4);
    assert Pow(256, 7) == 256 * Pow(256, 6);
  }

  lemma BEExact(v: nat, n: nat)
    requires v < Pow(256, n)
    ensures FromBE(BE(v, n)) == v
  {
    BERoundTrip(v, n);
    DivStep(0, Pow(256, n), v);
  }

  lemma BEWords(v: uint32, w: uint64)
    ensures FromBE(BE(v, 4)) == v && FromBE(BE(w, 8)) == w
  {
    PowBytes();
    BEExact(v, 4);
    BEExact(w, 8);
  }

  /** The shifted bytes that the sources write are the big-endian field. */
  lemma BE2(v: nat)
    ensures BE(v, 2) == [v / 0x100 % 256, v % 256]
  {
    assert Digits(v / 0x100, 256, 1) == Digits(v / 0x1_0000, 256, 0) + [v / 0x100 % 256];
  }

  lemma BE4(v: nat)
    ensures BE(v, 4) == [v / 0x100_0000 % 256, v / 0x1_0000 % 256, v / 0x100 % 256, v % 256]
  {
    var v1, v2, v3 := v / 0x100, v / 0x1_0000, v / 0x100_0000;
    assert v2 == v1 / 256 && v3 == v2 / 256;
    assert Digits(v3, 256, 1) == Digits(v3 / 256, 256, 0) + [v3 % 256];
    assert Digits(v2, 256, 2) == Digits(v3, 256, 1) + [v2 % 256];
    assert Digits(v1, 256, 3) == Digits(v2, 256, 2) + [v1 % 256];
  }

  lemma BE6(v: nat)
    ensures BE(v, 6) == [v / 0x100_0000_0000 % 256, v / 0x1_0000_0000 % 256] + BE(v, 4)
  {
    var w := v / 0x1_0000_0000;
    PowBytes();
    DigitsSplit(v, 256, 2, 4);
    BE2(w);
    assert v / 0x100_0000_0000 == w / 0x100;
  }

  lemma BE8(v: nat)
    ensures BE(v, 8) == BE(v / 0x1_0000_0000, 4) + BE(v, 4)
  {
    PowBytes();
    DigitsSplit(v, 256, 4, 4);
  }

  method WriteU16BE(out: array<byte>, at: nat, v: uint16)
    requires at + 2 <= out.Length
    modifies out
    ensures out[..at + 2] == old(out[..at]) + BE(v, 2)
    ensures forall k :: at + 2 <= k < out.Length ==> out[k] == old(out[k])
  {
    hide BE;
    BE2(v);
    out[at] := v / 0x100 % 256;
    out[at + 1] := v % 256;
  }

  method WriteU32BE(out: array<byte>, at: nat, v: uint32)
    requires at + 4 <= out.Length
    modifies out
    ensures out[at..at + 4] == BE(v, 4)
    ensures forall k :: 0 <= k < out.Length && !(at <= k < at + 4) ==> out[k] == old(out[k])
  {
    hide BE;
    BE4(v);
    out[at] := v / 0x100_0000 % 256;
    out[at + 1] := v / 0x1_0000 % 256;
    out[at + 2] := v / 0x100 % 256;
    out[at + 3] := v % 256;
  }

  lemma FromBERoundTrip(s: Text)
    ensures BE(FromBE(s), |s|) == s
    ensures FromBE(s) < Pow(256, |s|)
  {
    ValueDigits(s, 256);
    ValueBound(s, 256);
  }

  /** Decimal text, as printed for addresses and timestamps. */
  function Decimal(v: nat): (s: Text)
    ensures |s| > 0
    ensures forall k :: 0 <= k < |s| ==> 48 <= s[k] <= 57
  {
    var ds := Numeral(v, 10);
    seq(|ds|, i requires 0 <= i < |ds| => 48 + ds[i])
  }

  function DecimalValue(s: Text): nat
    requires forall k :: 0 <= k < |s| ==> 48 <= s[k] <= 57
  {
    Value(seq(|s|, i requires 0 <= i < |s| => s[i] - 48), 10)
  }

  lemma DecimalRoundTrip(v: nat)
    ensures DecimalValue(Decimal(v)) == v
  {
    NumeralValue(v, 10);
    var ds, s := Numeral(v, 10), Decimal(v);
    assert seq(|s|, i requires 0 <= i < |s| => s[i] - 48) == ds;
  }
}
