/** Exclusive or on naturals and shift registers of any width, the arithmetic
    behind the checksums and the payload mask. */
module Bits {
  function P2(n: nat): (p: nat)
    ensures p > 0
  {
    if n == 0 then 1 else 2 * P2(n - 1)
  }

  function Xor(a: nat, b: nat): nat {
    if a == 0 && b == 0 then 0 else (a % 2 + b % 2) % 2 + 2 * Xor(a / 2, b / 2)
  }

  lemma XorZero(a: nat)
    ensures Xor(a, 0) == a
  {
  }

  lemma XorComm(a: nat, b: nat)
    ensures Xor(a, b) == Xor(b, a)
  {
  }

  lemma XorStep(a: nat, b: nat)
    ensures Xor(a, b) % 2 == (a % 2 + b % 2) % 2
    ensures Xor(a, b) / 2 == Xor(a / 2, b / 2)
  {
  }

  lemma ParityAssoc(a: nat, b: nat, c: nat)
    ensures ((a % 2 + b % 2) % 2 + c % 2) % 2 == (a % 2 + (b % 2 + c % 2) % 2) % 2
  {
  }

  lemma HalvesEqual(x: nat, y: nat)
    requires x / 2 == y / 2 && x % 2 == y % 2
    ensures x == y
  {
  }

  lemma {:induction false} XorAssoc(a: nat, b: nat, c: nat)
    ensures Xor(Xor(a, b), c) == Xor(a, Xor(b, c))
    decreases a + b + c
  {
    hide Xor;
    if a == b == c == 0 {
      XorZero(0);
    } else {
      XorAssoc(a / 2, b / 2, c / 2);
      XorStep(a, b);
      XorStep(b, c);
      XorStep(Xor(a, b), c);
      XorStep(a, Xor(b, c));
      ParityAssoc(a, b, c);
      HalvesEqual(Xor(Xor(a, b), c), Xor(a, Xor(b, c)));
    }
  }

  lemma {:induction false} XorEqual(a: nat, b: nat)
    ensures Xor(a, b) == 0 <==> a == b
    decreases a + b
  {
    if a + b > 0 {
      XorEqual(a / 2, b / 2);
    }
  }

  /** A mask applied twice disappears. */
  lemma XorCancel(a: nat, b: nat)
    ensures Xor(Xor(a, b), b) == a
  {
    hide Xor;
    XorAssoc(a, b, b);
    XorEqual(b, b);
    XorZero(a);
  }

  lemma XorSwap(a: nat, b: nat, c: nat)
    ensures Xor(Xor(a, b), c) == Xor(Xor(a, c), b)
  {
    hide Xor;
    XorAssoc(a, b, c);
    XorComm(b, c);
    XorAssoc(a, c, b);
  }

  lemma XorExchange(a: nat, b: nat, c: nat, d: nat)
    ensures Xor(Xor(a, b), Xor(c, d)) == Xor(Xor(a, c), Xor(b, d))
  {
    hide Xor;
    XorAssoc(Xor(a, b), c, d);
    XorSwap(a, b, c);
    XorAssoc(Xor(a, c), b, d);
  }

  lemma {:induction false} XorBound(a: nat, b: nat, n: nat)
    requires a < P2(n) && b < P2(n)
    ensures Xor(a, b) < P2(n)
    decreases n
  {
    if n > 0 {
      XorBound(a / 2, b / 2, n - 1);
    }
  }

  /** A single high bit and the bits below it do not interfere. */
  lemma {:induction false} XorHigh(n: nat, v: nat)
    requires v < P2(n)
    ensures Xor(P2(n), v) == P2(n) + v
    decreases n
  {
    if n == 0 {
      XorZero(1);
    } else {
      XorHigh(n - 1, v / 2);
      assert P2(n) / 2 == P2(n - 1);
    }
  }

  lemma XorDouble(a: nat, b: nat)
    ensures Xor(2 * a, 2 * b) == 2 * Xor(a, b)
  {
  }

  /** v moved n places up. */
  function Scale(v: nat, n: nat): nat {
    if n == 0 then v else 2 * Scale(v, n - 1)
  }

  lemma ScaleAdd(u: nat, v: nat, n: nat)
    ensures Scale(u + v, n) == Scale(u, n) + Scale(v, n)
  {
    if n > 0 {
      ScaleAdd(u, v, n - 1);
    }
  }

  lemma ScaleP2(k: nat, n: nat)
    ensures Scale(P2(k), n) == P2(k + n)
  {
  }

  lemma ScaleBound(v: nat, k: nat, n: nat)
    requires v < P2(k)
    ensures Scale(v, n) < P2(k + n)
  {
    if n > 0 {
      ScaleBound(v, k, n - 1);
    }
  }

  predicate TopBit(v: nat, k: nat)
    requires k > 0
  {
    v >= P2(k - 1)
  }

  /** v without its top bit of k. */
  function Rest(v: nat, k: nat): (r: nat)
    requires k > 0
    ensures v < P2(k) ==> r < P2(k - 1)
  {
    if TopBit(v, k) then v - P2(k - 1) else v
  }

  /** The k low bits of v, most significant first. */
  function BitsOf(v: nat, k: nat): (bits: seq<bool>)
    requires v < P2(k)
    ensures |bits| == k
    decreases k
  {
    if k == 0 then [] else [TopBit(v, k)] + BitsOf(Rest(v, k), k - 1)
  }

  lemma {:induction false} BitsOfInjective(u: nat, v: nat, k: nat)
    requires u < P2(k) && v < P2(k)
    requires BitsOf(u, k) == BitsOf(v, k)
    ensures u == v
    decreases k
  {
    if k > 0 {
      assert BitsOf(u, k)[0] == BitsOf(v, k)[0];
      assert BitsOf(u, k)[1..] == BitsOf(Rest(u, k), k - 1);
      assert BitsOf(v, k)[1..] == BitsOf(Rest(v, k), k - 1);
      BitsOfInjective(Rest(u, k), Rest(v, k), k - 1);
    }
  }

  /** The bits of a two-part number are the bits of its parts. */
  lemma {:induction false} BitsOfSplit(hi: nat, lo: nat, m: nat, k: nat)
    requires hi < P2(m) && lo < P2(k)
    ensures Scale(hi, k) + lo < P2(m + k)
    ensures BitsOf(Scale(hi, k) + lo, m + k) == BitsOf(hi, m) + BitsOf(lo, k)
    decreases m
  {
    hide Scale;
    ScaleBoundSum(hi, lo, m, k);
    if m > 0 {
      TopOfSplit(hi, lo, m, k);
      BitsOfSplit(Rest(hi, m), lo, m - 1, k);
    } else {
      ScaleZero(k);
    }
  }

  /** The top bit of a two-part number is the top bit of its high part. */
  lemma TopOfSplit(hi: nat, lo: nat, m: nat, k: nat)
    requires 0 < m && hi < P2(m) && lo < P2(k)
    ensures TopBit(Scale(hi, k) + lo, m + k) == TopBit(hi, m)
    ensures Rest(Scale(hi, k) + lo, m + k) == Scale(Rest(hi, m), k) + lo
  {
    hide Scale;
    ScaleP2(m - 1, k);
    if TopBit(hi, m) {
      ScaleAdd(Rest(hi, m), P2(m - 1), k);
    } else {
      ScaleBoundSum(hi, lo, m - 1, k);
    }
  }

  lemma ScaleZero(k: nat)
    ensures Scale(0, k) == 0
  {
  }

  lemma ScaleBoundSum(hi: nat, lo: nat, m: nat, k: nat)
    requires hi < P2(m) && lo < P2(k)
    ensures Scale(hi, k) + lo < P2(m + k)
  {
    ScaleStep(hi + 1, P2(m), k);
    ScaleAdd(hi, 1, k);
    ScaleP2(0, k);
    ScaleP2(m, k);
  }

  lemma ScaleStep(u: nat, v: nat, n: nat)
    requires u <= v
    ensures Scale(u, n) <= Scale(v, n)
  {
  }
}
