/** The binary DIFF body of src/osfx_fusion_state.c: a big-endian mask of ceil(N/8)
    bytes, then one length byte and the value for every changed slot. */
module FusionDiff {
  import opened Bytes
  import opened Bits
  import opened Numerals
  import opened FusionText

  // ---- The mask ----------------------------------------------------------

  function MaskLen(n: nat): nat {
    (n + 7) / 8
  }

  predicate BitAt(mask: nat, j: nat) {
    mask / P2(j) % 2 == 1
  }

  /** The number whose bit i is bits[i]. */
  function BitsValue(bits: seq<bool>): (v: nat)
    ensures v < P2(|bits|)
  {
    if bits == [] then 0
    else BitsValue(bits[..|bits| - 1]) + if bits[|bits| - 1] then P2(|bits| - 1) else 0
  }

  lemma {:induction false} P2Sum(a: nat, b: nat)
    ensures P2(a + b) == P2(a) * P2(b)
    decreases b
  {
    if b > 0 {
      P2Sum(a, b - 1);
      DoubleProduct(P2(a), P2(b - 1));
    }
  }

  lemma DoubleProduct(x: nat, y: nat)
    ensures x * (2 * y) == 2 * (x * y)
  {
  }

  /** Adding a higher power of two leaves bit j alone. */
  lemma HigherBit(v: nat, n: nat, j: nat)
    requires j < n
    ensures BitAt(v + P2(n), j) <==> BitAt(v, j)
  {
    hide P2;
    var p, c := P2(j), P2(n - j - 1);
    assert P2(n - j) == 2 * c by { P2Double(n - j - 1); }
    P2Sum(j, n - j);
    EvenMultiple(v, p, c);
  }

  lemma P2Double(n: nat)
    ensures P2(n + 1) == 2 * P2(n)
  {
  }

  lemma EvenMultiple(v: nat, p: nat, c: nat)
    requires p > 0
    ensures (v + p * (2 * c)) / p % 2 == v / p % 2
  {
    var q, d := v / p, v % p;
    assert v == q * p + d;
    assert v + p * (2 * c) == (q + 2 * c) * p + d;
    DivStep(q + 2 * c, p, d);
  }

  lemma {:induction false} MaskBit(bits: seq<bool>, j: nat)
    requires j < |bits|
    ensures BitAt(BitsValue(bits), j) <==> bits[j]
    decreases |bits|
  {
    hide BitAt;
    var n := |bits| - 1;
    var v := BitsValue(bits[..n]);
    if j < n {
      MaskBit(bits[..n], j);
      HigherBit(v, n, j);
    } else {
      TopBitOf(v, n);
    }
  }

  lemma TopBitOf(v: nat, n: nat)
    requires v < P2(n)
    ensures BitAt(v + P2(n), n) && !BitAt(v, n)
  {
    hide P2;
    DivStep(1, P2(n), v);
    DivStep(0, P2(n), v);
  }

  lemma {:induction false} PowOfBytes(k: nat)
    ensures Pow(256, k) == P2(8 * k)
  {
    if k > 0 {
      PowOfBytes(k - 1);
      P2Sum(8 * (k - 1), 8);
      assert P2(4) == 16 && P2(8) == 16 * P2(4);
    }
  }

  /** Mask write and read are inverse for every mask width. */
  lemma MaskRoundTrip(bits: seq<bool>)
    ensures FromBE(BE(BitsValue(bits), MaskLen(|bits|))) == BitsValue(bits)
  {
    var n := |bits|;
    PowOfBytes(MaskLen(n));
    P2Monotone(n, 8 * MaskLen(n));
    BEExact(BitsValue(bits), MaskLen(n));
  }

  lemma P2Monotone(a: nat, b: nat)
    requires a <= b
    ensures P2(a) <= P2(b)
  {
  }

  // ---- The body ----------------------------------------------------------

  ghost predicate Comparable(old_: seq<Text>, new_: seq<Text>, n: nat) {
    && n <= |old_| && n <= |new_|
    && forall i :: 0 <= i < n ==> |new_[i]| < MAX_VAL_LEN
  }

  function ChangedBits(old_: seq<Text>, new_: seq<Text>, n: nat): (bits: seq<bool>)
    requires n <= |old_| && n <= |new_|
    ensures |bits| == n
  {
    seq(n, i requires 0 <= i < n => old_[i] != new_[i])
  }

  function Piece(v: Text): Text
    requires |v| < 256
  {
    [|v| as byte] + v
  }

  /** The changed values among the first i slots. */
  function Payload(old_: seq<Text>, new_: seq<Text>, i: nat): Text
    requires Comparable(old_, new_, i)
  {
    if i == 0 then []
    else Payload(old_, new_, i - 1) + if old_[i - 1] != new_[i - 1] then Piece(new_[i - 1]) else []
  }

  function DiffBody(old_: seq<Text>, new_: seq<Text>, n: nat): Text
    requires Comparable(old_, new_, n)
  {
    BE(BitsValue(ChangedBits(old_, new_, n)), MaskLen(n)) + Payload(old_, new_, n)
  }

  /** One byte and the value for each changed slot. */
  function ChangedSize(old_: seq<Text>, new_: seq<Text>, n: nat): nat
    requires n <= |old_| && n <= |new_|
  {
    if n == 0 then 0
    else ChangedSize(old_, new_, n - 1) + if old_[n - 1] != new_[n - 1] then 1 + |new_[n - 1]| else 0
  }

  lemma {:induction false} PayloadLength(old_: seq<Text>, new_: seq<Text>, n: nat)
    requires Comparable(old_, new_, n)
    ensures |Payload(old_, new_, n)| == ChangedSize(old_, new_, n) <= n * MAX_VAL_LEN
  {
    hide Comparable, Payload, ChangedSize, Piece;
    PayloadStep(old_, new_, n);
    if n > 0 {
      PayloadLength(old_, new_, n - 1);
    }
  }

  /** What slot n - 1 adds to the payload. */
  lemma PayloadStep(old_: seq<Text>, new_: seq<Text>, n: nat)
    requires Comparable(old_, new_, n)
    ensures n <= |old_| && n <= |new_|
    ensures n == 0 ==> Payload(old_, new_, n) == [] && ChangedSize(old_, new_, n) == 0
    ensures n > 0 ==>
              && Comparable(old_, new_, n - 1) && |new_[n - 1]| < MAX_VAL_LEN
              && |Piece(new_[n - 1])| == 1 + |new_[n - 1]|
              && Payload(old_, new_, n) ==
                 Payload(old_, new_, n - 1) + (if old_[n - 1] != new_[n - 1] then Piece(new_[n - 1]) else [])
              && ChangedSize(old_, new_, n) ==
                 ChangedSize(old_, new_, n - 1) + (if old_[n - 1] != new_[n - 1] then 1 + |new_[n - 1]| else 0)
  {
  }

  lemma DiffLength(old_: seq<Text>, new_: seq<Text>, n: nat)
    requires Comparable(old_, new_, n)
    ensures |Payload(old_, new_, n)| == ChangedSize(old_, new_, n) <= n * MAX_VAL_LEN
    ensures |DiffBody(old_, new_, n)| == MaskLen(n) + ChangedSize(old_, new_, n)
  {
    hide BitsValue, ChangedBits, MaskLen, Payload, ChangedSize;
    PayloadLength(old_, new_, n);
  }

  // ---- Applying ----------------------------------------------------------

  /** Cells and read position of the receiver; ok falls when the body is too short
      or a length is too large, and everything done so far stays done. */
  datatype Applied = Applied(vals: seq<Text>, off: nat, ok: bool)

  function ApplySlot(a: Applied, mask: nat, body: Text, j: nat): (r: Applied)
    requires j < |a.vals|
    ensures |r.vals| == |a.vals|
  {
    if !a.ok || !BitAt(mask, j) then a
    else if a.off >= |body| then a.(ok := false)
    else
      var len := body[a.off] as nat;
      if a.off + 1 + len > |body| || len >= MAX_VAL_LEN then a.(off := a.off + 1, ok := false)
      else Applied(a.vals[j := body[a.off + 1..a.off + 1 + len]], a.off + 1 + len, true)
  }

  function ApplyTo(vals: seq<Text>, mask: nat, body: Text, off: nat, j: nat): (r: Applied)
    requires j <= |vals|
    ensures |r.vals| == |vals|
  {
    if j == 0 then Applied(vals, off, true) else ApplySlot(ApplyTo(vals, mask, body, off, j - 1), mask, body, j - 1)
  }

  /** The DIFF branch of osfx_fusion_decode_apply on n slots. */
  function ApplyDiff(vals: seq<Text>, n: nat, body: Text): (r: Applied)
    requires n <= |vals|
    ensures |r.vals| == |vals|
  {
    if n == 0 || |body| == 0 || |body| < MaskLen(n) then Applied(vals, 0, false)
    else ApplyTo(vals, FromBE(body[..MaskLen(n)]), body, MaskLen(n), n)
  }

  /** v with the slots that differ between the two vectors taken from the second. */
  function Merged(v: seq<Text>, old_: seq<Text>, new_: seq<Text>, n: nat): (r: seq<Text>)
    requires n <= |v| && n <= |old_| && n <= |new_|
    ensures |r| == |v|
  {
    seq(|v|, i requires 0 <= i < |v| => if i < n && old_[i] != new_[i] then new_[i] else v[i])
  }

  lemma {:induction false} PayloadPrefix(old_: seq<Text>, new_: seq<Text>, i: nat, n: nat)
    requires i <= n && Comparable(old_, new_, n)
    ensures Payload(old_, new_, i) <= Payload(old_, new_, n)
    decreases n
  {
    hide Comparable, Payload, Piece;
    if i < n {
      PayloadStep(old_, new_, n);
      PayloadPrefix(old_, new_, i, n - 1);
    }
  }

  lemma PieceInside(head: Text, front: Text, v: Text, all: Text)
    requires |v| < 256 && front + Piece(v) <= all
    ensures var body, off := head + all, |head| + |front|;
            && off + 1 + |v| <= |body|
            && body[off] == |v|
            && body[off + 1..off + 1 + |v|] == v
  {
    var upto := front + Piece(v);
    assert all == upto + all[|upto|..];
    assert head + all == head + front + [|v| as byte] + v + all[|upto|..];
  }

  /** The receiver's step on a slot whose bit is set and whose piece is there. */
  lemma ApplyPiece(a: Applied, mask: nat, body: Text, j: nat, v: Text)
    requires j < |a.vals| && a.ok && BitAt(mask, j) && |v| < MAX_VAL_LEN
    requires a.off + 1 + |v| <= |body| && body[a.off] == |v| && body[a.off + 1..a.off + 1 + |v|] == v
    ensures ApplySlot(a, mask, body, j) == Applied(a.vals[j := v], a.off + 1 + |v|, true)
  {
    hide BitAt;
  }

  lemma MergedNext(v: seq<Text>, old_: seq<Text>, new_: seq<Text>, j: nat)
    requires j < |v| && j < |old_| && j < |new_|
    ensures Merged(v, old_, new_, j + 1) ==
            if old_[j] != new_[j] then Merged(v, old_, new_, j)[j := new_[j]] else Merged(v, old_, new_, j)
  {
  }

  lemma {:induction false} ApplyPrefix(v: seq<Text>, old_: seq<Text>, new_: seq<Text>, n: nat, j: nat)
    requires j <= n <= |v| && Comparable(old_, new_, n)
    ensures Reached(v, old_, new_, n, j)
    decreases j
  {
    hide Reached;
    if j == 0 {
      ReachedStart(v, old_, new_, n);
    } else {
      ApplyPrefix(v, old_, new_, n, j - 1);
      if ChangedBits(old_, new_, n)[j - 1] {
        ReachedChanged(v, old_, new_, n, j);
      } else {
        ReachedUnchanged(v, old_, new_, n, j);
      }
    }
  }

  /** After j slots the receiver has merged them and read exactly their part of the payload. */
  ghost predicate Reached(v: seq<Text>, old_: seq<Text>, new_: seq<Text>, n: nat, j: nat)
    requires j <= n <= |v| && Comparable(old_, new_, n)
  {
    ApplyTo(v, BitsValue(ChangedBits(old_, new_, n)), DiffBody(old_, new_, n), MaskLen(n), j) ==
    Applied(Merged(v, old_, new_, j), MaskLen(n) + |Payload(old_, new_, j)|, true)
  }

  lemma ReachedStart(v: seq<Text>, old_: seq<Text>, new_: seq<Text>, n: nat)
    requires n <= |v| && Comparable(old_, new_, n)
    ensures Reached(v, old_, new_, n, 0)
  {
    hide BitsValue, DiffBody;
    MergedNone(v, old_, new_);
  }

  lemma ReachedChanged(v: seq<Text>, old_: seq<Text>, new_: seq<Text>, n: nat, j: nat)
    requires 0 < j <= n <= |v| && Comparable(old_, new_, n)
    requires Reached(v, old_, new_, n, j - 1) && ChangedBits(old_, new_, n)[j - 1]
    ensures Reached(v, old_, new_, n, j)
  {
    hide BitAt, BitsValue, ApplySlot, Merged, Piece, Payload;
    var bits := ChangedBits(old_, new_, n);
    var mask, body := BitsValue(bits), DiffBody(old_, new_, n);
    var a := ApplyTo(v, mask, body, MaskLen(n), j - 1);
    MaskBit(bits, j - 1);
    MergedNext(v, old_, new_, j - 1);
    PayloadPrefix(old_, new_, j, n);
    PayloadStep(old_, new_, j);
    PieceInside(BE(mask, MaskLen(n)), Payload(old_, new_, j - 1), new_[j - 1], Payload(old_, new_, n));
    ApplyPiece(a, mask, body, j - 1, new_[j - 1]);
  }

  lemma ReachedUnchanged(v: seq<Text>, old_: seq<Text>, new_: seq<Text>, n: nat, j: nat)
    requires 0 < j <= n <= |v| && Comparable(old_, new_, n)
    requires Reached(v, old_, new_, n, j - 1) && !ChangedBits(old_, new_, n)[j - 1]
    ensures Reached(v, old_, new_, n, j)
  {
    hide BitAt, BitsValue, ApplySlot, Merged, Piece, Payload, DiffBody;
    var bits := ChangedBits(old_, new_, n);
    var mask, body := BitsValue(bits), DiffBody(old_, new_, n);
    MaskBit(bits, j - 1);
    MergedNext(v, old_, new_, j - 1);
    PayloadStep(old_, new_, j);
    ApplyNothing(ApplyTo(v, mask, body, MaskLen(n), j - 1), mask, body, j - 1);
  }

  lemma PieceLength(v: Text)
    requires |v| < 256
    ensures |Piece(v)| == 1 + |v|
  {
  }

  lemma ApplyNothing(a: Applied, mask: nat, body: Text, j: nat)
    requires j < |a.vals| && !BitAt(mask, j)
    ensures ApplySlot(a, mask, body, j) == a
  {
  }

  lemma MergedNone(v: seq<Text>, old_: seq<Text>, new_: seq<Text>)
    ensures Merged(v, old_, new_, 0) == v
  {
  }

  /** Applying a DIFF body to any cells sets the slots that differed to their new
      values, leaves every other cell alone and reads the body to its end. */
  lemma ApplyMerges(v: seq<Text>, old_: seq<Text>, new_: seq<Text>, n: nat)
    requires 0 < n <= |v| && Comparable(old_, new_, n)
    ensures ApplyDiff(v, n, DiffBody(old_, new_, n)) ==
            Applied(Merged(v, old_, new_, n), |DiffBody(old_, new_, n)|, true)
  {
    hide BitsValue, ApplyTo, Payload;
    var bits, body := ChangedBits(old_, new_, n), DiffBody(old_, new_, n);
    MaskRoundTrip(bits);
    assert body[..MaskLen(n)] == BE(BitsValue(bits), MaskLen(n));
    ApplyPrefix(v, old_, new_, n, n);
  }

  /** The DIFF codec: applied to the old slots, the DIFF body yields the new ones;
      mask bit i is set exactly when slot i differs. */
  lemma DiffRoundTrip(old_: seq<Text>, new_: seq<Text>)
    requires 0 < |old_| == |new_| && Comparable(old_, new_, |old_|)
    ensures ApplyDiff(old_, |old_|, DiffBody(old_, new_, |old_|)) == Applied(new_, |DiffBody(old_, new_, |old_|)|, true)
    ensures forall i :: 0 <= i < |old_| ==>
              (BitAt(FromBE(DiffBody(old_, new_, |old_|)[..MaskLen(|old_|)]), i) <==> old_[i] != new_[i])
  {
    var n := |old_|;
    var bits, body := ChangedBits(old_, new_, n), DiffBody(old_, new_, n);
    ApplyMerges(old_, old_, new_, n);
    assert Merged(old_, old_, new_, n) == new_;
    MaskRoundTrip(bits);
    assert body[..MaskLen(n)] == BE(BitsValue(bits), MaskLen(n));
    forall i | 0 <= i < n ensures BitAt(BitsValue(bits), i) <==> old_[i] != new_[i] {
      MaskBit(bits, i);
    }
  }
}
