/** The checksums of src/osfx_solidity.c as shift registers of width w, and the
    corruptions they cannot miss. */
module Crc {
  import opened Bytes
  import opened Bits

  /** One shift of a w-bit register, with feedback when the top bit falls out. */
  function Shift(w: nat, poly: nat, c: nat): (r: nat)
    requires w > 0 && poly < P2(w) && c < P2(w)
    ensures r < P2(w)
  {
    if c >= P2(w - 1) then
      XorBound(2 * (c - P2(w - 1)), poly, w);
      Xor(2 * (c - P2(w - 1)), poly)
    else
      2 * c
  }

  function ShiftN(w: nat, poly: nat, c: nat, n: nat): (r: nat)
    requires w > 0 && poly < P2(w) && c < P2(w)
    ensures r < P2(w)
  {
    if n == 0 then c else Shift(w, poly, ShiftN(w, poly, c, n - 1))
  }

  /** A byte enters at the top of the register and is shifted through. */
  function FeedByte(w: nat, poly: nat, c: nat, b: byte): (r: nat)
    requires w >= 8 && poly < P2(w) && c < P2(w)
    ensures r < P2(w)
  {
    EnterBound(w, b);
    XorBound(c, Scale(b, w - 8), w);
    ShiftN(w, poly, Xor(c, Scale(b, w - 8)), 8)
  }

  function Crc(w: nat, poly: nat, init: nat, data: Text): (r: nat)
    requires w >= 8 && poly < P2(w) && init < P2(w)
    ensures r < P2(w)
  {
    if data == [] then init
    else FeedByte(w, poly, Crc(w, poly, init, data[..|data| - 1]), data[|data| - 1])
  }

  lemma EnterBound(w: nat, b: byte)
    requires w >= 8
    ensures P2(8) == 256
    ensures Scale(b, w - 8) < P2(w)
  {
    assert P2(4) == 16 && P2(8) == 16 * P2(4);
    ScaleBound(b, 8, w - 8);
  }

  // ---- The same register one bit at a time -------------------------------

  function FeedBit(w: nat, poly: nat, c: nat, bit: bool): (r: nat)
    requires w > 0 && poly < P2(w) && c < P2(w)
    ensures r < P2(w)
  {
    XorBound(c, if bit then P2(w - 1) else 0, w);
    Shift(w, poly, Xor(c, if bit then P2(w - 1) else 0))
  }

  function FeedBits(w: nat, poly: nat, c: nat, bits: seq<bool>): (r: nat)
    requires w > 0 && poly < P2(w) && c < P2(w)
    ensures r < P2(w)
    decreases |bits|
  {
    if bits == [] then c else FeedBits(w, poly, FeedBit(w, poly, c, bits[0]), bits[1..])
  }

  function ByteBits(b: byte): (bits: seq<bool>)
    ensures |bits| == 8
  {
    EnterBound(8, b);
    BitsOf(b, 8)
  }

  function BitStream(data: Text): (bits: seq<bool>)
    ensures |bits| == 8 * |data|
  {
    if data == [] then [] else BitStream(data[..|data| - 1]) + ByteBits(data[|data| - 1])
  }

  lemma ShiftHigh(w: nat, poly: nat, c: nat)
    requires w > 0 && poly < P2(w) && c < P2(w - 1)
    ensures Xor(P2(w - 1), c) == P2(w - 1) + c
    ensures Shift(w, poly, P2(w - 1) + c) == Xor(2 * c, poly)
  {
    hide Xor;
    XorHigh(w - 1, c);
  }

  /** Shifting is linear: feedback of a difference is the difference of feedbacks. */
  lemma ShiftLinear(w: nat, poly: nat, a: nat, b: nat)
    requires w > 0 && poly < P2(w) && a < P2(w) && b < P2(w)
    ensures Xor(a, b) < P2(w)
    ensures Shift(w, poly, Xor(a, b)) == Xor(Shift(w, poly, a), Shift(w, poly, b))
  {
    hide Xor;
    var top := P2(w - 1);
    XorBound(a, b, w);
    if a < top && b < top {
      XorBound(a, b, w - 1);
      XorDouble(a, b);
    } else if a >= top && b < top {
      ShiftLinearHigh(w, poly, a - top, b);
    } else if a < top {
      ShiftLinearHigh(w, poly, b - top, a);
      XorComm(a, b);
      XorComm(Shift(w, poly, a), Shift(w, poly, b));
    } else {
      ShiftLinearBoth(w, poly, a - top, b - top);
    }
  }

  lemma ShiftLinearHigh(w: nat, poly: nat, a: nat, b: nat)
    requires w > 0 && poly < P2(w) && a < P2(w - 1) && b < P2(w - 1)
    ensures Xor(P2(w - 1) + a, b) < P2(w)
    ensures Shift(w, poly, Xor(P2(w - 1) + a, b)) == Xor(Shift(w, poly, P2(w - 1) + a), Shift(w, poly, b))
  {
    hide Xor;
    var top := P2(w - 1);
    XorBound(a, b, w - 1);
    ShiftHigh(w, poly, a);
    ShiftHigh(w, poly, Xor(a, b));
    XorAssoc(top, a, b);
    XorDouble(a, b);
    XorSwap(2 * a, poly, 2 * b);
  }

  lemma ShiftLinearBoth(w: nat, poly: nat, a: nat, b: nat)
    requires w > 0 && poly < P2(w) && a < P2(w - 1) && b < P2(w - 1)
    ensures Xor(P2(w - 1) + a, P2(w - 1) + b) < P2(w)
    ensures Shift(w, poly, Xor(P2(w - 1) + a, P2(w - 1) + b))
         == Xor(Shift(w, poly, P2(w - 1) + a), Shift(w, poly, P2(w - 1) + b))
  {
    hide Xor;
    var top := P2(w - 1);
    XorBound(a, b, w - 1);
    ShiftHigh(w, poly, a);
    ShiftHigh(w, poly, b);
    XorExchange(top, a, top, b);
    XorEqual(top, top);
    XorComm(0, Xor(a, b));
    XorZero(Xor(a, b));
    XorDouble(a, b);
    XorExchange(2 * a, poly, 2 * b, poly);
    XorEqual(poly, poly);
    XorZero(Xor(2 * a, 2 * b));
  }

  /** With an odd polynomial no nonzero register shifts to zero. */
  lemma ShiftKeepsNonzero(w: nat, poly: nat, c: nat)
    requires w > 0 && poly < P2(w) && c < P2(w) && poly % 2 == 1
    ensures Shift(w, poly, c) % 2 == 1 <==> c >= P2(w - 1)
    ensures Shift(w, poly, c) == 0 <==> c == 0
  {
    if c >= P2(w - 1) {
      XorStep(2 * (c - P2(w - 1)), poly);
    }
  }

  lemma {:induction false} ShiftNFront(w: nat, poly: nat, c: nat, n: nat)
    requires w > 0 && poly < P2(w) && c < P2(w) && n > 0
    ensures ShiftN(w, poly, c, n) == ShiftN(w, poly, Shift(w, poly, c), n - 1)
    decreases n
  {
    if n > 1 {
      ShiftNFront(w, poly, c, n - 1);
    }
  }

  /** Shifting a register into which k bits were entered leaves k - 1 bits entered
      into the register that took the first of them. */
  lemma EnterStep(w: nat, poly: nat, c: nat, v: nat, k: nat)
    requires 0 < k <= w && poly < P2(w) && c < P2(w) && v < P2(k)
    ensures Xor(c, Scale(v, w - k)) < P2(w)
    ensures Shift(w, poly, Xor(c, Scale(v, w - k)))
         == Xor(FeedBit(w, poly, c, TopBit(v, k)), Scale(Rest(v, k), w - (k - 1)))
  {
    hide Xor;
    var rest := Rest(v, k);
    var u, enter := Scale(rest, w - k), if TopBit(v, k) then P2(w - 1) else 0;
    ScaleBound(v, k, w - k);
    XorBound(c, Scale(v, w - k), w);
    EnterSplit(w, c, v, k);
    ScaleBound(rest, k - 1, w - k);
    XorBound(c, enter, w);
    ShiftLinear(w, poly, Xor(c, enter), u);
  }

  /** Entering k bits at once and shifting k times is feeding them one by one. */
  lemma {:induction false} FeedAtOnce(w: nat, poly: nat, c: nat, v: nat, k: nat)
    requires 0 < w && k <= w && poly < P2(w) && c < P2(w) && v < P2(k)
    ensures Xor(c, Scale(v, w - k)) < P2(w)
    ensures ShiftN(w, poly, Xor(c, Scale(v, w - k)), k) == FeedBits(w, poly, c, BitsOf(v, k))
    decreases k
  {
    hide Xor;
    ScaleBound(v, k, w - k);
    XorBound(c, Scale(v, w - k), w);
    if k == 0 {
      ScaleZero(w);
      XorZero(c);
    } else {
      EnterStep(w, poly, c, v, k);
      ShiftNFront(w, poly, Xor(c, Scale(v, w - k)), k);
      FeedAtOnce(w, poly, FeedBit(w, poly, c, TopBit(v, k)), Rest(v, k), k - 1);
      assert BitsOf(v, k) == [TopBit(v, k)] + BitsOf(Rest(v, k), k - 1);
    }
  }

  lemma EnterSplit(w: nat, c: nat, v: nat, k: nat)
    requires 0 < k <= w && c < P2(w) && v < P2(k)
    ensures Xor(c, Scale(v, w - k))
         == Xor(Xor(c, if TopBit(v, k) then P2(w - 1) else 0), Scale(Rest(v, k), w - k))
  {
    hide Xor, Scale, P2;
    if TopBit(v, k) {
      var rest := Rest(v, k);
      ScaleAdd(rest, P2(k - 1), w - k);
      ScaleP2(k - 1, w - k);
      ScaleBound(rest, k - 1, w - k);
      XorHigh(w - 1, Scale(rest, w - k));
      XorAssoc(c, P2(w - 1), Scale(rest, w - k));
    } else {
      XorZero(c);
    }
  }

  lemma {:induction false} FeedBitsAppend(w: nat, poly: nat, c: nat, x: seq<bool>, y: seq<bool>)
    requires w > 0 && poly < P2(w) && c < P2(w)
    ensures FeedBits(w, poly, c, x + y) == FeedBits(w, poly, FeedBits(w, poly, c, x), y)
    decreases |x|
  {
    if x == [] {
      assert x + y == y;
    } else {
      assert (x + y)[1..] == x[1..] + y;
      FeedBitsAppend(w, poly, FeedBit(w, poly, c, x[0]), x[1..], y);
    }
  }

  lemma NothingFed(w: nat, poly: nat, c: nat)
    requires w > 0 && poly < P2(w) && c < P2(w)
    ensures FeedBits(w, poly, c, []) == c
  {
  }

  lemma FedByte(w: nat, poly: nat, c: nat, b: byte)
    requires w >= 8 && poly < P2(w) && c < P2(w)
    ensures FeedByte(w, poly, c, b) == FeedBits(w, poly, c, ByteBits(b))
  {
    hide FeedBits, ShiftN, Xor, Scale, BitsOf;
    EnterBound(w, b);
    FeedAtOnce(w, poly, c, b, 8);
  }

  /** The byte-wise checksum is the bit-wise register over the whole message. */
  lemma {:induction false} CrcIsBitwise(w: nat, poly: nat, init: nat, data: Text)
    requires w >= 8 && poly < P2(w) && init < P2(w)
    ensures Crc(w, poly, init, data) == FeedBits(w, poly, init, BitStream(data))
    decreases |data|
  {
    hide FeedBits, ByteBits, FeedByte;
    if data == [] {
      NothingFed(w, poly, init);
    } else {
      var front, b := data[..|data| - 1], data[|data| - 1];
      CrcIsBitwise(w, poly, init, front);
      FedByte(w, poly, Crc(w, poly, init, front), b);
      FeedBitsAppend(w, poly, init, BitStream(front), ByteBits(b));
    }
  }

  // ---- Differences -------------------------------------------------------

  function Diff(x: seq<bool>, y: seq<bool>): (e: seq<bool>)
    requires |x| == |y|
    ensures |e| == |x|
  {
    seq(|x|, i requires 0 <= i < |x| => x[i] != y[i])
  }

  lemma {:induction false} FeedLinear(w: nat, poly: nat, a: nat, b: nat, x: seq<bool>, y: seq<bool>)
    requires w > 0 && poly < P2(w) && a < P2(w) && b < P2(w) && |x| == |y|
    ensures Xor(a, b) < P2(w)
    ensures Xor(FeedBits(w, poly, a, x), FeedBits(w, poly, b, y)) == FeedBits(w, poly, Xor(a, b), Diff(x, y))
    decreases |x|
  {
    hide Xor, FeedBit;
    XorBound(a, b, w);
    if x != [] {
      FeedBitLinear(w, poly, a, b, x[0], y[0]);
      FeedLinear(w, poly, FeedBit(w, poly, a, x[0]), FeedBit(w, poly, b, y[0]), x[1..], y[1..]);
      assert Diff(x, y)[1..] == Diff(x[1..], y[1..]);
    }
  }

  lemma FeedBitLinear(w: nat, poly: nat, a: nat, b: nat, x: bool, y: bool)
    requires w > 0 && poly < P2(w) && a < P2(w) && b < P2(w)
    ensures Xor(a, b) < P2(w)
    ensures Xor(FeedBit(w, poly, a, x), FeedBit(w, poly, b, y)) == FeedBit(w, poly, Xor(a, b), x != y)
  {
    hide Xor, Shift;
    var top := P2(w - 1);
    var u, v := if x then top else 0, if y then top else 0;
    XorBound(a, b, w);
    XorBound(a, u, w);
    XorBound(b, v, w);
    ShiftLinear(w, poly, Xor(a, u), Xor(b, v));
    XorExchange(a, u, b, v);
    XorEqual(top, top);
    XorZero(top);
    XorComm(0, top);
    XorZero(0);
  }

  ghost predicate AllFalse(e: seq<bool>) {
    forall i :: 0 <= i < |e| ==> !e[i]
  }

  /** Zeros neither raise nor clear a difference. */
  lemma {:induction false} FeedZeros(w: nat, poly: nat, c: nat, e: seq<bool>)
    requires w > 0 && poly < P2(w) && c < P2(w) && poly % 2 == 1 && AllFalse(e)
    ensures FeedBits(w, poly, c, e) == 0 <==> c == 0
    decreases |e|
  {
    if e != [] {
      XorZero(c);
      ShiftKeepsNonzero(w, poly, c);
      FeedZeros(w, poly, FeedBit(w, poly, c, e[0]), e[1..]);
    }
  }

  /** A register that is v moved up after taking a bit was h moved up before. */
  lemma HighBitsBefore(w: nat, poly: nat, c: nat, bit: bool, h: nat, n: nat) returns (g: nat)
    requires poly < P2(w) && c < P2(w) && poly % 2 == 1 && n < w
    requires FeedBit(w, poly, c, bit) == Scale(h, n + 1)
    ensures c == Scale(g, n)
  {
    hide Xor;
    var top := P2(w - 1);
    var enter := if bit then top else 0;
    var c' := Xor(c, enter);
    XorBound(c, enter, w);
    ShiftKeepsNonzero(w, poly, c');
    assert c' == Scale(h, n);
    XorCancel(c, enter);
    if bit {
      XorComm(c', top);
      XorHigh(w - 1, c');
      ScaleP2(w - 1 - n, n);
      ScaleAdd(P2(w - 1 - n), h, n);
      g := P2(w - 1 - n) + h;
    } else {
      XorZero(c);
      g := h;
    }
  }

  /** A register that k <= w further bits bring to zero has only its k high bits set. */
  lemma {:induction false} OnlyHighBits(w: nat, poly: nat, c: nat, e: seq<bool>) returns (h: nat)
    requires w > 0 && poly < P2(w) && c < P2(w) && poly % 2 == 1 && |e| <= w
    requires FeedBits(w, poly, c, e) == 0
    ensures c == Scale(h, w - |e|)
    decreases |e|
  {
    if e == [] {
      ScaleZero(w);
      h := 0;
    } else {
      h := OnlyHighBits(w, poly, FeedBit(w, poly, c, e[0]), e[1..]);
      h := HighBitsBefore(w, poly, c, e[0], h, w - |e|);
    }
  }

  /** From a clean register, no nonzero word of at most w bits is absorbed. */
  lemma {:induction false} NoBurstVanishes(w: nat, poly: nat, e: seq<bool>)
    requires w > 0 && poly < P2(w) && poly % 2 == 1 && |e| <= w
    requires FeedBits(w, poly, 0, e) == 0
    ensures AllFalse(e)
    decreases |e|
  {
    hide Xor;
    if e != [] {
      var top := P2(w - 1);
      XorZero(0);
      XorComm(0, top);
      XorZero(top);
      ShiftKeepsNonzero(w, poly, top);
      var h := OnlyHighBits(w, poly, FeedBit(w, poly, 0, e[0]), e[1..]);
      assert Scale(h, w - |e| + 1) % 2 == 0;
      assert !e[0];
      NoBurstVanishes(w, poly, e[1..]);
    }
  }

  /** Two bit streams differ only inside the n bits from position p on. */
  ghost predicate DifferWithin(x: seq<bool>, y: seq<bool>, p: nat, n: nat) {
    |x| == |y| && forall i :: 0 <= i < |x| && x[i] != y[i] ==> p <= i < p + n
  }

  lemma BurstInBits(w: nat, poly: nat, c: nat, x: seq<bool>, y: seq<bool>, p: nat)
    requires w > 0 && poly < P2(w) && c < P2(w) && poly % 2 == 1
    requires DifferWithin(x, y, p, w)
    requires FeedBits(w, poly, c, x) == FeedBits(w, poly, c, y)
    ensures x == y
  {
    hide Xor, FeedBits;
    var e := Diff(x, y);
    FeedLinear(w, poly, c, c, x, y);
    XorEqual(c, c);
    XorEqual(FeedBits(w, poly, c, x), FeedBits(w, poly, c, y));
    var lo := if p < |e| then p else |e|;
    var hi := if p + w < |e| then p + w else |e|;
    WindowVanishes(w, poly, e, lo, hi);
    forall i | 0 <= i < |x| ensures x[i] == y[i] {
      assert !e[i];
    }
  }

  lemma WindowVanishes(w: nat, poly: nat, e: seq<bool>, lo: nat, hi: nat)
    requires w > 0 && poly < P2(w) && poly % 2 == 1
    requires lo <= hi <= |e| && hi - lo <= w
    requires AllFalse(e[..lo]) && AllFalse(e[hi..])
    requires FeedBits(w, poly, 0, e) == 0
    ensures AllFalse(e)
  {
    hide FeedBits;
    var head, window, tail := e[..lo], e[lo..hi], e[hi..];
    assert e == head + (window + tail);
    FeedBitsAppend(w, poly, 0, head, window + tail);
    FeedZeros(w, poly, 0, head);
    FeedBitsAppend(w, poly, 0, window, tail);
    FeedZeros(w, poly, FeedBits(w, poly, 0, window), tail);
    NoBurstVanishes(w, poly, window);
    assert e == head + window + tail;
  }

  lemma ByteBitsInjective(a: byte, b: byte)
    requires ByteBits(a) == ByteBits(b)
    ensures a == b
  {
    EnterBound(8, a);
    EnterBound(8, b);
    BitsOfInjective(a, b, 8);
  }

  lemma {:induction false} BitStreamInjective(f: Text, g: Text)
    requires |f| == |g| && BitStream(f) == BitStream(g)
    ensures f == g
    decreases |f|
  {
    hide BitsOf, ByteBits;
    if f != [] {
      var n := |f| - 1;
      assert BitStream(f)[..8 * n] == BitStream(f[..n]);
      assert BitStream(g)[..8 * n] == BitStream(g[..n]);
      assert BitStream(f)[8 * n..] == ByteBits(f[n]);
      assert BitStream(g)[8 * n..] == ByteBits(g[n]);
      ByteBitsInjective(f[n], g[n]);
      BitStreamInjective(f[..n], g[..n]);
      assert f == f[..n] + [f[n]] && g == g[..n] + [g[n]];
    }
  }

  /** Burst detection at any length: with an odd polynomial of degree w, two different
      messages whose differences lie within w consecutive bits never share a checksum. */
  lemma BurstDetected(w: nat, poly: nat, init: nat, f: Text, g: Text, p: nat)
    requires w >= 8 && poly < P2(w) && init < P2(w) && poly % 2 == 1
    requires |f| == |g| && f != g && DifferWithin(BitStream(f), BitStream(g), p, w)
    ensures Crc(w, poly, init, f) != Crc(w, poly, init, g)
  {
    CrcIsBitwise(w, poly, init, f);
    CrcIsBitwise(w, poly, init, g);
    if Crc(w, poly, init, f) == Crc(w, poly, init, g) {
      BurstInBits(w, poly, init, BitStream(f), BitStream(g), p);
      BitStreamInjective(f, g);
    }
  }

  // ---- The message followed by its own checksum --------------------------

  lemma P2Bytes()
    ensures P2(8) == 256 && P2(16) == 0x1_0000
  {
    assert P2(4) == 16 && P2(8) == 16 * P2(4);
    assert P2(12) == 16 * P2(8) && P2(16) == 16 * P2(12);
  }

  lemma {:induction false} ShiftNZero(w: nat, poly: nat, c: nat, n: nat)
    requires w > 0 && poly < P2(w) && c < P2(w) && poly % 2 == 1
    ensures ShiftN(w, poly, c, n) == 0 <==> c == 0
    decreases n
  {
    if n > 0 {
      ShiftNZero(w, poly, c, n - 1);
      ShiftKeepsNonzero(w, poly, ShiftN(w, poly, c, n - 1));
    }
  }

  lemma WordBits(hi: byte, lo: byte)
    ensures hi * 256 + lo < P2(16)
    ensures BitsOf(hi * 256 + lo, 16) == ByteBits(hi) + ByteBits(lo)
  {
    P2Bytes();
    BitsOfSplit(hi, lo, 8, 8);
    ScaleByte(hi);
  }

  lemma BitStreamSnoc(data: Text, b: byte)
    ensures BitStream(data + [b]) == BitStream(data) + ByteBits(b)
  {
    hide ByteBits;
    assert (data + [b])[..|data|] == data;
  }

  lemma BitStreamAppend(data: Text, hi: byte, lo: byte)
    ensures BitStream(data + [hi, lo]) == BitStream(data) + (ByteBits(hi) + ByteBits(lo))
  {
    hide ByteBits, BitStream;
    assert data + [hi, lo] == (data + [hi]) + [lo];
    BitStreamSnoc(data, hi);
    BitStreamSnoc(data + [hi], lo);
  }

  /** A checksum transmitted after its message is right exactly when the register
      that has taken in both is zero. */
  lemma Residue(poly: uint16, init: uint16, data: Text, hi: byte, lo: byte)
    requires poly % 2 == 1
    ensures Crc16Of(poly, init, data + [hi, lo]) == 0 <==> Crc16Of(poly, init, data) == hi * 256 + lo
  {
    hide Xor, FeedBits, ShiftN, BitStream;
    P2Bytes();
    var c, v := Crc(16, poly, init, data), hi * 256 + lo;
    CrcIsBitwise(16, poly, init, data);
    CrcIsBitwise(16, poly, init, data + [hi, lo]);
    BitStreamAppend(data, hi, lo);
    WordBits(hi, lo);
    FeedBitsAppend(16, poly, init, BitStream(data), BitsOf(v, 16));
    FeedAtOnce(16, poly, c, v, 16);
    ShiftNZero(16, poly, Xor(c, v), 16);
    XorEqual(c, v);
  }

  lemma {:induction false} OneBitTravels(w: nat, poly: nat, k: nat)
    requires w >= 8 && poly < P2(w) && k <= 7
    ensures P2(w - 8) < P2(w) && ShiftN(w, poly, P2(w - 8), k) == P2(w - 8 + k)
    decreases k
  {
    P2Less(w - 8 + k, w);
    if k > 0 {
      OneBitTravels(w, poly, k - 1);
      P2Less(w - 8 + k - 1, w - 1);
    } else {
      P2Less(w - 8, w);
    }
  }

  lemma {:induction false} P2Less(i: nat, j: nat)
    requires i < j
    ensures P2(i) < P2(j)
    decreases j
  {
    if i < j - 1 {
      P2Less(i, j - 1);
    }
  }

  lemma OneBitEnters(w: nat)
    requires w >= 8
    ensures Scale(1, w - 8) == P2(w - 8) && Xor(0, Scale(1, w - 8)) == P2(w - 8)
  {
    assert P2(0) == 1;
    ScaleP2(0, w - 8);
    XorComm(0, P2(w - 8));
    XorZero(P2(w - 8));
  }

  /** From a zero register the byte 1 leaves the polynomial itself. */
  lemma OneByteLeavesPolynomial(w: nat, poly: nat)
    requires w >= 8 && poly < P2(w)
    ensures FeedByte(w, poly, 0, 1) == poly
  {
    hide Xor, Scale;
    OneBitEnters(w);
    OneBitTravels(w, poly, 7);
    XorComm(0, poly);
    XorZero(poly);
    assert ShiftN(w, poly, P2(w - 8), 8) == Shift(w, poly, P2(w - 1));
  }

  // ---- The loops of osfx_crc8 and osfx_crc16_ccitt -----------------------

  function Crc8Of(poly: uint16, init: byte, data: Text): byte {
    P2Bytes();
    Crc(8, poly % 256, init, data)
  }

  function Crc16Of(poly: uint16, init: uint16, data: Text): uint16 {
    P2Bytes();
    Crc(16, poly, init, data)
  }

  lemma CrcNext(w: nat, poly: nat, init: nat, data: Text, i: nat)
    requires w >= 8 && poly < P2(w) && init < P2(w) && i < |data|
    ensures Crc(w, poly, init, data[..i + 1]) == FeedByte(w, poly, Crc(w, poly, init, data[..i]), data[i])
  {
    assert data[..i + 1][..i] == data[..i];
  }

  /** One turn of the inner loop: the shifted-out bit decides on the feedback. */
  lemma Turn8(poly: nat, crc: byte)
    requires poly < 256
    ensures P2(8) == 256
    ensures Xor(crc * 2 % 256, poly) < 256
    ensures Shift(8, poly, crc) == if crc >= 0x80 then Xor(crc * 2 % 256, poly) else crc * 2 % 256
  {
    P2Bytes();
    assert P2(8) == 2 * P2(7);
    hide P2, Xor;
    var low := if crc >= 0x80 then 2 * (crc - 0x80) else 2 * crc;
    assert crc * 2 % 256 == low;
    XorBound(low, poly, 8);
  }

  lemma Turn16(poly: uint16, crc: uint16)
    ensures P2(16) == 0x1_0000
    ensures Xor(crc * 2 % 0x1_0000, poly) < 0x1_0000
    ensures Shift(16, poly, crc) == if crc >= 0x8000 then Xor(crc * 2 % 0x1_0000, poly) else crc * 2 % 0x1_0000
  {
    P2Bytes();
    assert P2(16) == 2 * P2(15);
    hide P2, Xor;
    var low := if crc >= 0x8000 then 2 * (crc - 0x8000) else 2 * crc;
    assert crc * 2 % 0x1_0000 == low;
    XorBound(low, poly, 16);
  }

  lemma Enter8(crc: byte, b: byte)
    ensures Xor(crc, b) < 256
  {
    P2Bytes();
    XorBound(crc, b, 8);
  }

  lemma Enter16(crc: uint16, b: int)
    requires 0 <= b < 256
    ensures Scale(b, 8) == b * 256
    ensures Xor(crc, b * 256) < 0x1_0000
  {
    P2Bytes();
    ScaleByte(b);
    XorBound(crc, b * 256, 16);
  }

  lemma ScaleByte(b: nat)
    ensures Scale(b, 8) == b * 256
  {
    assert Scale(b, 1) == 2 * b;
    assert Scale(b, 2) == 2 * Scale(b, 1);
    assert Scale(b, 3) == 2 * Scale(b, 2);
    assert Scale(b, 4) == 2 * Scale(b, 3);
    assert Scale(b, 5) == 2 * Scale(b, 4);
    assert Scale(b, 6) == 2 * Scale(b, 5);
    assert Scale(b, 7) == 2 * Scale(b, 6);
  }

  method ComputeCrc8(data: Text, poly: uint16, init: byte) returns (crc: byte)
    ensures crc == Crc8Of(poly, init, data)
  {
    P2Bytes();
    crc := init;
    if |data| == 0 {
      return;
    }
    for i := 0 to |data|
      invariant crc == Crc8Of(poly, init, data[..i])
    {
      Enter8(crc, data[i]);
      CrcNext(8, poly % 256, init, data, i);
      crc := Xor(crc, data[i]);
      ghost var entered := crc;
      for j := 0 to 8
        invariant crc == ShiftN(8, poly % 256, entered, j)
      {
        Turn8(poly % 256, crc);
        if crc >= 0x80 {
          crc := Xor(crc * 2 % 256, poly % 256);
        } else {
          crc := crc * 2 % 256;
        }
      }
    }
    assert data[..|data|] == data;
  }

  method ComputeCrc16(data: Text, poly: uint16, init: uint16) returns (crc: uint16)
    ensures crc == Crc16Of(poly, init, data)
  {
    P2Bytes();
    crc := init;
    if |data| == 0 {
      return;
    }
    for i := 0 to |data|
      invariant crc == Crc16Of(poly, init, data[..i])
    {
      var b: int := data[i];
      Enter16(crc, b);
      CrcNext(16, poly, init, data, i);
      crc := Xor(crc, b * 256);
      ghost var entered := crc;
      for j := 0 to 8
        invariant crc == ShiftN(16, poly, entered, j)
      {
        Turn16(poly, crc);
        if crc >= 0x8000 {
          crc := Xor(crc * 2 % 0x1_0000, poly);
        } else {
          crc := crc * 2 % 0x1_0000;
        }
      }
    }
    assert data[..|data|] == data;
  }
}
