/** What the session key says about the timestamp it was derived from
    (derive_key in src/osfx_secure_session.c). */
module KeyDerivation {
  import opened Bytes
  import opened Bits
  import S = SecureSession

  const WORD: int := 0x1_0000_0000

  /** All that the key sees of a timestamp: its two 32-bit words, mixed. */
  function Fold(ts: uint64): uint32 {
    S.XorWord(ts % 0x1_0000_0000, ts / 0x1_0000_0000 % 0x1_0000_0000)
  }

  // ---- Two runs of the generator -----------------------------------------

  /** The gap between two runs is multiplied at each turn, up to a whole number of words. */
  lemma NextGap(x: uint32, y: uint32, i: nat) returns (k: int)
    ensures S.Turned(x, i + 1) - S.Turned(y, i + 1) == 1664525 * (S.Turned(x, i) - S.Turned(y, i)) + WORD * k
  {
    var u, v := S.Turned(x, i) * 1664525 + 1013904223 + i, S.Turned(y, i) * 1664525 + 1013904223 + i;
    k := v / WORD - u / WORD;
  }

  predicate Small(d: int) {
    -0x100_0000 < d < 0x100_0000
  }

  lemma TopByteGap(x: uint32, y: uint32)
    requires x / 0x100_0000 % 256 == y / 0x100_0000 % 256
    ensures Small(x - y)
  {
    assert x / 0x100_0000 < 256 && y / 0x100_0000 < 256;
  }

  /** Six gaps in a row, and the whole words by which each exceeds its multiple of the first. */
  datatype Gaps = Gaps(
    d1: int, d2: int, d3: int, d4: int, d5: int, d6: int,
    m2: int, m3: int, m4: int, m5: int, m6: int)

  predicate Linked(g: Gaps) {
    && g.d2 == 1664525 * g.d1 + WORD * g.m2
    && g.d3 == 389569705 * g.d1 + WORD * g.m3
    && g.d4 == 2940799637 * g.d1 + WORD * g.m4
    && g.d5 == 158984081 * g.d1 + WORD * g.m5
    && g.d6 == 2862450781 * g.d1 + WORD * g.m6
  }

  predicate AllSmall(g: Gaps) {
    Small(g.d1) && Small(g.d2) && Small(g.d3) && Small(g.d4) && Small(g.d5) && Small(g.d6)
  }

  function Abs(c: int): nat {
    if c < 0 then -c else c
  }

  predicate Weigh(a: nat, p: int) {
    -0xFF_FFFF * a <= p <= 0xFF_FFFF * a
  }

  lemma Weighed(c: int, d: int)
    requires Small(d)
    ensures Weigh(Abs(c), c * d)
  {
    if c < 0 {
      assert -c * d <= -c * 0xFF_FFFF && -c * d >= -c * -0xFF_FFFF;
    } else {
      assert c * d <= c * 0xFF_FFFF && c * d >= c * -0xFF_FFFF;
    }
  }

  /** A combination of small gaps with weights up to 256 in all that comes to whole words is zero. */
  lemma WholeWords(g: Gaps, c1: int, c2: int, c3: int, c4: int, c5: int, c6: int, t: int)
    requires AllSmall(g) && Abs(c1) + Abs(c2) + Abs(c3) + Abs(c4) + Abs(c5) + Abs(c6) <= 256
    requires c1 * g.d1 + c2 * g.d2 + c3 * g.d3 + c4 * g.d4 + c5 * g.d5 + c6 * g.d6 == WORD * t
    ensures t == 0
  {
    hide Weigh, Abs, Small;
    Weighed(c1, g.d1);
    Weighed(c2, g.d2);
    Weighed(c3, g.d3);
    Weighed(c4, g.d4);
    Weighed(c5, g.d5);
    Weighed(c6, g.d6);
    BoundedSum(c1 * g.d1, c2 * g.d2, c3 * g.d3, c4 * g.d4, c5 * g.d5, c6 * g.d6,
               Abs(c1), Abs(c2), Abs(c3), Abs(c4), Abs(c5), Abs(c6), t);
  }

  lemma BoundedSum(p1: int, p2: int, p3: int, p4: int, p5: int, p6: int,
                   a1: nat, a2: nat, a3: nat, a4: nat, a5: nat, a6: nat, t: int)
    requires Weigh(a1, p1) && Weigh(a2, p2) && Weigh(a3, p3) && Weigh(a4, p4) && Weigh(a5, p5) && Weigh(a6, p6)
    requires a1 + a2 + a3 + a4 + a5 + a6 <= 256 && p1 + p2 + p3 + p4 + p5 + p6 == WORD * t
    ensures t == 0
  {
  }

  lemma Relation1(g: Gaps)
    requires Linked(g) && AllSmall(g)
    ensures -2 * g.d1 - 4 * g.d2 + 3 * g.d3 + 28 * g.d4 - 12 * g.d5 - 9 * g.d6 == 0
  {
    hide AllSmall;
    var t := 13 * g.d1 - 4 * g.m2 + 3 * g.m3 + 28 * g.m4 - 12 * g.m5 - 9 * g.m6;
    assert -2 * g.d1 - 4 * g.d2 + 3 * g.d3 + 28 * g.d4 - 12 * g.d5 - 9 * g.d6 == WORD * t;
    WholeWords(g, -2, -4, 3, 28, -12, -9, t);
  }

  lemma Relation2(g: Gaps)
    requires Linked(g) && AllSmall(g)
    ensures 13 * g.d1 - 20 * g.d2 + 15 * g.d3 + 9 * g.d4 + 13 * g.d5 - 18 * g.d6 == 0
  {
    hide AllSmall;
    var t := -4 * g.d1 - 20 * g.m2 + 15 * g.m3 + 9 * g.m4 + 13 * g.m5 - 18 * g.m6;
    assert 13 * g.d1 - 20 * g.d2 + 15 * g.d3 + 9 * g.d4 + 13 * g.d5 - 18 * g.d6 == WORD * t;
    WholeWords(g, 13, -20, 15, 9, 13, -18, t);
  }

  lemma Relation3(g: Gaps)
    requires Linked(g) && AllSmall(g)
    ensures -15 * g.d1 - 1 * g.d2 + 10 * g.d4 + 22 * g.d5 - 28 * g.d6 == 0
  {
    hide AllSmall;
    var t := -11 * g.d1 - 1 * g.m2 + 10 * g.m4 + 22 * g.m5 - 28 * g.m6;
    assert -15 * g.d1 - 1 * g.d2 + 10 * g.d4 + 22 * g.d5 - 28 * g.d6 == WORD * t;
    WholeWords(g, -15, -1, 0, 10, 22, -28, t);
  }

  lemma Relation4(g: Gaps)
    requires Linked(g) && AllSmall(g)
    ensures -17 * g.d1 - 17 * g.d2 + 12 * g.d3 + 6 * g.d4 - 14 * g.d5 + 26 * g.d6 == 0
  {
    hide AllSmall;
    var t := 22 * g.d1 - 17 * g.m2 + 12 * g.m3 + 6 * g.m4 - 14 * g.m5 + 26 * g.m6;
    assert -17 * g.d1 - 17 * g.d2 + 12 * g.d3 + 6 * g.d4 - 14 * g.d5 + 26 * g.d6 == WORD * t;
    WholeWords(g, -17, -17, 12, 6, -14, 26, t);
  }

  lemma Relation5(g: Gaps)
    requires Linked(g) && AllSmall(g)
    ensures -1 * g.d1 + 2 * g.d2 - 26 * g.d3 + 22 * g.d4 + 17 * g.d5 + 10 * g.d6 == 0
  {
    hide AllSmall;
    var t := 20 * g.d1 + 2 * g.m2 - 26 * g.m3 + 22 * g.m4 + 17 * g.m5 + 10 * g.m6;
    assert -1 * g.d1 + 2 * g.d2 - 26 * g.d3 + 22 * g.d4 + 17 * g.d5 + 10 * g.d6 == WORD * t;
    WholeWords(g, -1, 2, -26, 22, 17, 10, t);
  }

  lemma Relation6(g: Gaps)
    requires Linked(g) && AllSmall(g)
    ensures -4 * g.d1 - 56 * g.d2 - 42 * g.d3 - 18 * g.d4 - 41 * g.d5 - 35 * g.d6 == 0
  {
    hide AllSmall;
    var t := -41 * g.d1 - 56 * g.m2 - 42 * g.m3 - 18 * g.m4 - 41 * g.m5 - 35 * g.m6;
    assert -4 * g.d1 - 56 * g.d2 - 42 * g.d3 - 18 * g.d4 - 41 * g.d5 - 35 * g.d6 == WORD * t;
    WholeWords(g, -4, -56, -42, -18, -41, -35, t);
  }

  /** The six relations have no common solution but zero. */
  lemma GapsVanish(g: Gaps)
    requires Linked(g) && AllSmall(g)
    ensures g.d1 == 0
  {
    hide Linked, AllSmall;
    Relation1(g);
    Relation2(g);
    Relation3(g);
    Relation4(g);
    Relation5(g);
    Relation6(g);
  }

  /** One more turn on a multiple of the first gap. */
  lemma Carry(first: int, here: int, next: int, p: int, q: int, r: int, m: int, k: int) returns (carried: int)
    requires here == p * first + WORD * m && next == 1664525 * here + WORD * k && 1664525 * p == q + WORD * r
    ensures next == q * first + WORD * carried
  {
    carried := 1664525 * m + k + r * first;
    assert (1664525 * p) * first == (q + WORD * r) * first == q * first + WORD * (r * first);
  }

  lemma GapsOf(x: uint32, y: uint32) returns (g: Gaps)
    requires forall i :: 1 <= i <= 6 ==> S.Turned(x, i) / 0x100_0000 % 256 == S.Turned(y, i) / 0x100_0000 % 256
    ensures Linked(g) && AllSmall(g) && g.d1 == S.Turned(x, 1) - S.Turned(y, 1)
  {
    hide S.Turned, Small;
    forall i | 1 <= i <= 6 ensures Small(S.Turned(x, i) - S.Turned(y, i)) {
      TopByteGap(S.Turned(x, i), S.Turned(y, i));
    }
    var d1 := S.Turned(x, 1) - S.Turned(y, 1);
    var d2 := S.Turned(x, 2) - S.Turned(y, 2);
    var d3 := S.Turned(x, 3) - S.Turned(y, 3);
    var d4 := S.Turned(x, 4) - S.Turned(y, 4);
    var d5 := S.Turned(x, 5) - S.Turned(y, 5);
    var d6 := S.Turned(x, 6) - S.Turned(y, 6);
    var k1 := NextGap(x, y, 1);
    var k2 := NextGap(x, y, 2);
    var k3 := NextGap(x, y, 3);
    var k4 := NextGap(x, y, 4);
    var k5 := NextGap(x, y, 5);
    var m2 := k1;
    var m3 := Carry(d1, d2, d3, 1664525, 389569705, 645, m2, k2);
    var m4 := Carry(d1, d3, d4, 389569705, 2940799637, 150978, m3, k3);
    var m5 := Carry(d1, d4, d5, 2940799637, 158984081, 1139714, m4, k4);
    var m6 := Carry(d1, d5, d6, 158984081, 2862450781, 61614, m5, k5);
    g := Gaps(d1, d2, d3, d4, d5, d6, m2, m3, m4, m5, m6);
  }

  /** The multiplier is odd, so one turn loses nothing. */
  lemma TurnInjective(x: uint32, y: uint32)
    requires S.Turned(x, 1) == S.Turned(y, 1)
    ensures x == y
  {
    var k := NextGap(x, y, 0);
    assert S.Turned(x, 0) == x && S.Turned(y, 0) == y;
    var t := -4276115653 * k - 1657219 * (x - y);
    assert x - y == WORD * t;
  }

  /** Six key bytes already determine the seed. */
  lemma SeedsSeparate(x: uint32, y: uint32)
    requires forall i :: 1 <= i <= 6 ==> S.Turned(x, i) / 0x100_0000 % 256 == S.Turned(y, i) / 0x100_0000 % 256
    ensures x == y
  {
    hide S.Turned, Linked, AllSmall;
    var g := GapsOf(x, y);
    GapsVanish(g);
    TurnInjective(x, y);
  }

  // ---- Keys and timestamps -----------------------------------------------

  lemma SeedOfFold(aid: uint32, ts: uint64)
    ensures S.Seed(aid, ts) == Xor(aid, Fold(ts))
  {
    hide Xor;
    XorAssoc(aid, ts % 0x1_0000_0000, ts / 0x1_0000_0000 % 0x1_0000_0000);
  }

  /** Two devices, each at its own time, derive the same key exactly when aid and fold mix to the
      same word. */
  lemma KeysMeetIff(a: uint32, t: uint64, b: uint32, u: uint64)
    ensures S.DeriveKey(a, t) == S.DeriveKey(b, u) <==> Xor(a, Fold(t)) == Xor(b, Fold(u))
  {
    hide Xor, S.Turned, S.Seed, Fold;
    SeedOfFold(a, t);
    SeedOfFold(b, u);
    var x, y := S.Seed(a, t), S.Seed(b, u);
    if S.DeriveKey(a, t) == S.DeriveKey(b, u) {
      forall i | 1 <= i <= 6 ensures S.Turned(x, i) / 0x100_0000 % 256 == S.Turned(y, i) / 0x100_0000 % 256 {
        assert S.DeriveKey(a, t)[i - 1] == S.DeriveKey(b, u)[i - 1];
      }
      SeedsSeparate(x, y);
    }
  }

  /** At one time no two aids share a key. */
  lemma DevicesSeparate(a: uint32, b: uint32, ts: uint64)
    ensures S.DeriveKey(a, ts) == S.DeriveKey(b, ts) <==> a == b
  {
    hide Xor, S.DeriveKey, Fold;
    KeysMeetIff(a, ts, b, ts);
    XorCancel(a, Fold(ts));
    XorCancel(b, Fold(ts));
  }

  /** For one aid, two timestamps derive the same key exactly when their words mix to the
      same fold. */
  lemma KeysEqualIff(aid: uint32, t: uint64, u: uint64)
    ensures S.DeriveKey(aid, t) == S.DeriveKey(aid, u) <==> Fold(t) == Fold(u)
  {
    hide Xor, S.DeriveKey, Fold;
    KeysMeetIff(aid, t, aid, u);
    XorComm(aid, Fold(t));
    XorComm(aid, Fold(u));
    XorCancel(Fold(t), aid);
    XorCancel(Fold(u), aid);
  }

  /** 1664525^n, unreduced. */
  function Power(n: nat): nat {
    if n == 0 then 1 else 1664525 * Power(n - 1)
  }

  /** The generator without its 32-bit words. */
  function Unreduced(x: nat, n: nat): nat {
    if n == 0 then x else 1664525 * Unreduced(x, n - 1) + 1013904223 + n - 1
  }

  lemma ReduceLate(u: nat, c: nat)
    ensures (u % WORD * 1664525 + c) % WORD == (1664525 * u + c) % WORD
  {
    var q := u / WORD;
    var v := u % WORD * 1664525 + c;
    assert 1664525 * u + c == WORD * (1664525 * q + v / WORD) + v % WORD;
    Remainder(1664525 * u + c, 1664525 * q + v / WORD, v % WORD);
  }

  lemma NextTurn(x: uint32, n: nat)
    requires n > 0
    ensures S.Turned(x, n) == (S.Turned(x, n - 1) * 1664525 + (1013904223 + n - 1)) % WORD
    ensures Unreduced(x, n) == 1664525 * Unreduced(x, n - 1) + (1013904223 + n - 1)
  {
  }

  /** Reducing after every turn comes to reducing once at the end. */
  lemma {:induction false} TurnedAtOnce(x: uint32, n: nat)
    ensures S.Turned(x, n) == Unreduced(x, n) % WORD
  {
    if n == 0 {
      Remainder(x, 0, x);
    } else {
      TurnedAtOnce(x, n - 1);
      NextTurn(x, n);
      ReduceLate(Unreduced(x, n - 1), 1013904223 + n - 1);
    }
  }

  lemma {:induction false} Linear(x: nat, n: nat)
    ensures Unreduced(x, n) == Power(n) * x + Unreduced(0, n)
  {
    if n > 0 {
      Linear(x, n - 1);
      var p := Power(n - 1);
      assert 1664525 * (p * x) == (1664525 * p) * x;
    }
  }

  /** Every key byte in closed form: the high byte of a linear function of aid and fold. */
  lemma KeyBytes(aid: uint32, ts: uint64, i: nat)
    requires i < S.KEY_LEN
    ensures S.DeriveKey(aid, ts)[i] == (Power(i + 1) * Xor(aid, Fold(ts)) + Unreduced(0, i + 1)) % WORD / 0x100_0000
  {
    hide Xor, Fold, S.Seed, S.Turned, Power, Unreduced;
    SeedOfFold(aid, ts);
    var seed := S.Seed(aid, ts);
    TurnedAtOnce(seed, i + 1);
    Linear(seed, i + 1);
    KeyByte(aid, ts, seed, i + 1);
  }

  lemma Remainder(v: nat, q: nat, y: uint32)
    requires v == WORD * q + y
    ensures v % WORD == y
  {
  }

  /** One turn with its quotient at hand. */
  lemma TurnTo(seed: uint32, i: nat, x: uint32, q: nat, y: uint32)
    requires S.Turned(seed, i) == x && x * 1664525 + 1013904223 + i == WORD * q + y
    ensures S.Turned(seed, i + 1) == y
  {
    var v := x * 1664525 + 1013904223 + i;
    Remainder(v, q, y);
    assert S.Turned(seed, i + 1) == v % WORD;
  }

  lemma TurnsOfSix()
    ensures S.Turned(6, 1) == 1023891373 && S.Turned(6, 2) == 3533853993 && S.Turned(6, 3) == 3986463862
    ensures S.Turned(6, 4) == 4215269728 && S.Turned(6, 5) == 1074400579 && S.Turned(6, 6) == 3385151947
  {
    TurnNone(6);
    hide S.Turned;
    TurnTo(6, 0, 6, 0, 1023891373);
    TurnTo(6, 1, 1023891373, 396811, 3533853993);
    TurnTo(6, 2, 3533853993, 1369553, 3986463862);
    TurnTo(6, 3, 3986463862, 1544963, 4215269728);
    TurnTo(6, 4, 4215269728, 1633638, 1074400579);
    TurnTo(6, 5, 1074400579, 416386, 3385151947);
  }

  lemma TurnNone(seed: uint32)
    ensures S.Turned(seed, 0) == seed
  {
  }

  lemma KeyByte(aid: uint32, ts: uint64, seed: uint32, i: nat)
    requires S.Seed(aid, ts) == seed && 1 <= i <= S.KEY_LEN
    ensures S.DeriveKey(aid, ts)[i - 1] == S.Turned(seed, i) / 0x100_0000
  {
  }

  /** The first six bytes of one key, enough to determine a seed: they fix the generator's
      constants and the turn number it adds. */
  lemma KeyOfSeven()
    ensures S.DeriveKey(7, 1)[..6] == [61, 210, 237, 251, 64, 201]
  {
    hide S.Turned, S.Seed, Fold;
    SeedOfFold(7, 1);
    FoldShort(1);
    assert Xor(7, 1) == 6;
    TurnsOfSix();
    KeyByte(7, 1, 6, 1);
    KeyByte(7, 1, 6, 2);
    KeyByte(7, 1, 6, 3);
    KeyByte(7, 1, 6, 4);
    KeyByte(7, 1, 6, 5);
    KeyByte(7, 1, 6, 6);
    hide S.DeriveKey;
  }

  lemma FoldShort(ts: uint32)
    ensures Fold(ts) == ts
  {
    hide Xor;
    XorZero(ts);
  }

  /** Below 2^32 the fold is the timestamp itself, so only equal times share a key. */
  lemma ShortTimesSeparate(aid: uint32, t: uint32, u: uint32)
    ensures S.DeriveKey(aid, t) == S.DeriveKey(aid, u) <==> t == u
  {
    hide S.DeriveKey, Fold;
    KeysEqualIff(aid, t, u);
    FoldShort(t);
    FoldShort(u);
  }
}
