/** The address lease allocator of src/osfx_id_allocator.c. */
module IdAllocator {
  import opened Bytes

  /** include/osfx_user_config.h */
  const MAX_ENTRIES: nat := 128
  const TWO32: nat := 0x1_0000_0000
  const TWO64: nat := 0x1_0000_0000_0000_0000

  datatype Lease = Lease(aid: uint32, leasedUntil: uint64, lastSeen: uint64, inUse: bool)

  const NoLease: Lease := Lease(0, 0, 0, false)

  type Leases = seq<Lease>

  /** Range, policy and rate window; factors and thresholds as real numbers. */
  datatype Policy = Policy(
    startId: uint32,
    endId: uint32,
    defaultLease: uint64,
    minLease: uint64,
    maxLease: uint64,
    rateWindow: uint64,
    highRate: real,
    highRateFactor: real,
    pressureMark: real,
    pressureFactor: real,
    touchFactor: real,
    adaptive: bool)

  datatype Window = Window(start: uint64, count: uint32)

  datatype Alloc = Alloc(policy: Policy, window: Window, entries: Leases)

  // ---- Lease length ------------------------------------------------------

  function CountInUse(es: Leases): (n: nat)
    ensures n <= |es|
  {
    if es == [] then 0 else CountInUse(es[..|es| - 1]) + if es[|es| - 1].inUse then 1 else 0
  }

  function Capacity(p: Policy): nat {
    if p.endId < p.startId then 0 else (p.endId - p.startId + 1) % TWO32
  }

  function WindowAt(p: Policy, w: Window, now: uint64): Window {
    var w1 := if w.start == 0 then w.(start := now) else w;
    if now > (w1.start + p.rateWindow) % TWO64 then Window(now, 0) else w1
  }

  function Clamped(x: real, lo: uint64, hi: uint64): (r: uint64)
    ensures lo <= hi ==> lo <= r <= hi
    ensures r <= hi
  {
    var y := if x < lo as real then lo as real else x;
    var z := if y > hi as real then hi as real else y;
    z.Floor
  }

  function RatePerHour(w: Window, now: uint64): real {
    var elapsed := if now > w.start then now - w.start else 1;
    w.count as real * 3600.0 / elapsed as real
  }

  function Pressure(p: Policy, used: nat): real {
    if Capacity(p) > 0 then used as real / Capacity(p) as real else 0.0
  }

  function Scaled(x: real, yes: bool, factor: real): real {
    if yes then x * factor else x
  }

  /** compute_lease_seconds once the window has been brought up to date. */
  function LeaseSeconds(p: Policy, w: Window, used: nat, now: uint64): uint64 {
    if !p.adaptive then p.defaultLease
    else
      var lease := Scaled(p.defaultLease as real, RatePerHour(w, now) >= p.highRate, p.highRateFactor);
      Clamped(Scaled(lease, Pressure(p, used) >= p.pressureMark, p.pressureFactor), p.minLease, p.maxLease)
  }

  function TouchSeconds(p: Policy): uint64 {
    var extend := Scaled(p.defaultLease as real, true, p.touchFactor).Floor;
    var atLeast := if extend < p.minLease then p.minLease else extend;
    if atLeast > p.maxLease then p.maxLease else atLeast
  }

  // ---- Search ------------------------------------------------------------

  predicate Holds(e: Lease, aid: nat) {
    e.inUse && e.aid == aid
  }

  function Find(es: Leases, aid: nat): (i: nat)
    ensures i <= |es|
    ensures forall k :: 0 <= k < i ==> !Holds(es[k], aid)
    ensures i < |es| ==> Holds(es[i], aid)
  {
    FirstIndex(es, e => Holds(e, aid))
  }

  function FreeSlot(es: Leases): (i: nat)
    ensures i <= |es|
    ensures forall k :: 0 <= k < i ==> es[k].inUse
    ensures i < |es| ==> !es[i].inUse
  {
    FirstIndex(es, (e: Lease) => !e.inUse)
  }

  // ---- Operations --------------------------------------------------------

  predicate Expired(e: Lease, now: uint64) {
    e.inUse && now > e.leasedUntil
  }

  function Cleaned(es: Leases, now: uint64): (r: Leases)
    ensures |r| == |es|
  {
    seq(|es|, i requires 0 <= i < |es| => if Expired(es[i], now) then NoLease else es[i])
  }

  /** Where the candidate loop stops: the aid and the entry it goes to, or neither. */
  datatype Stop = Stop(aid: nat, slot: nat)

  /** The candidate loop of osfx_id_allocate from aid on: the first aid without an entry
      takes a free entry, an expired entry is renewed on the spot. */
  function Scan(es: Leases, aid: nat, endId: nat, now: uint64): (r: Option<Stop>)
    ensures r.Some? ==> aid <= r.value.aid <= endId && r.value.slot < |es|
    decreases endId + 1 - aid
  {
    if aid > endId then None
    else
      var i := Find(es, aid);
      if i == |es| then
        if FreeSlot(es) == |es| then None else Some(Stop(aid, FreeSlot(es)))
      else if Expired(es[i], now) then Some(Stop(aid, i))
      else Scan(es, aid + 1, endId, now)
  }

  /** The candidates that loop looks at. */
  function Examined(es: Leases, aid: nat, endId: nat, now: uint64): nat
    decreases endId + 1 - aid
  {
    if aid > endId then 0
    else
      var i := Find(es, aid);
      if i == |es| || Expired(es[i], now) then 1 else 1 + Examined(es, aid + 1, endId, now)
  }

  function Until(now: uint64, seconds: uint64): uint64 {
    (now + seconds) % TWO64
  }

  function WindowNow(a: Alloc, now: uint64): Window {
    if a.policy.adaptive then WindowAt(a.policy, a.window, now) else a.window
  }

  /** When a lease granted at this moment ends. */
  function GrantEnd(a: Alloc, now: uint64): uint64 {
    Until(now, LeaseSeconds(a.policy, WindowNow(a, now), CountInUse(Cleaned(a.entries, now)), now))
  }

  function Allocated(a: Alloc, now: uint64): (Alloc, Option<uint32>) {
    var p := a.policy;
    if p.startId > p.endId then (a, None)
    else
      var es, w := Cleaned(a.entries, now), WindowNow(a, now);
      match Scan(es, p.startId, p.endId, now)
      case None => (a.(window := w, entries := es), None)
      case Some(stop) =>
        (Alloc(p, w.(count := (w.count + 1) % TWO32), es[stop.slot := Lease(stop.aid, GrantEnd(a, now), now, true)]),
         Some(stop.aid))
  }

  function Released(a: Alloc, aid: uint32): (Alloc, bool) {
    var i := Find(a.entries, aid);
    if i == |a.entries| then (a, false) else (a.(entries := a.entries[i := NoLease]), true)
  }

  function Touched(a: Alloc, aid: uint32, now: uint64): (Alloc, bool) {
    var i := Find(a.entries, aid);
    if i == |a.entries| then (a, false)
    else
      (a.(entries := a.entries[i := a.entries[i].(lastSeen := now, leasedUntil := Until(now, TouchSeconds(a.policy)))]),
       true)
  }

  function Fresh(startId: uint32, endId: uint32, lease: uint64): Alloc {
    var d := if lease > 0 then lease else 86400;
    Alloc(Policy(startId, endId, d, 60, d, 3600, 60.0, 0.2, 0.8, 0.25, 1.0, true), Window(0, 0),
          seq(MAX_ENTRIES, i => NoLease))
  }

  function Fraction(x: real, fallback: real): (r: real)
    requires 0.0 < fallback <= 1.0
    ensures 0.0 < r <= 1.0
  {
    if 0.0 < x <= 1.0 then x else fallback
  }

  function Positive(x: real): (r: real)
    ensures 0.0 < r
  {
    if x > 0.0 then x else 1.0
  }

  /** osfx_id_set_policy_ex: out-of-range settings fall back to defaults. */
  function WithPolicy(p: Policy, q: Policy): (r: Policy)
    ensures r.startId == p.startId && r.endId == p.endId && r.defaultLease == p.defaultLease
    ensures 0 < r.minLease <= r.maxLease && 0 < r.rateWindow
    ensures 0.0 < r.highRateFactor <= 1.0 && 0.0 < r.pressureFactor <= 1.0
  {
    var lo := if q.minLease > 0 then q.minLease else 1;
    p.(minLease := lo,
       maxLease := if q.maxLease >= lo then q.maxLease else lo,
       rateWindow := if q.rateWindow > 0 then q.rateWindow else 1,
       highRate := Positive(q.highRate),
       highRateFactor := Fraction(q.highRateFactor, 0.2),
       pressureMark := Fraction(q.pressureMark, 0.8),
       pressureFactor := Fraction(q.pressureFactor, 0.25),
       touchFactor := Positive(q.touchFactor),
       adaptive := q.adaptive)
  }

  // ---- The table as a ledger ---------------------------------------------

  /** Which aids are leased, and until when. */
  function Ledger(es: Leases): (m: map<int, int>)
    ensures forall k :: 0 <= k < |es| && es[k].inUse ==> es[k].aid in m
  {
    if es == [] then map[]
    else
      var m, e := Ledger(es[..|es| - 1]), es[|es| - 1];
      if e.inUse then m[e.aid := e.leasedUntil] else m
  }

  ghost predicate Distinct(es: Leases) {
    forall i, k :: 0 <= i < k < |es| && es[i].inUse && es[k].inUse ==> es[i].aid != es[k].aid
  }

  /** In-use aids are distinct and inside the range. */
  ghost predicate Exclusive(a: Alloc) {
    && Distinct(a.entries)
    && forall i :: 0 <= i < |a.entries| && a.entries[i].inUse ==> a.policy.startId <= a.entries[i].aid <= a.policy.endId
  }

  lemma {:induction false} LedgerMeans(es: Leases, aid: int)
    requires Distinct(es)
    ensures aid in Ledger(es) <==> exists k :: 0 <= k < |es| && es[k].inUse && es[k].aid == aid
    ensures forall k :: 0 <= k < |es| && es[k].inUse && es[k].aid == aid ==> Ledger(es)[aid] == es[k].leasedUntil
    decreases |es|
  {
    if es != [] {
      var n := |es| - 1;
      var front := es[..n];
      LedgerMeans(front, aid);
      if es[n].inUse && es[n].aid == aid {
        assert es[n] == es[|es| - 1];
      } else {
        forall k | 0 <= k < |es| && es[k].inUse && es[k].aid == aid ensures k < n && front[k] == es[k] {
        }
        if aid in Ledger(front) {
          var k :| 0 <= k < n && front[k].inUse && front[k].aid == aid;
          assert es[k] == front[k];
        }
      }
    }
  }

  lemma FindMeans(es: Leases, aid: nat)
    requires Distinct(es)
    ensures Find(es, aid) < |es| <==> aid in Ledger(es)
    ensures Find(es, aid) < |es| ==> Ledger(es)[aid] == es[Find(es, aid)].leasedUntil
  {
    hide Find, Ledger;
    LedgerMeans(es, aid);
    var i := Find(es, aid);
    if aid in Ledger(es) {
      var k :| 0 <= k < |es| && es[k].inUse && es[k].aid == aid;
      assert Holds(es[k], aid);
    }
  }

  // ---- The candidate loop ------------------------------------------------

  predicate Unused(es: Leases, aid: nat) {
    Find(es, aid) == |es|
  }

  lemma CleanedHasNoExpired(es: Leases, now: uint64)
    ensures forall i :: 0 <= i < |es| ==> !Expired(Cleaned(es, now)[i], now)
  {
  }

  /** After cleanup the loop stops at the smallest unused aid, if there is one and a free entry. */
  lemma {:induction false} ScanFindsLeast(es: Leases, aid: nat, endId: nat, now: uint64)
    requires forall i :: 0 <= i < |es| ==> !Expired(es[i], now)
    ensures var r := Scan(es, aid, endId, now);
            && (r.Some? <==> FreeSlot(es) < |es| && exists b: nat :: aid <= b <= endId && Unused(es, b))
            && (r.Some? ==> Unused(es, r.value.aid) && r.value.slot == FreeSlot(es)
                            && forall b: nat :: aid <= b < r.value.aid ==> !Unused(es, b))
    decreases endId + 1 - aid
  {
    hide Find, FreeSlot, Expired;
    if aid <= endId && !Unused(es, aid) {
      ScanFindsLeast(es, aid + 1, endId, now);
    }
  }

  /** On a cleaned table the loop looks at the candidates up to the one it grants. */
  lemma {:induction false} ExaminedToStop(es: Leases, aid: nat, endId: nat, now: uint64)
    requires forall i :: 0 <= i < |es| ==> !Expired(es[i], now)
    ensures var r := Scan(es, aid, endId, now);
            r.Some? ==> Examined(es, aid, endId, now) == r.value.aid - aid + 1
    decreases endId + 1 - aid
  {
    hide Find, FreeSlot, Expired;
    if aid <= endId && Find(es, aid) < |es| {
      ExaminedToStop(es, aid + 1, endId, now);
    }
  }

  function Range(lo: int, hi: int): (s: set<int>)
    ensures forall k :: k in s ==> lo <= k
    decreases hi - lo
  {
    if lo >= hi then {} else {lo} + Range(lo + 1, hi)
  }

  lemma {:induction false} RangeSize(lo: int, hi: int)
    requires lo <= hi
    ensures |Range(lo, hi)| == hi - lo
    decreases hi - lo
  {
    if lo < hi {
      RangeSize(lo + 1, hi);
    }
  }

  function AidsIn(es: Leases): (s: set<int>) {
    set k | 0 <= k < |es| && es[k].inUse :: es[k].aid
  }

  lemma {:induction false} AidsInSize(es: Leases)
    ensures |AidsIn(es)| <= CountInUse(es)
    decreases |es|
  {
    if es != [] {
      var front, e := es[..|es| - 1], es[|es| - 1];
      AidsInSize(front);
      assert AidsIn(es) == AidsIn(front) + (if e.inUse then {e.aid as int} else {}) by {
        assert forall k :: 0 <= k < |front| ==> front[k] == es[k];
      }
    } else {
      assert AidsIn(es) == {};
    }
  }

  lemma SubsetSize(a: set<int>, b: set<int>)
    requires a <= b
    ensures |a| <= |b|
  {
    assert b == a + (b - a);
  }

  /** Every candidate but the last is in use. */
  lemma {:induction false} ExaminedAreUsed(es: Leases, aid: nat, endId: nat, now: uint64)
    ensures var n := Examined(es, aid, endId, now);
            n > 0 ==> Range(aid, aid + n - 1) <= AidsIn(es)
    decreases endId + 1 - aid
  {
    hide Find, Expired;
    if aid <= endId {
      var i := Find(es, aid);
      if i < |es| && !Expired(es[i], now) {
        ExaminedAreUsed(es, aid + 1, endId, now);
        var n := Examined(es, aid, endId, now);
        assert Holds(es[i], aid);
        assert aid in AidsIn(es);
      }
    }
  }

  /** One turn of the loop, on what it finds and on the number of candidates. */
  lemma CandidateStep(es: Leases, aid: nat, endId: nat, now: uint64)
    ensures var i := Find(es, aid);
            if aid > endId then
              Scan(es, aid, endId, now).None? && Examined(es, aid, endId, now) == 0
            else if i == |es| then
              && Scan(es, aid, endId, now) == (if FreeSlot(es) == |es| then None else Some(Stop(aid, FreeSlot(es))))
              && Examined(es, aid, endId, now) == 1
            else if Expired(es[i], now) then
              Scan(es, aid, endId, now) == Some(Stop(aid, i)) && Examined(es, aid, endId, now) == 1
            else
              && Scan(es, aid, endId, now) == Scan(es, aid + 1, endId, now)
              && Examined(es, aid, endId, now) == 1 + Examined(es, aid + 1, endId, now)
  {
    hide Find, FreeSlot, Expired;
  }

  /** Pigeonhole: however wide the range, the loop looks at no more candidates than there
      are aids in use, plus one. */
  lemma ExaminedBound(es: Leases, aid: nat, endId: nat, now: uint64)
    ensures Examined(es, aid, endId, now) <= CountInUse(es) + 1
  {
    hide CountInUse, Examined, AidsIn, Range;
    var n := Examined(es, aid, endId, now);
    if n > 0 {
      ExaminedAreUsed(es, aid, endId, now);
      RangeSize(aid, aid + n - 1);
      AidsInSize(es);
      SubsetSize(Range(aid, aid + n - 1), AidsIn(es));
    }
  }

  // ---- Each operation on the ledger --------------------------------------

  lemma CleanedLedger(es: Leases, now: uint64)
    requires Distinct(es)
    ensures Distinct(Cleaned(es, now))
    ensures forall aid: int :: aid in Ledger(Cleaned(es, now)) <==> aid in Ledger(es) && now <= Ledger(es)[aid]
    ensures forall aid: int :: aid in Ledger(Cleaned(es, now)) ==> Ledger(Cleaned(es, now))[aid] == Ledger(es)[aid]
  {
    hide Ledger;
    var r := Cleaned(es, now);
    forall aid: int
      ensures aid in Ledger(r) <==> aid in Ledger(es) && now <= Ledger(es)[aid]
      ensures aid in Ledger(r) ==> Ledger(r)[aid] == Ledger(es)[aid]
    {
      LedgerMeans(es, aid);
      LedgerMeans(r, aid);
      if aid in Ledger(r) {
        var k :| 0 <= k < |r| && r[k].inUse && r[k].aid == aid;
        assert es[k] == r[k];
      }
      if aid in Ledger(es) && now <= Ledger(es)[aid] {
        var k :| 0 <= k < |es| && es[k].inUse && es[k].aid == aid;
        assert r[k] == es[k];
      }
    }
  }

  /** Overwriting the entry of an aid, or a free one for a new aid. */
  lemma PutLedger(es: Leases, i: nat, e: Lease)
    requires Distinct(es) && i < |es| && e.inUse
    requires es[i].inUse ==> es[i].aid == e.aid
    requires !es[i].inUse ==> e.aid !in Ledger(es)
    ensures Distinct(es[i := e])
    ensures Ledger(es[i := e]) == Ledger(es)[e.aid := e.leasedUntil]
  {
    hide Ledger;
    var r := es[i := e];
    LedgerMeans(es, e.aid);
    forall aid: int
      ensures aid in Ledger(r) <==> aid in Ledger(es) || aid == e.aid
      ensures aid in Ledger(r) ==> Ledger(r)[aid] == if aid == e.aid then e.leasedUntil as int else Ledger(es)[aid]
    {
      LedgerMeans(es, aid);
      LedgerMeans(r, aid);
      if aid in Ledger(r) {
        var k :| 0 <= k < |r| && r[k].inUse && r[k].aid == aid;
        assert k != i ==> es[k] == r[k];
      }
      if aid in Ledger(es) {
        var k :| 0 <= k < |es| && es[k].inUse && es[k].aid == aid;
        assert k != i ==> r[k] == es[k];
      }
      assert r[i] == e;
    }
  }

  lemma DropLedger(es: Leases, i: nat)
    requires Distinct(es) && i < |es| && es[i].inUse
    ensures Distinct(es[i := NoLease])
    ensures Ledger(es[i := NoLease]) == Ledger(es) - {es[i].aid as int}
  {
    hide Ledger;
    var r := es[i := NoLease];
    forall aid: int
      ensures aid in Ledger(r) <==> aid in Ledger(es) && aid != es[i].aid
      ensures aid in Ledger(r) ==> Ledger(r)[aid] == Ledger(es)[aid]
    {
      LedgerMeans(es, aid);
      LedgerMeans(r, aid);
      if aid in Ledger(r) {
        var k :| 0 <= k < |r| && r[k].inUse && r[k].aid == aid;
        assert k != i && es[k] == r[k];
      }
      if aid in Ledger(es) && aid != es[i].aid {
        var k :| 0 <= k < |es| && es[k].inUse && es[k].aid == aid;
        assert r[k] == es[k];
      }
    }
  }

  /** Allocation: from any exclusive table it succeeds exactly when, after the expired
      leases are dropped, some aid of the range is unused and a table entry is free; it then
      grants the smallest unused aid, and the ledger gains that lease and nothing else. */
  lemma AllocateIsLeast(a: Alloc, now: uint64)
    requires Exclusive(a) && a.policy.startId <= a.policy.endId
    ensures var (a', r) := Allocated(a, now);
            var es, p := Cleaned(a.entries, now), a.policy;
            && Exclusive(a') && a'.policy == p && |a'.entries| == |a.entries|
            && (r.Some? <==> (exists k :: 0 <= k < |es| && !es[k].inUse) &&
                             exists b: int :: p.startId <= b <= p.endId && b !in Ledger(es))
            && (r.None? ==> a'.entries == es)
            && (r.Some? ==>
                  && p.startId <= r.value <= p.endId && r.value !in Ledger(es)
                  && (forall b: nat :: p.startId <= b < r.value ==> b in Ledger(es))
                  && Ledger(a'.entries) == Ledger(es)[r.value as int := GrantEnd(a, now)])
  {
    hide Find, FreeSlot, Ledger, Scan, GrantEnd, WindowNow, Cleaned, Unused;
    var es, p := Cleaned(a.entries, now), a.policy;
    CleanedLedger(a.entries, now);
    CleanedInRange(a, now);
    CleanedHasNoExpired(a.entries, now);
    ScanFindsLeast(es, p.startId, p.endId, now);
    forall b: nat ensures Unused(es, b) <==> b !in Ledger(es) {
      UnusedIsAbsent(es, b);
    }
    var stop := Scan(es, p.startId, p.endId, now);
    if stop.Some? {
      var aid, slot := stop.value.aid, stop.value.slot;
      var (a', r) := Allocated(a, now);
      PutLedger(es, slot, a'.entries[slot]);
    }
  }

  lemma UnusedIsAbsent(es: Leases, aid: nat)
    requires Distinct(es)
    ensures Unused(es, aid) <==> aid !in Ledger(es)
  {
    hide Find, Ledger;
    FindMeans(es, aid);
  }

  lemma CleanedInRange(a: Alloc, now: uint64)
    requires Exclusive(a)
    ensures forall i :: 0 <= i < |a.entries| && Cleaned(a.entries, now)[i].inUse ==>
              a.policy.startId <= Cleaned(a.entries, now)[i].aid <= a.policy.endId
  {
  }

  lemma ReleaseDrops(a: Alloc, aid: uint32)
    requires Exclusive(a)
    ensures var (a', ok) := Released(a, aid);
            && Exclusive(a') && a'.policy == a.policy && (ok <==> aid in Ledger(a.entries))
            && Ledger(a'.entries) == Ledger(a.entries) - {aid as int}
  {
    hide Find, Ledger;
    FindMeans(a.entries, aid);
    var i := Find(a.entries, aid);
    if i < |a.entries| {
      DropLedger(a.entries, i);
    } else {
      assert Ledger(a.entries) - {aid as int} == Ledger(a.entries);
    }
  }

  lemma TouchExtends(a: Alloc, aid: uint32, now: uint64)
    requires Exclusive(a)
    ensures var (a', ok) := Touched(a, aid, now);
            && Exclusive(a') && a'.policy == a.policy && (ok <==> aid in Ledger(a.entries))
            && Ledger(a'.entries) ==
               if ok then Ledger(a.entries)[aid as int := Until(now, TouchSeconds(a.policy))] else Ledger(a.entries)
  {
    hide Find, Ledger, Until, TouchSeconds;
    FindMeans(a.entries, aid);
    var i := Find(a.entries, aid);
    if i < |a.entries| {
      PutLedger(a.entries, i, a.entries[i].(lastSeen := now, leasedUntil := Until(now, TouchSeconds(a.policy))));
    }
  }

  // ---- Runs --------------------------------------------------------------

  datatype Op =
    | AllocateOp(now: uint64)
    | ReleaseOp(aid: uint32)
    | TouchOp(aid: uint32, now: uint64)
    | CleanupOp(now: uint64)
    | PolicyOp(policy: Policy)

  function Step(a: Alloc, op: Op): Alloc {
    match op
    case AllocateOp(now) => Allocated(a, now).0
    case ReleaseOp(aid) => Released(a, aid).0
    case TouchOp(aid, now) => Touched(a, aid, now).0
    case CleanupOp(now) => a.(entries := Cleaned(a.entries, now))
    case PolicyOp(q) => a.(policy := WithPolicy(a.policy, q))
  }

  /** The aid an operation hands out. */
  function Granted(a: Alloc, op: Op): Option<uint32> {
    if op.AllocateOp? then Allocated(a, op.now).1 else None
  }

  function Run(a: Alloc, ops: seq<Op>): Alloc
    decreases |ops|
  {
    if ops == [] then a else Run(Step(a, ops[0]), ops[1..])
  }

  lemma StepKeepsExclusive(a: Alloc, op: Op)
    requires Exclusive(a)
    ensures Exclusive(Step(a, op))
  {
    hide Find, Ledger, Allocated, Released, Touched, Cleaned, WithPolicy;
    match op
    case AllocateOp(now) =>
      if a.policy.startId <= a.policy.endId {
        AllocateIsLeast(a, now);
      } else {
        EmptyRange(a, now);
      }
    case ReleaseOp(aid) => ReleaseDrops(a, aid);
    case TouchOp(aid, now) => TouchExtends(a, aid, now);
    case CleanupOp(now) =>
      CleanedLedger(a.entries, now);
      CleanedInRange(a, now);
    case PolicyOp(q) => PolicyKeepsRange(a, q);
  }

  lemma PolicyKeepsRange(a: Alloc, q: Policy)
    requires Exclusive(a)
    ensures Exclusive(a.(policy := WithPolicy(a.policy, q)))
  {
  }

  lemma EmptyRange(a: Alloc, now: uint64)
    requires a.policy.startId > a.policy.endId
    ensures Allocated(a, now) == (a, None)
  {
  }

  lemma FreshIsExclusive(startId: uint32, endId: uint32, lease: uint64)
    ensures Exclusive(Fresh(startId, endId, lease)) && Ledger(Fresh(startId, endId, lease).entries) == map[]
  {
    var a := Fresh(startId, endId, lease);
    NothingLeased(a.entries);
  }

  lemma {:induction false} NothingLeased(es: Leases)
    requires forall i :: 0 <= i < |es| ==> !es[i].inUse
    ensures Ledger(es) == map[]
    decreases |es|
  {
    if es != [] {
      NothingLeased(es[..|es| - 1]);
    }
  }

  /** Over any mix of operations the leased aids stay distinct and inside the range. */
  lemma {:induction false} RunKeepsExclusive(a: Alloc, ops: seq<Op>)
    requires Exclusive(a)
    ensures Exclusive(Run(a, ops))
    decreases |ops|
  {
    hide Step, Exclusive;
    if ops != [] {
      StepKeepsExclusive(a, ops[0]);
      RunKeepsExclusive(Step(a, ops[0]), ops[1..]);
    }
  }

  /** Nothing that could end a lease of aid happens: no release of it, and no allocation or
      cleanup at a time later than the lease end it has at that moment. */
  ghost predicate Undisturbed(a: Alloc, ops: seq<Op>, aid: uint32)
    decreases |ops|
  {
    ops == [] ||
    (&& (ops[0].ReleaseOp? ==> ops[0].aid != aid)
     && (aid in Ledger(a.entries) && (ops[0].AllocateOp? || ops[0].CleanupOp?) ==> ops[0].now <= Ledger(a.entries)[aid])
     && Undisturbed(Step(a, ops[0]), ops[1..], aid))
  }

  lemma UndisturbedStep(a: Alloc, op: Op, aid: uint32)
    requires Exclusive(a) && aid in Ledger(a.entries)
    requires op.ReleaseOp? ==> op.aid != aid
    requires op.AllocateOp? || op.CleanupOp? ==> op.now <= Ledger(a.entries)[aid]
    ensures aid in Ledger(Step(a, op).entries) && Granted(a, op) != Some(aid)
    ensures !op.TouchOp? || op.aid != aid ==> Ledger(Step(a, op).entries)[aid] == Ledger(a.entries)[aid]
  {
    hide Find, Ledger, Allocated, Released, Touched, Cleaned, WithPolicy, Until, TouchSeconds, Unused, Distinct;
    DistinctOf(a);
    match op
    case AllocateOp(now) =>
      CleanedLedger(a.entries, now);
      if a.policy.startId <= a.policy.endId {
        AllocateIsLeast(a, now);
      } else {
        EmptyRange(a, now);
      }
    case ReleaseOp(b) => ReleaseDrops(a, b);
    case TouchOp(b, now) => TouchExtends(a, b, now);
    case CleanupOp(now) => CleanedLedger(a.entries, now);
    case PolicyOp(q) =>
  }

  lemma DistinctOf(a: Alloc)
    requires Exclusive(a)
    ensures Distinct(a.entries)
  {
  }

  /** Lease exclusivity over runs: as long as a lease is undisturbed its aid stays leased and
      no operation hands it out. So an aid is granted again only after its release or at an
      allocation or cleanup strictly later than its current lease end. */
  lemma {:induction false} LeaseIsHeld(a: Alloc, ops: seq<Op>, aid: uint32, j: nat)
    requires Exclusive(a) && aid in Ledger(a.entries) && Undisturbed(a, ops, aid) && j <= |ops|
    ensures aid in Ledger(Run(a, ops[..j]).entries)
    ensures j < |ops| ==> Granted(Run(a, ops[..j]), ops[j]) != Some(aid)
    decreases |ops|
  {
    hide Step, Exclusive, Ledger, Granted;
    if j == 0 {
      assert ops[..0] == [];
      if ops != [] {
        UndisturbedStep(a, ops[0], aid);
      }
    } else {
      UndisturbedStep(a, ops[0], aid);
      StepKeepsExclusive(a, ops[0]);
      LeaseIsHeld(Step(a, ops[0]), ops[1..], aid, j - 1);
      assert ops[..j][1..] == ops[1..][..j - 1];
    }
  }

  /** A granted lease is in the ledger. */
  lemma GrantIsLeased(a: Alloc, now: uint64)
    requires Exclusive(a) && Allocated(a, now).1.Some?
    ensures Allocated(a, now).1.value in Ledger(Allocated(a, now).0.entries)
  {
    hide Find, FreeSlot, Ledger, Allocated, Cleaned, Unused;
    if a.policy.startId <= a.policy.endId {
      AllocateIsLeast(a, now);
    } else {
      EmptyRange(a, now);
    }
  }

  /** Adaptive leases keep the bounds of the policy. */
  lemma LeaseBounds(p: Policy, w: Window, used: nat, now: uint64)
    requires p.minLease <= p.maxLease
    ensures p.adaptive ==> p.minLease <= LeaseSeconds(p, w, used, now) <= p.maxLease
    ensures p.minLease <= TouchSeconds(p) <= p.maxLease
  {
  }

  lemma ScaleShortens(x: real, y: real, a: bool, b: bool, factor: real)
    requires 0.0 <= y <= x && 0.0 < factor <= 1.0 && (a ==> b)
    ensures 0.0 <= Scaled(y, b, factor) <= Scaled(x, a, factor)
  {
    assert y * factor <= x * factor;
    assert y * factor <= y;
  }

  lemma ClampKeepsOrder(x: real, y: real, lo: uint64, hi: uint64)
    requires y <= x
    ensures Clamped(y, lo, hi) <= Clamped(x, lo, hi)
  {
  }

  lemma QuotientGrows(x: real, y: real, d: real)
    requires x <= y && d > 0.0
    ensures x / d <= y / d
  {
  }

  /** More load never lengthens a lease: with factors as the policy setter leaves them, a
      higher allocation count and more aids in use give a lease that is at most as long. */
  lemma LoadShortens(p: Policy, w: Window, v: Window, used: nat, usedMore: nat, now: uint64)
    requires 0.0 < p.highRateFactor <= 1.0 && 0.0 < p.pressureFactor <= 1.0
    requires w.start == v.start && w.count <= v.count && used <= usedMore
    ensures LeaseSeconds(p, v, usedMore, now) <= LeaseSeconds(p, w, used, now)
  {
    if p.adaptive {
      RateGrows(w, v, now);
      PressureGrows(p, used, usedMore);
      hide RatePerHour, Pressure, Clamped, Scaled;
      var base := p.defaultLease as real;
      var high, highMore := RatePerHour(w, now) >= p.highRate, RatePerHour(v, now) >= p.highRate;
      ScaleShortens(base, base, high, highMore, p.highRateFactor);
      var x, y := Scaled(base, high, p.highRateFactor), Scaled(base, highMore, p.highRateFactor);
      var tight, tightMore := Pressure(p, used) >= p.pressureMark, Pressure(p, usedMore) >= p.pressureMark;
      ScaleShortens(x, y, tight, tightMore, p.pressureFactor);
      ClampKeepsOrder(Scaled(x, tight, p.pressureFactor), Scaled(y, tightMore, p.pressureFactor),
                      p.minLease, p.maxLease);
    }
  }

  lemma RateGrows(w: Window, v: Window, now: uint64)
    requires w.start == v.start && w.count <= v.count
    ensures RatePerHour(w, now) <= RatePerHour(v, now)
  {
    var elapsed := if now > w.start then now - w.start else 1;
    QuotientGrows(w.count as real * 3600.0, v.count as real * 3600.0, elapsed as real);
  }

  lemma PressureGrows(p: Policy, used: nat, usedMore: nat)
    requires used <= usedMore
    ensures Pressure(p, used) <= Pressure(p, usedMore)
  {
    if Capacity(p) > 0 {
      QuotientGrows(used as real, usedMore as real, Capacity(p) as real);
    }
  }

  // ---- The fixed array of the sources ------------------------------------

  class Allocator {
    var policy: Policy
    var window: Window
    const entries: array<Lease>

    ghost function State(): Alloc
      reads this, entries
    {
      Alloc(policy, window, entries[..])
    }

    ghost predicate Valid()
      reads this, entries
    {
      entries.Length == MAX_ENTRIES && Exclusive(State())
    }

    constructor (startId: uint32, endId: uint32, lease: uint64)
      ensures Valid() && fresh(entries) && State() == Fresh(startId, endId, lease)
    {
      entries := new Lease[MAX_ENTRIES](i => NoLease);
      var d := if lease > 0 then lease else 86400;
      policy := Policy(startId, endId, d, 60, d, 3600, 60.0, 0.2, 0.8, 0.25, 1.0, true);
      window := Window(0, 0);
      new;
      FreshIsExclusive(startId, endId, lease);
      assert entries[..] == Fresh(startId, endId, lease).entries;
    }

    method SetPolicy(q: Policy)
      requires Valid()
      modifies `policy
      ensures Valid() && policy == WithPolicy(old(policy), q)
    {
      hide Fraction, Positive, Exclusive;
      PolicyKeepsRange(State(), q);
      var lo := if q.minLease > 0 then q.minLease else 1;
      policy := policy.(minLease := lo, maxLease := if q.maxLease >= lo then q.maxLease else lo);
      policy := policy.(rateWindow := if q.rateWindow > 0 then q.rateWindow else 1);
      policy := policy.(highRate := Positive(q.highRate), highRateFactor := Fraction(q.highRateFactor, 0.2));
      policy := policy.(pressureMark := Fraction(q.pressureMark, 0.8));
      policy := policy.(pressureFactor := Fraction(q.pressureFactor, 0.25));
      policy := policy.(touchFactor := Positive(q.touchFactor), adaptive := q.adaptive);
    }

    method CountUsed() returns (used: nat)
      ensures used == CountInUse(entries[..])
    {
      used := 0;
      for i := 0 to entries.Length
        invariant used == CountInUse(entries[..i])
      {
        assert entries[..i + 1][..i] == entries[..i];
        if entries[i].inUse {
          used := used + 1;
        }
      }
      assert entries[..entries.Length] == entries[..];
    }

    /** compute_lease_seconds: brings the rate window up to date, then measures. */
    method ComputeLease(now: uint64) returns (lease: uint64)
      modifies `window
      ensures window == if policy.adaptive then WindowAt(policy, old(window), now) else old(window)
      ensures lease == LeaseSeconds(policy, window, CountInUse(entries[..]), now)
    {
      hide RatePerHour, Pressure, Clamped, CountInUse;
      if !policy.adaptive {
        return policy.defaultLease;
      }
      if window.start == 0 {
        window := window.(start := now);
      }
      if now > (window.start + policy.rateWindow) % TWO64 {
        window := Window(now, 0);
      }
      var rate := RatePerHour(window, now);
      var used := CountUsed();
      var pressure := Pressure(policy, used);
      var seconds := policy.defaultLease as real;
      if rate >= policy.highRate {
        seconds := Scaled(seconds, true, policy.highRateFactor);
      }
      if pressure >= policy.pressureMark {
        seconds := Scaled(seconds, true, policy.pressureFactor);
      }
      return Clamped(seconds, policy.minLease, policy.maxLease);
    }

    method FindEntry(aid: uint32) returns (i: nat)
      ensures i == Find(entries[..], aid)
    {
      hide Find;
      ghost var es := entries[..];
      i := 0;
      while i < entries.Length
        invariant i <= entries.Length
        invariant forall k :: 0 <= k < i ==> !Holds(es[k], aid)
      {
        if Holds(entries[i], aid) {
          return;
        }
        i := i + 1;
      }
    }

    method AllocSlot() returns (i: nat)
      ensures i == FreeSlot(entries[..])
    {
      hide FreeSlot;
      ghost var es := entries[..];
      i := 0;
      while i < entries.Length
        invariant i <= entries.Length
        invariant forall k :: 0 <= k < i ==> es[k].inUse
      {
        if !entries[i].inUse {
          return;
        }
        i := i + 1;
      }
    }

    method CleanupExpired(now: uint64)
      requires Valid()
      modifies entries
      ensures Valid() && entries[..] == Cleaned(old(entries[..]), now)
    {
      hide Exclusive;
      ghost var es := entries[..];
      StepKeepsExclusive(State(), CleanupOp(now));
      for i := 0 to entries.Length
        invariant entries[..i] == Cleaned(es, now)[..i]
        invariant forall k :: i <= k < entries.Length ==> entries[k] == es[k]
      {
        if Expired(entries[i], now) {
          entries[i] := NoLease;
        }
      }
      assert entries[..] == Cleaned(es, now);
    }

    /** examined counts the candidates that the loop looks at. */
    method Allocate(now: uint64) returns (r: Option<uint32>, ghost examined: nat)
      requires Valid() && policy.endId < TWO32 - 1
      modifies `window, entries
      ensures Valid() && (State(), r) == Allocated(old(State()), now)
      ensures examined <= CountInUse(Cleaned(old(entries[..]), now)) + 1
      ensures r.Some? ==> examined == r.value - policy.startId + 1
    {
      hide Exclusive, Find, FreeSlot, Cleaned, LeaseSeconds, WindowAt, CountInUse, Ledger, Examined, Scan, Expired;
      examined := 0;
      ghost var a := State();
      StepKeepsExclusive(a, AllocateOp(now));
      if policy.startId > policy.endId {
        return None, 0;
      }
      CleanupExpired(now);
      ghost var es := entries[..];
      ExaminedBound(es, policy.startId, policy.endId, now);
      var lease := ComputeLease(now);
      ghost var w := window;
      var aid: uint32 := policy.startId;
      while aid <= policy.endId
        invariant policy.startId <= aid <= policy.endId + 1
        invariant window == w && entries[..] == es
        invariant Scan(es, policy.startId, policy.endId, now) == Scan(es, aid, policy.endId, now)
        invariant examined == aid - policy.startId
        invariant Examined(es, policy.startId, policy.endId, now) == examined + Examined(es, aid, policy.endId, now)
      {
        CandidateStep(es, aid, policy.endId, now);
        examined := examined + 1;
        var i := FindEntry(aid);
        if i == entries.Length {
          var slot := AllocSlot();
          if slot == entries.Length {
            return None, examined;
          }
          entries[slot] := Lease(aid, Until(now, lease), now, true);
          window := window.(count := (window.count + 1) % TWO32);
          return Some(aid), examined;
        }
        if Expired(entries[i], now) {
          entries[i] := entries[i].(lastSeen := now, leasedUntil := Until(now, lease));
          window := window.(count := (window.count + 1) % TWO32);
          return Some(aid), examined;
        }
        aid := aid + 1;
      }
      CandidateStep(es, aid, policy.endId, now);
      return None, examined;
    }

    method Release(aid: uint32) returns (ok: bool)
      requires Valid()
      modifies entries
      ensures Valid() && (State(), ok) == Released(old(State()), aid)
    {
      hide Exclusive, Find;
      StepKeepsExclusive(State(), ReleaseOp(aid));
      var i := FindEntry(aid);
      if i == entries.Length {
        return false;
      }
      ghost var es := entries[..];
      entries[i] := NoLease;
      assert entries[..] == es[i := NoLease];
      return true;
    }

    method Touch(aid: uint32, now: uint64) returns (ok: bool)
      requires Valid()
      modifies entries
      ensures Valid() && (State(), ok) == Touched(old(State()), aid, now)
    {
      hide Exclusive, Find, Scaled, Until;
      StepKeepsExclusive(State(), TouchOp(aid, now));
      var i := FindEntry(aid);
      if i == entries.Length {
        return false;
      }
      var extend := Scaled(policy.defaultLease as real, true, policy.touchFactor).Floor;
      if extend < policy.minLease {
        extend := policy.minLease;
      }
      if extend > policy.maxLease {
        extend := policy.maxLease;
      }
      ghost var es := entries[..];
      entries[i] := entries[i].(lastSeen := now, leasedUntil := Until(now, extend));
      assert entries[..] == es[i := entries[i]];
      return true;
    }
  }
}
