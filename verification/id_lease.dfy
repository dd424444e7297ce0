/** How long a lease of src/osfx_id_allocator.c lasts: the length by load, the rate window,
    the end of a renewed lease and the settings a policy falls back to. */
module IdLease {
  import opened Bytes
  import opened IdAllocator

  /** Allocations per hour in the window, at or above the threshold. */
  predicate Busy(p: Policy, w: Window, now: uint64) {
    w.count as real * 3600.0 >= p.highRate * (if now > w.start then now - w.start else 1) as real
  }

  /** Aids in use, at or above the threshold's part of the range; the range of all aids, whose
      size the source cannot represent, is never crowded. */
  predicate Crowded(p: Policy, used: nat) {
    p.startId <= p.endId && p.endId - p.startId < 0xFFFF_FFFF
    && used as real >= p.pressureMark * (p.endId - p.startId + 1) as real
  }

  lemma BusyMeans(p: Policy, w: Window, now: uint64)
    ensures RatePerHour(w, now) >= p.highRate <==> Busy(p, w, now)
  {
    QuotientAtLeast(w.count as real * 3600.0, (if now > w.start then now - w.start else 1) as real, p.highRate);
  }

  lemma QuotientAtLeast(x: real, d: real, q: real)
    requires d > 0.0
    ensures x / d >= q <==> x >= q * d
  {
    var r := x / d;
    assert x == r * d;
    if r >= q {
      assert r * d >= q * d;
    } else {
      assert r * d < q * d;
    }
  }

  lemma CrowdedMeans(p: Policy, used: nat)
    requires p.pressureMark > 0.0
    ensures Pressure(p, used) >= p.pressureMark <==> Crowded(p, used)
  {
    var cap := Capacity(p);
    CapacityMeans(p);
    if cap > 0 {
      QuotientAtLeast(used as real, cap as real, p.pressureMark);
      assert Pressure(p, used) == used as real / cap as real;
    } else {
      assert Pressure(p, used) == 0.0;
    }
    hide Pressure, Capacity;
  }

  lemma CapacityMeans(p: Policy)
    ensures Capacity(p) ==
            if p.startId <= p.endId && p.endId - p.startId < 0xFFFF_FFFF then p.endId - p.startId + 1 else 0
  {
  }

  /** The length of a lease by the load: the default, times the factor of each threshold that is
      reached, cut to whole seconds within the bounds. */
  lemma LeaseByLoad(p: Policy, w: Window, used: nat, now: uint64)
    requires p.adaptive && p.pressureMark > 0.0 && p.minLease <= p.maxLease
    ensures var d := p.defaultLease as real;
            var f := if Busy(p, w, now) then p.highRateFactor else 1.0;
            var g := if Crowded(p, used) then p.pressureFactor else 1.0;
            var seconds := LeaseSeconds(p, w, used, now);
            && (d * f * g <= p.minLease as real ==> seconds == p.minLease)
            && (d * f * g >= p.maxLease as real ==> seconds == p.maxLease)
            && (p.minLease as real <= d * f * g <= p.maxLease as real ==>
                  seconds as real <= d * f * g < seconds as real + 1.0)
  {
    hide Pressure, RatePerHour, Busy, Crowded;
    BusyMeans(p, w, now);
    CrowdedMeans(p, used);
  }

  /** Without load, and whenever the policy is not adaptive, the lease is the default. */
  lemma IdleLease(p: Policy, w: Window, used: nat, now: uint64)
    requires p.adaptive ==>
               && !Busy(p, w, now) && !Crowded(p, used)
               && p.pressureMark > 0.0 && p.minLease <= p.defaultLease <= p.maxLease
    ensures LeaseSeconds(p, w, used, now) == p.defaultLease
  {
    hide Busy, Crowded;
    if p.adaptive {
      LeaseByLoad(p, w, used, now);
    }
  }

  /** Where the rate window stands after a grant: it counts the grants, and starts anew with the
      first one after its end. Its end wraps like the clock, its count like any 32-bit counter. */
  lemma WindowAfterGrant(a: Alloc, now: uint64)
    requires Allocated(a, now).1.Some?
    ensures var (p, w, w') := (a.policy, a.window, Allocated(a, now).0.window);
            var start := if w.start == 0 then now else w.start;
            w' == if !p.adaptive then Window(w.start, (w.count + 1) % TWO32)
                  else if now > (start + p.rateWindow) % TWO64 then Window(now, 1)
                  else Window(start, (w.count + 1) % TWO32)
  {
    hide Cleaned, Scan, GrantEnd;
  }

  /** The load a grant is measured by is that of the moment it is made: the grants of the window
      before this one, and the aids whose lease has not ended. */
  lemma GrantEndByLoad(a: Alloc, now: uint64)
    requires a.policy.adaptive && Distinct(a.entries)
    ensures var p, w := a.policy, a.window;
            var start := if w.start == 0 then now else w.start;
            var current := if now > (start + p.rateWindow) % TWO64 then Window(now, 0) else Window(start, w.count);
            var held := set aid | aid in Ledger(a.entries) && now <= Ledger(a.entries)[aid];
            GrantEnd(a, now) == (now + LeaseSeconds(p, current, |held|, now)) % TWO64
  {
    hide LeaseSeconds, CountInUse, Cleaned, Ledger;
    var es := Cleaned(a.entries, now);
    CleanedLedger(a.entries, now);
    CountIsLedgerSize(es);
    var held := set aid | aid in Ledger(a.entries) && now <= Ledger(a.entries)[aid];
    forall aid: int ensures aid in Ledger(es).Keys <==> aid in held {
      assert aid in Ledger(es).Keys <==> aid in Ledger(es);
    }
    assert Ledger(es).Keys == held;
    assert |Ledger(es)| == |Ledger(es).Keys|;
  }

  /** With distinct aids the count that the load is measured by is the number of leases. */
  lemma {:induction false} CountIsLedgerSize(es: Leases)
    requires Distinct(es)
    ensures CountInUse(es) == |Ledger(es)|
    decreases |es|
  {
    if es != [] {
      var front, e := es[..|es| - 1], es[|es| - 1];
      CountIsLedgerSize(front);
      LedgerMeans(front, e.aid);
      if e.inUse {
        assert Ledger(es).Keys == Ledger(front).Keys + {e.aid as int};
        assert |Ledger(es)| == |Ledger(es).Keys| && |Ledger(front)| == |Ledger(front).Keys|;
      }
    }
  }

  /** The first lease of a new allocator: the lowest address, until a full default lease later. */
  lemma FirstGrant(startId: uint32, endId: uint32, lease: uint64, now: uint64)
    requires startId <= endId
    ensures var d := if lease == 0 then 86400 else lease;
            var (a', r) := Allocated(Fresh(startId, endId, lease), now);
            r == Some(startId) && Ledger(a'.entries) == map[startId as int := (now + d) % TWO64]
            && a'.window == Window(now, 1)
  {
    hide Ledger, Cleaned, LeaseSeconds, CountInUse, Find;
    var a := Fresh(startId, endId, lease);
    var es := Cleaned(a.entries, now);
    FreshIsExclusive(startId, endId, lease);
    AllocateIsLeast(a, now);
    NoneInUse(startId, endId, lease, now);
    assert !es[0].inUse && startId !in Ledger(es);
    IdleFresh(startId, endId, lease, WindowNow(a, now), now);
  }

  lemma NoneInUse(startId: uint32, endId: uint32, lease: uint64, now: uint64)
    ensures var es := Cleaned(Fresh(startId, endId, lease).entries, now);
            |es| == MAX_ENTRIES && !es[0].inUse && Ledger(es) == map[] && CountInUse(es) == 0
  {
    var es := Cleaned(Fresh(startId, endId, lease).entries, now);
    NothingLeased(es);
    CountIsLedgerSize(es);
  }

  /** With no lease out and none granted the shipped policy gives the default, even one below
      its minimum of a minute. */
  lemma IdleFresh(startId: uint32, endId: uint32, lease: uint64, w: Window, now: uint64)
    requires w.count == 0
    ensures LeaseSeconds(Fresh(startId, endId, lease).policy, w, 0, now) == if lease == 0 then 86400 else lease
  {
    var p := Fresh(startId, endId, lease).policy;
    BusyMeans(p, w, now);
    CrowdedMeans(p, 0);
  }

  /** The end of a renewed lease: the default scaled by the policy's factor, in whole seconds within
      the bounds, from the moment of the touch. */
  lemma TouchEnd(a: Alloc, aid: uint32, now: uint64) returns (seconds: uint64)
    requires Exclusive(a) && aid in Ledger(a.entries) && a.policy.minLease <= a.policy.maxLease
    ensures Ledger(Touched(a, aid, now).0.entries) == Ledger(a.entries)[aid as int := (now + seconds) % TWO64]
    ensures var p := a.policy;
            var x := p.defaultLease as real * p.touchFactor;
            && (x <= p.minLease as real ==> seconds == p.minLease)
            && (x >= p.maxLease as real ==> seconds == p.maxLease)
            && (p.minLease as real <= x <= p.maxLease as real ==> seconds as real <= x < seconds as real + 1.0)
  {
    hide Ledger, Touched;
    TouchExtends(a, aid, now);
    TouchLength(a.policy);
    seconds := TouchSeconds(a.policy);
  }

  /** When an aid was last heard of: its entry keeps the moment of the grant or of the last touch. */
  lemma SeenWhen(a: Alloc, aid: uint32, now: uint64)
    requires Exclusive(a)
    ensures Allocated(a, now).1 == Some(aid) ==>
              exists i :: 0 <= i < |a.entries| && Seen(Allocated(a, now).0.entries[i], aid, now)
    ensures aid in Ledger(a.entries) ==>
              exists i :: 0 <= i < |a.entries| && Seen(Touched(a, aid, now).0.entries[i], aid, now)
  {
    hide Scan, Cleaned, GrantEnd, Find, Ledger, WindowNow;
    FindMeans(a.entries, aid);
    if Allocated(a, now).1 == Some(aid) {
      var stop := Scan(Cleaned(a.entries, now), a.policy.startId, a.policy.endId, now).value;
      assert Seen(Allocated(a, now).0.entries[stop.slot], aid, now);
    }
    if aid in Ledger(a.entries) {
      assert Seen(Touched(a, aid, now).0.entries[Find(a.entries, aid)], aid, now);
    }
  }

  predicate Seen(e: Lease, aid: uint32, now: uint64) {
    e.inUse && e.aid == aid && e.lastSeen == now
  }

  lemma TouchLength(p: Policy)
    requires p.minLease <= p.maxLease
    ensures var x, seconds := p.defaultLease as real * p.touchFactor, TouchSeconds(p);
            && (x <= p.minLease as real ==> seconds == p.minLease)
            && (x >= p.maxLease as real ==> seconds == p.maxLease)
            && (p.minLease as real <= x <= p.maxLease as real ==> seconds as real <= x < seconds as real + 1.0)
  {
  }

  /** Settings in range are taken as given, and each one out of range has its own replacement. */
  lemma PolicyFallsBack(p: Policy, q: Policy)
    ensures var r := WithPolicy(p, q);
            && r.minLease == (if q.minLease == 0 then 1 else q.minLease)
            && (q.maxLease >= q.minLease > 0 ==> r.maxLease == q.maxLease)
            && (q.maxLease < q.minLease ==> r.maxLease == q.minLease)
            && (q.minLease == 0 == q.maxLease ==> r.maxLease == 1)
            && r.rateWindow == (if q.rateWindow == 0 then 1 else q.rateWindow)
            && r.highRate == (if q.highRate <= 0.0 then 1.0 else q.highRate)
            && r.highRateFactor == (if q.highRateFactor <= 0.0 || q.highRateFactor > 1.0 then 0.2 else q.highRateFactor)
            && r.pressureMark == (if q.pressureMark <= 0.0 || q.pressureMark > 1.0 then 0.8 else q.pressureMark)
            && r.pressureFactor ==
               (if q.pressureFactor <= 0.0 || q.pressureFactor > 1.0 then 0.25 else q.pressureFactor)
            && r.touchFactor == (if q.touchFactor <= 0.0 then 1.0 else q.touchFactor)
            && r.adaptive == q.adaptive
  {
  }
}
