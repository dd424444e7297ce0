/** What the fusion protocol keeps over whole runs: lockstep of the two tables,
    resynchronisation, and the meaning of a lossy receiver's cache. */
module FusionRuns {
  import opened Bytes
  import opened Numerals
  import opened Commands
  import opened Packet
  import opened FusionText
  import opened FusionDiff
  import opened FusionTable

  // ---- What one encode leaves in the cache -------------------------------

  lemma OverwriteParts(cells: seq<Text>, news: seq<Text>)
    requires |news| <= |cells|
    ensures Overwrite(cells, news)[..|news|] == news
    ensures forall i :: |news| <= i < |cells| ==> Overwrite(cells, news)[i] == cells[i]
  {
  }

  lemma StoreFullHolds(e: FusionEntry, p: Parsed)
    requires Fitting(e, p)
    ensures ValidEntry(StoreFull(e, p))
    ensures SensorsIn(StoreFull(e, p)) == p.sensors
  {
    hide SlotsOf, TagsOf, InBounds;
    var e', n := StoreFull(e, p), |p.sensors|;
    SlotsInBounds(p.sensors);
    OverwriteParts(e.lastVals, SlotsOf(p.sensors));
    OverwriteParts(e.tagNames, TagsOf(p.sensors));
    forall i | 0 <= i < n ensures SensorsIn(e')[i] == p.sensors[i] {
      SlotsAt(p.sensors, i);
      TagsAt(p.sensors, i);
      assert e'.lastVals[..2 * n][2 * i] == e'.lastVals[2 * i];
      assert e'.lastVals[..2 * n][2 * i + 1] == e'.lastVals[2 * i + 1];
      assert e'.tagNames[..n][i] == e'.tagNames[i];
    }
  }

  lemma TagsAt(xs: seq<Sensor>, i: nat)
    requires i < |xs|
    ensures TagsOf(xs)[i] == xs[i].tag
  {
  }

  /** With an unchanged template, copying only the changed slots caches the same
      entry as copying everything. */
  lemma StoreChangedIsStoreFull(e: FusionEntry, p: Parsed)
    requires Fitting(e, p) && !StructChanged(e, p)
    requires Free(e.sigBase, NUL)
    ensures StoreChanged(e, p) == StoreFull(e, p)
  {
    hide SlotsOf, TagsOf, InBounds;
    assert e.tagNames == Overwrite(e.tagNames, TagsOf(p.sensors));
    assert Merged(e.lastVals, e.lastVals, SlotsOf(p.sensors), 2 * |p.sensors|)
        == Overwrite(e.lastVals, SlotsOf(p.sensors));
  }

  lemma HeartIsStoreFull(e: FusionEntry, p: Parsed)
    requires Fitting(e, p) && Choose(e, p) == Heart
    requires Free(e.sigBase, NUL)
    ensures e == StoreFull(e, p)
  {
    hide SlotsOf, TagsOf, InBounds;
    assert e.tagNames == Overwrite(e.tagNames, TagsOf(p.sensors));
    assert e.lastVals == Overwrite(e.lastVals, SlotsOf(p.sensors));
  }

  /** Whichever packet is chosen, the sender's entry then holds the body just encoded. */
  lemma CachedHoldsBody(e: FusionEntry, p: Parsed)
    requires Fitting(e, p) && Free(e.sigBase, NUL)
    ensures Cached(e, p) == StoreFull(e, p)
    ensures ValidEntry(Cached(e, p)) && Free(Cached(e, p).sigBase, NUL)
    ensures SensorsIn(Cached(e, p)) == p.sensors
  {
    hide StoreFull, StoreChanged, StructChanged, SensorsIn, InBounds, CStr;
    StoreFullHolds(e, p);
    StoreFullSig(e, p);
    match Choose(e, p)
    case Full =>
    case Diff => StoreChangedIsStoreFull(e, p);
    case Heart => HeartIsStoreFull(e, p);
  }

  lemma StoreFullSig(e: FusionEntry, p: Parsed)
    requires Fitting(e, p)
    ensures StoreFull(e, p).sigBase == CStr(p.sig)
  {
  }

  ghost predicate GoodTable(t: Table) {
    ValidTable(t) && forall i :: 0 <= i < |t| ==> Free(t[i].sigBase, NUL)
  }

  lemma EmptyIsGood()
    ensures GoodTable(EmptyTable())
  {
    ZeroedValid();
  }

  lemma ClaimedGood(t: Table, aid: uint32, tid: byte)
    requires GoodTable(t) && Place(t, aid, tid) < |t|
    ensures Free(Claimed(t, aid, tid).sigBase, NUL) && ValidEntry(Claimed(t, aid, tid))
  {
    hide Find, FreeSlot;
    ZeroedValid();
  }

  lemma EncodeKeepsGood(t: Table, aid: uint32, tid: byte, ts: uint64, body: Text, cap: nat)
    requires GoodTable(t)
    ensures GoodTable(Encode(t, aid, tid, ts, body, cap).table)
  {
    hide ParseBody, Place, Claimed, Cached, Choose, WireBody, Framed, ValidEntry, SensorsIn;
    if body != [] && ParseBody(body).Some? && Place(t, aid, tid) < |t| {
      ClaimedFits(t, aid, tid, body);
      ClaimedGood(t, aid, tid);
      CachedHoldsBody(Claimed(t, aid, tid), ParseBody(body).value);
    }
  }

  // ---- Lockstep, one step ------------------------------------------------

  /** Only an entry that exists can have an unchanged template. */
  lemma UnchangedWasFound(t: Table, aid: uint32, tid: byte, p: Parsed)
    requires ValidTable(t) && Place(t, aid, tid) < |t| && |p.sensors| <= MAX_SENSORS
    requires |Claimed(t, aid, tid).tagNames| == MAX_SENSORS
    requires !StructChanged(Claimed(t, aid, tid), p)
    ensures Find(t, aid, tid) == Place(t, aid, tid) && Claimed(t, aid, tid) == t[Place(t, aid, tid)]
    ensures t[Place(t, aid, tid)].valCount == 2 * |p.sensors|
  {
    hide Find, FreeSlot, TagsOf;
  }

  /** The receiver's time: 48 bits on the wire. */
  function WireTime(ts: uint64): nat {
    ts % 0x1_0000_0000_0000
  }

  /** What a receiver whose table equals the sender's hands on. */
  function Delivered(s: Sent, aid: uint32, tid: byte, ts: uint64, body: Text, outCap: nat): Option<Text>
    requires ValidTable(s.table)
  {
    if s.cmd == DATA_FULL then if |body| <= outCap then Some(body) else None
    else
      var i := Find(s.table, aid, tid);
      if i == |s.table| then None else Reconstruct(s.table[i], WireTime(ts), outCap)
  }

  lemma FrameDecodes(cmd: byte, aid: uint32, tid: byte, ts: uint64, wire: Text)
    ensures var f := Frame(cmd, aid, tid, ts, wire);
            var m := Meta(cmd, 1, aid, tid, WireTime(ts), 13, |wire|, true, true);
            DecodeMeta(f) == Some(m) && BodyOf(f, m) == wire
  {
    hide Assemble, DecodeMeta, Crc8Body;
    AssembleDecodes(cmd, aid, tid, ts, wire, Crc8Body(wire));
  }

  lemma FullInStep(t: Table, m: Meta, body: Text, outCap: nat)
    requires GoodTable(t) && ParseBody(body).Some? && Place(t, m.aid, m.tid) < |t|
    requires Fitting(Claimed(t, m.aid, m.tid), ParseBody(body).value)
    ensures ReceiveFull(t, m, body, outCap).table
         == t[Place(t, m.aid, m.tid) := Cached(Claimed(t, m.aid, m.tid), ParseBody(body).value)]
  {
    hide ParseBody, Place, Claimed, Cached, StoreFull, SensorsIn;
    ClaimedGood(t, m.aid, m.tid);
    CachedHoldsBody(Claimed(t, m.aid, m.tid), ParseBody(body).value);
  }

  lemma DiffInStep(t: Table, i: nat, m: Meta, p: Parsed, outCap: nat)
    requires ValidTable(t) && i < |t| && Fitting(t[i], p) && Choose(t[i], p) == Diff
    ensures var g := ReceiveDiff(t, i, m, WireBody(t[i], p, []), outCap);
            && g.table == t[i := StoreChanged(t[i], p)]
            && g.body == Reconstruct(StoreChanged(t[i], p), m.ts, outCap)
  {
    hide StructChanged, Reconstruct, SlotsOf, DiffBody, ApplyDiff, Merged, InBounds;
    var e, n := t[i], 2 * |p.sensors|;
    SlotsInBounds(p.sensors);
    DiffCount(e, p);
    ApplyMerges(e.lastVals, e.lastVals, SlotsOf(p.sensors), n);
  }

  lemma DiffCount(e: FusionEntry, p: Parsed)
    requires Fitting(e, p) && Choose(e, p) != Full
    ensures e.valCount == 2 * |p.sensors|
  {
  }

  /** Delivering a produced packet to a receiver with the same table makes the two
      tables equal again and yields the body, exactly or rebuilt from the cache. */
  lemma StepInLockstep(t: Table, aid: uint32, tid: byte, ts: uint64, body: Text, cap: nat, outCap: nat)
    requires GoodTable(t)
    requires Encode(t, aid, tid, ts, body, cap).packet.Some?
    ensures var s := Encode(t, aid, tid, ts, body, cap);
            var g := Decode(t, s.packet.value, outCap);
            && ValidTable(s.table)
            && g.table == s.table
            && g.body == Delivered(s, aid, tid, ts, body, outCap)
  {
    hide ParseBody, Place, Claimed, Cached, Choose, WireBody, Find, Frame, DecodeMeta, BodyOf, CmdOf,
      ReceiveFull, ReceiveDiff, ReceiveHeart, Reconstruct;
    EncodeKeepsGood(t, aid, tid, ts, body, cap);
    var s := Encode(t, aid, tid, ts, body, cap);
    if ParseBody(body).None? {
      FrameDecodes(DATA_FULL, aid, tid, ts, body);
      UnparsedInStep(t, DecodeMeta(s.packet.value).value, body, outCap);
    } else {
      ClaimedFits(t, aid, tid, body);
      ParsedInStep(t, aid, tid, ts, body, cap, outCap);
    }
  }

  lemma UnparsedInStep(t: Table, m: Meta, body: Text, outCap: nat)
    requires ValidTable(t) && ParseBody(body).None?
    ensures ReceiveFull(t, m, body, outCap).table == t
    ensures ReceiveFull(t, m, body, outCap).body == if |body| <= outCap then Some(body) else None
  {
  }

  lemma ReceiveFullBody(t: Table, m: Meta, body: Text, outCap: nat)
    requires ValidTable(t)
    ensures ReceiveFull(t, m, body, outCap).body == if |body| <= outCap then Some(body) else None
  {
  }

  lemma FoundAfterUpdate(t: Table, aid: uint32, tid: byte, e: FusionEntry)
    requires Place(t, aid, tid) < |t| && Matches(e, aid, tid)
    ensures Find(t[Place(t, aid, tid) := e], aid, tid) == Place(t, aid, tid)
  {
    hide Find, FreeSlot;
    var i := Place(t, aid, tid);
    var t' := t[i := e];
    assert forall k :: 0 <= k < i ==> !Matches(t[k], aid, tid);
    assert forall k :: 0 <= k < i ==> !Matches(t'[k], aid, tid);
    assert Matches(t'[i], aid, tid);
  }

  lemma ClaimedMatches(t: Table, aid: uint32, tid: byte)
    requires Place(t, aid, tid) < |t|
    ensures Matches(Claimed(t, aid, tid), aid, tid)
  {
  }

  lemma CachedMatches(e: FusionEntry, p: Parsed, aid: uint32, tid: byte)
    requires Fitting(e, p) && Matches(e, aid, tid)
    ensures Matches(Cached(e, p), aid, tid)
  {
  }

  lemma ParsedInStep(t: Table, aid: uint32, tid: byte, ts: uint64, body: Text, cap: nat, outCap: nat)
    requires GoodTable(t) && body != [] && ParseBody(body).Some? && Place(t, aid, tid) < |t|
    requires Fitting(Claimed(t, aid, tid), ParseBody(body).value)
    requires Encode(t, aid, tid, ts, body, cap).packet.Some?
    ensures var s := Encode(t, aid, tid, ts, body, cap);
            var g := Decode(t, s.packet.value, outCap);
            && ValidTable(s.table)
            && g.table == s.table
            && g.body == Delivered(s, aid, tid, ts, body, outCap)
  {
    hide ParseBody, Place, Claimed, Cached, Choose, WireBody, Find, Frame, DecodeMeta, BodyOf,
      ReceiveFull, ReceiveDiff, ReceiveHeart, Reconstruct, Fitting, StructChanged, StoreChanged;
    EncodeKeepsGood(t, aid, tid, ts, body, cap);
    var p, e, i := ParseBody(body).value, Claimed(t, aid, tid), Place(t, aid, tid);
    ChoiceFacts(e, p, body);
    var wire := WireBody(e, p, body);
    var cmd := CmdOf(Choose(e, p));
    FrameDecodes(cmd, aid, tid, ts, wire);
    var m := DecodeMeta(Frame(cmd, aid, tid, ts, wire)).value;
    ClaimedMatches(t, aid, tid);
    CachedMatches(e, p, aid, tid);
    FoundAfterUpdate(t, aid, tid, Cached(e, p));
    if Choose(e, p) == Full {
      FullInStep(t, m, body, outCap);
      ReceiveFullBody(t, m, body, outCap);
    } else {
      UnchangedWasFound(t, aid, tid, p);
      if Choose(e, p) == Diff {
        DiffInStep(t, i, m, p, outCap);
      } else {
        HeartInStep(t, i, m, outCap);
      }
    }
  }

  lemma ChoiceFacts(e: FusionEntry, p: Parsed, body: Text)
    requires Fitting(e, p)
    ensures |e.tagNames| == MAX_SENSORS && |e.lastVals| == MAX_VALS && 0 < |p.sensors| <= MAX_SENSORS
    ensures Choose(e, p) != Full ==> !StructChanged(e, p) && WireBody(e, p, body) == WireBody(e, p, [])
    ensures Choose(e, p) == Full ==> WireBody(e, p, body) == body
    ensures Choose(e, p) == Diff ==> Cached(e, p) == StoreChanged(e, p)
    ensures Choose(e, p) == Heart ==> Cached(e, p) == e
  {
  }

  lemma HeartInStep(t: Table, i: nat, m: Meta, outCap: nat)
    requires ValidTable(t) && i < |t| && t[i].valCount > 0
    ensures ReceiveHeart(t, i, m, outCap).table == t
    ensures ReceiveHeart(t, i, m, outCap).body == Reconstruct(t[i], m.ts, outCap)
  {
    hide Reconstruct;
  }
}
