/** What a receiver hands on in a run that loses packets. */
module FusionLossyDelivery {
  import opened Bytes
  import opened Commands
  import opened Packet
  import opened FusionText
  import opened FusionDiff
  import opened FusionTable
  import opened FusionRuns
  import opened FusionHistory
  import opened FusionLoss

  // ---- One DIFF or HEART at a receiver that may be behind ----------------

  lemma DiffHandsOn(tx: FusionEntry, rx: Table, i: nat, m: Meta, p: Parsed, outCap: nat)
    requires ValidTable(rx) && i < |rx| && Fitting(tx, p) && Choose(tx, p) == Diff
    requires rx[i].valCount == tx.valCount && ValidEntry(ReceivedEntry(tx, rx[i], p))
    ensures ReceiveDiff(rx, i, m, WireBody(tx, p, []), outCap).body ==
            Reconstruct(ReceivedEntry(tx, rx[i], p), m.ts, outCap)
  {
    hide StructChanged, Reconstruct, SlotsOf, DiffBody, ApplyDiff, Merged, InBounds;
    SlotsInBounds(p.sensors);
    DiffCount(tx, p);
    ApplyMerges(rx[i].lastVals, tx.lastVals, SlotsOf(p.sensors), 2 * |p.sensors|);
  }

  lemma HeartHandsOn(rx: Table, i: nat, m: Meta, outCap: nat)
    requires ValidTable(rx) && i < |rx| && rx[i].valCount > 0
    ensures ReceiveHeart(rx, i, m, outCap).body == Reconstruct(rx[i], m.ts, outCap)
  {
    hide Reconstruct;
  }

  /** The receiver rebuilds the body from its own entry as the packet leaves it. */
  lemma HandsOn(tx: Table, rx: Table, s: Send, outCap: nat)
    requires GoodTable(tx) && ValidTable(rx) && SameTemplates(tx, rx)
    requires ParseBody(s.body).Some? && Place(tx, s.aid, s.tid) < |tx|
    requires EncodeSend(tx, s).packet.Some? && EncodeSend(tx, s).cmd != DATA_FULL
    ensures var g := Decode(rx, EncodeSend(tx, s).packet.value, outCap);
            var i, p := Place(tx, s.aid, s.tid), ParseBody(s.body).value;
            && i < |g.table| && Find(rx, s.aid, s.tid) == i && ValidEntry(g.table[i])
            && StillFits(g.table[i], p) && Matches(g.table[i], s.aid, s.tid)
            && g.body == Reconstruct(g.table[i], WireTime(s.ts), outCap)
  {
    hide ParseBody, Place, Claimed, Cached, Choose, WireBody, Find, Frame, DecodeMeta, BodyOf,
      ReceiveFull, ReceiveDiff, ReceiveHeart, Fitting, StructChanged, StoreFull, ReceivedEntry, ValidEntry;
    hide Reconstruct, StillFits, SameTemplates;
    var p, i := ParseBody(s.body).value, Place(tx, s.aid, s.tid);
    var e := Claimed(tx, s.aid, s.tid);
    SamePlace(tx, rx, s.aid, s.tid);
    SameClaim(tx, rx, s.aid, s.tid);
    ClaimedFits(tx, s.aid, s.tid, s.body);
    ClaimedFits(rx, s.aid, s.tid, s.body);
    FittingIsValid(Claimed(rx, s.aid, s.tid), p);
    NonemptyBody(s.body);
    ChoiceFacts(e, p, s.body);
    ReceivedEntryCases(e, Claimed(rx, s.aid, s.tid), p);
    var cmd, wire := CmdOf(Choose(e, p)), WireBody(e, p, s.body);
    FrameDecodes(cmd, s.aid, s.tid, s.ts, wire);
    var m := DecodeMeta(Frame(cmd, s.aid, s.tid, s.ts, wire)).value;
    UnchangedWasFound(tx, s.aid, s.tid, p);
    FoundClaim(rx, s.aid, s.tid);
    Received(tx, rx, s, outCap);
    KeepsTemplate(e, rx[i], p);
    ReceivedSlots(e, rx[i], p, 0);
    if Choose(e, p) == Diff {
      DiffHandsOn(e, rx, i, m, p, outCap);
    } else {
      HeartHandsOn(rx, i, m, outCap);
    }
  }

  /** The entry still has the structure of p. */
  ghost predicate StillFits(r: FusionEntry, p: Parsed) {
    && ValidEntry(r) && r.sigBase == p.sig != [] && |p.sensors| <= MAX_SENSORS
    && r.sensorCount == |p.sensors| && r.valCount == 2 * |p.sensors|
    && r.tagNames[..|p.sensors|] == TagsOf(p.sensors)
  }

  lemma KeepsTemplate(tx: FusionEntry, rx: FusionEntry, p: Parsed)
    requires Fitting(tx, p) && ValidEntry(rx) && tx.(lastVals := rx.lastVals) == rx && Choose(tx, p) != Full
    ensures StillFits(ReceivedEntry(tx, rx, p), p) && rx.valCount == tx.valCount > 0
    ensures ValidEntry(ReceivedEntry(tx, rx, p))
  {
    hide SlotsOf, TagsOf;
    SlotsInBounds(p.sensors);
  }

  // ---- The body in terms of what was carried -----------------------------

  function CarriedOr(h: History, aid: uint32, tid: byte, j: nat): Text {
    var v := LastCarried(h, aid, tid, j);
    if v.Some? then v.value else []
  }

  /** The sensors of p with, in every slot, the last value carried for it. */
  function CarriedSensors(h: History, aid: uint32, tid: byte, p: Parsed): (xs: seq<Sensor>)
    ensures |xs| == |p.sensors|
  {
    seq(|p.sensors|, i requires 0 <= i < |p.sensors| =>
      Sensor(p.sensors[i].tag, CarriedOr(h, aid, tid, 2 * i), CarriedOr(h, aid, tid, 2 * i + 1)))
  }

  lemma CarriedIsHeld(h: History, r: FusionEntry, p: Parsed)
    requires StillFits(r, p)
    requires forall j: nat :: j < r.valCount ==> LastCarried(h, r.aid, r.tid, j) == Some(r.lastVals[j])
    ensures CarriedSensors(h, r.aid, r.tid, p) == SensorsIn(r)
  {
    hide LastCarried, TagsOf;
    var xs, ys := CarriedSensors(h, r.aid, r.tid, p), SensorsIn(r);
    forall i | 0 <= i < |p.sensors| ensures xs[i] == ys[i] {
      TagsAt(p.sensors, i);
      assert r.tagNames[i] == r.tagNames[..|p.sensors|][i] == p.sensors[i].tag;
      assert LastCarried(h, r.aid, r.tid, 2 * i) == Some(r.lastVals[2 * i]);
      assert LastCarried(h, r.aid, r.tid, 2 * i + 1) == Some(r.lastVals[2 * i + 1]);
    }
  }

  lemma CarriedIsCurrentIff(h: History, aid: uint32, tid: byte, p: Parsed)
    ensures CarriedSensors(h, aid, tid, p) == p.sensors <==>
            forall j: nat :: j < 2 * |p.sensors| ==> CarriedOr(h, aid, tid, j) == SlotsOf(p.sensors)[j]
  {
    hide CarriedOr, SlotsOf;
    var xs := CarriedSensors(h, aid, tid, p);
    if xs == p.sensors {
      forall j: nat | j < 2 * |p.sensors| ensures CarriedOr(h, aid, tid, j) == SlotsOf(p.sensors)[j] {
        SlotsAt(p.sensors, j / 2);
        assert xs[j / 2] == p.sensors[j / 2];
        assert j == 2 * (j / 2) || j == 2 * (j / 2) + 1;
      }
    }
    if forall j: nat :: j < 2 * |p.sensors| ==> CarriedOr(h, aid, tid, j) == SlotsOf(p.sensors)[j] {
      forall i | 0 <= i < |p.sensors| ensures xs[i] == p.sensors[i] {
        SlotsAt(p.sensors, i);
        assert CarriedOr(h, aid, tid, 2 * i) == SlotsOf(p.sensors)[2 * i];
        assert CarriedOr(h, aid, tid, 2 * i + 1) == SlotsOf(p.sensors)[2 * i + 1];
      }
    }
  }

  lemma NotFullIsParsed(t: Table, s: Send)
    requires GoodTable(t) && EncodeSend(t, s).packet.Some? && EncodeSend(t, s).cmd != DATA_FULL
    ensures ParseBody(s.body).Some? && Place(t, s.aid, s.tid) < |t|
  {
    hide ParseBody, Place;
  }

  lemma LastStep(h: History, ev: Event)
    requires FullsArrive(h) && ev.delivered
    requires EncodeSend(TxAfter(h), ev.send).packet.Some? && EncodeSend(TxAfter(h), ev.send).cmd != DATA_FULL
    ensures FullsArrive(h + [ev])
    ensures RxAfter(h + [ev]) == Decode(RxAfter(h), EncodeSend(TxAfter(h), ev.send).packet.value, ev.outCap).table
  {
    hide ParseBody, Decode, EncodeSend, TxAfter;
    assert (h + [ev])[..|h|] == h;
  }

  lemma CountOf(r: FusionEntry, p: Parsed)
    requires StillFits(r, p)
    ensures ValidEntry(r) && r.valCount == 2 * |p.sensors| <= |r.lastVals|
  {
  }

  lemma RebuiltText(r: FusionEntry, p: Parsed, ts: nat, cap: nat)
    requires StillFits(r, p) && p.sensors != []
    ensures var text := BodyText(p.sig, ts, SensorsIn(r));
            Reconstruct(r, ts, cap) == if |text| <= cap then Some(text) else None
  {
    hide BodyText, SensorsIn, TagsOf;
  }

  /** Lossy delivery: if every FULL arrives, a DIFF or HEART that arrives after any losses hands
      on the text of the last values carried for its slots, its own included. So the slots are
      those just encoded exactly when every one of them was carried last with its present value. */
  lemma LossyDelivery(h: History, ev: Event)
    requires FullsArrive(h) && ev.delivered
    requires EncodeSend(TxAfter(h), ev.send).packet.Some? && EncodeSend(TxAfter(h), ev.send).cmd != DATA_FULL
    ensures ParseBody(ev.send.body).Some?
    ensures var s, h', p := ev.send, h + [ev], ParseBody(ev.send.body).value;
            var xs := CarriedSensors(h', s.aid, s.tid, p);
            var text := BodyText(p.sig, WireTime(s.ts), xs);
            && Decode(RxAfter(h), EncodeSend(TxAfter(h), s).packet.value, ev.outCap).body ==
               (if |text| <= ev.outCap then Some(text) else None)
            && (forall j: nat :: j < 2 * |p.sensors| ==> LastCarried(h', s.aid, s.tid, j).Some?)
            && (xs == p.sensors <==>
                forall j: nat :: j < 2 * |p.sensors| ==> CarriedOr(h', s.aid, s.tid, j) == SlotsOf(p.sensors)[j])
  {
    hide ParseBody, Place, Decode, Encode, StillFits, Reconstruct, LastCarried, SameTemplates, UniqueKeys, TxAfter;
    hide BodyText, Find, CarriedOr, SlotsOf, CarriedSensors, RxAfter, FullsArrive, EncodeSend;
    var s, h' := ev.send, h + [ev];
    assert h'[..|h|] == h;
    LossyRun(h);
    NotFullIsParsed(TxAfter(h), s);
    var p, i := ParseBody(s.body).value, Place(TxAfter(h), s.aid, s.tid);
    HandsOn(TxAfter(h), RxAfter(h), s, ev.outCap);
    LastStep(h, ev);
    LossyRun(h');
    var r := RxAfter(h')[i];
    CountOf(r, p);
    CarriedIsHeld(h', r, p);
    ParsedSensors(s.body);
    RebuiltText(r, p, WireTime(s.ts), ev.outCap);
    CarriedIsCurrentIff(h', s.aid, s.tid, p);
  }
}
