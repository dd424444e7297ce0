/** Runs that lose packets: what a receiver may believe when DIFF and HEART packets go
    missing, how one FULL repairs it, and where a failed encode breaks the pairing. */
module FusionLoss {
  import opened Bytes
  import opened Commands
  import opened Packet
  import opened FusionText
  import opened FusionDiff
  import opened FusionTable
  import opened FusionRuns
  import opened FusionHistory

  // ---- One packet at a receiver that may be behind -----------------------

  /** What the sender put into its packet, decided by its own entry. */
  function ReceivedEntry(tx: FusionEntry, rx: FusionEntry, p: Parsed): FusionEntry
    requires Fitting(tx, p) && ValidEntry(rx)
  {
    match Choose(tx, p)
    case Full => StoreFull(rx, p)
    case Diff => rx.(lastVals := Merged(rx.lastVals, tx.lastVals, SlotsOf(p.sensors), 2 * |p.sensors|))
    case Heart => rx
  }

  /** The two tables agree on everything but the cached values. */
  ghost predicate SameTemplates(tx: Table, rx: Table) {
    |tx| == |rx| && forall i :: 0 <= i < |tx| ==> tx[i].(lastVals := rx[i].lastVals) == rx[i]
  }

  lemma SamePlace(tx: Table, rx: Table, aid: uint32, tid: byte)
    requires SameTemplates(tx, rx)
    ensures Find(tx, aid, tid) == Find(rx, aid, tid)
    ensures Place(tx, aid, tid) == Place(rx, aid, tid)
  {
    hide Find, FreeSlot;
    assert forall k :: 0 <= k < |tx| ==> tx[k].used == rx[k].used && tx[k].aid == rx[k].aid && tx[k].tid == rx[k].tid;
    assert forall k :: 0 <= k < |tx| ==> (Matches(tx[k], aid, tid) <==> Matches(rx[k], aid, tid));
    var f, g := FreeSlot(tx), FreeSlot(rx);
    assert f < |tx| ==> !rx[f].used;
    assert g < |rx| ==> !tx[g].used;
  }

  lemma SameClaim(tx: Table, rx: Table, aid: uint32, tid: byte)
    requires SameTemplates(tx, rx) && Place(tx, aid, tid) < |tx|
    ensures Place(rx, aid, tid) < |rx|
    ensures Claimed(tx, aid, tid).(lastVals := Claimed(rx, aid, tid).lastVals) == Claimed(rx, aid, tid)
  {
    hide Find, FreeSlot;
    SamePlace(tx, rx, aid, tid);
  }

  lemma LateDiff(tx: FusionEntry, rx: Table, i: nat, m: Meta, p: Parsed, outCap: nat)
    requires ValidTable(rx) && i < |rx| && Fitting(tx, p) && Choose(tx, p) == Diff
    requires rx[i].valCount == tx.valCount
    ensures ReceiveDiff(rx, i, m, WireBody(tx, p, []), outCap).table == rx[i := ReceivedEntry(tx, rx[i], p)]
  {
    hide StructChanged, Reconstruct, SlotsOf, DiffBody, ApplyDiff, Merged, InBounds;
    SlotsInBounds(p.sensors);
    DiffCount(tx, p);
    ApplyMerges(rx[i].lastVals, tx.lastVals, SlotsOf(p.sensors), 2 * |p.sensors|);
  }

  lemma LateFull(rx: Table, m: Meta, body: Text, outCap: nat)
    requires ValidTable(rx) && ParseBody(body).Some? && Place(rx, m.aid, m.tid) < |rx|
    ensures ReceiveFull(rx, m, body, outCap).table
         == rx[Place(rx, m.aid, m.tid) := StoreFull(Claimed(rx, m.aid, m.tid), ParseBody(body).value)]
  {
    hide ParseBody, Place, Claimed, StoreFull;
  }

  lemma ReceivedEntryCases(tx: FusionEntry, rx: FusionEntry, p: Parsed)
    requires Fitting(tx, p) && ValidEntry(rx)
    ensures Choose(tx, p) == Full ==> ReceivedEntry(tx, rx, p) == StoreFull(rx, p)
    ensures Choose(tx, p) == Heart ==> ReceivedEntry(tx, rx, p) == rx
  {
  }

  /** A delivered packet does to the receiver's entry what the sender's entry decided. */
  lemma Received(tx: Table, rx: Table, s: Send, outCap: nat)
    requires GoodTable(tx) && ValidTable(rx) && SameTemplates(tx, rx)
    requires ParseBody(s.body).Some? && Place(tx, s.aid, s.tid) < |tx|
    requires EncodeSend(tx, s).packet.Some?
    ensures Place(rx, s.aid, s.tid) == Place(tx, s.aid, s.tid)
    ensures Fitting(Claimed(tx, s.aid, s.tid), ParseBody(s.body).value) && ValidEntry(Claimed(rx, s.aid, s.tid))
    ensures Decode(rx, EncodeSend(tx, s).packet.value, outCap).table
         == rx[Place(rx, s.aid, s.tid) :=
                 ReceivedEntry(Claimed(tx, s.aid, s.tid), Claimed(rx, s.aid, s.tid), ParseBody(s.body).value)]
  {
    hide ParseBody, Place, Claimed, Cached, Choose, WireBody, Find, Frame, DecodeMeta, BodyOf,
      ReceiveFull, ReceiveDiff, ReceiveHeart, Fitting, StructChanged, StoreFull, ReceivedEntry, ValidEntry;
    var p, i := ParseBody(s.body).value, Place(tx, s.aid, s.tid);
    var e := Claimed(tx, s.aid, s.tid);
    SamePlace(tx, rx, s.aid, s.tid);
    SameClaim(tx, rx, s.aid, s.tid);
    ClaimedFits(tx, s.aid, s.tid, s.body);
    ClaimedFits(rx, s.aid, s.tid, s.body);
    FittingIsValid(Claimed(rx, s.aid, s.tid), p);
    NonemptyBody(s.body);
    ChoiceFacts(e, p, s.body);
    ReceivedEntryCases(e, Claimed(rx, s.aid, s.tid), p);
    var cmd, wire := CmdOf(Choose(e, p)), WireBody(e, p, s.body);
    FrameDecodes(cmd, s.aid, s.tid, s.ts, wire);
    var m := DecodeMeta(Frame(cmd, s.aid, s.tid, s.ts, wire)).value;
    if Choose(e, p) == Full {
      LateFull(rx, m, s.body, outCap);
    } else {
      UnchangedWasFound(tx, s.aid, s.tid, p);
      FoundClaim(rx, s.aid, s.tid);
      if Choose(e, p) == Diff {
        LateDiff(e, rx, i, m, p, outCap);
      } else {
        LateHeart(rx, i, m, outCap);
      }
    }
  }

  lemma FittingIsValid(e: FusionEntry, p: Parsed)
    requires Fitting(e, p)
    ensures ValidEntry(e)
  {
  }

  lemma FoundClaim(t: Table, aid: uint32, tid: byte)
    requires Find(t, aid, tid) < |t|
    ensures Place(t, aid, tid) < |t| && Claimed(t, aid, tid) == t[Place(t, aid, tid)]
  {
  }

  lemma LateHeart(rx: Table, i: nat, m: Meta, outCap: nat)
    requires ValidTable(rx) && i < |rx|
    ensures ReceiveHeart(rx, i, m, outCap).table == rx
  {
    hide Reconstruct;
  }

  lemma UnparsedReceived(tx: Table, rx: Table, s: Send, outCap: nat)
    requires GoodTable(tx) && ValidTable(rx) && ParseBody(s.body).None? && EncodeSend(tx, s).packet.Some?
    ensures Decode(rx, EncodeSend(tx, s).packet.value, outCap).table == rx
  {
    hide ParseBody, Place, Find, Frame, DecodeMeta, BodyOf, ReceiveFull, ReceiveDiff, ReceiveHeart;
    FrameDecodes(DATA_FULL, s.aid, s.tid, s.ts, s.body);
    UnparsedInStep(rx, DecodeMeta(EncodeSend(tx, s).packet.value).value, s.body, outCap);
  }

  // ---- Lossy runs --------------------------------------------------------

  /** Every FULL packet of a body that parses, which carries a new structure, is produced and arrives. */
  ghost predicate FullsArrive(h: History) {
    h == [] ||
    var front, ev := h[..|h| - 1], h[|h| - 1];
    var sent := EncodeSend(TxAfter(front), ev.send);
    FullsArrive(front) &&
    (sent.cmd == DATA_FULL && ParseBody(ev.send.body).Some? ==> sent.packet.Some? && ev.delivered)
  }

  /** The packet for this body carries slot j: all slots in a FULL, the changed ones in a DIFF. */
  predicate Carries(t: Table, s: Send, j: nat)
    requires ValidTable(t)
  {
    && ParseBody(s.body).Some? && Place(t, s.aid, s.tid) < |t|
    && j < 2 * |ParseBody(s.body).value.sensors|
    && var e, p := Claimed(t, s.aid, s.tid), ParseBody(s.body).value;
       ClaimedFits(t, s.aid, s.tid, s.body);
       match Choose(e, p)
       case Full => true
       case Diff => e.lastVals[j] != SlotsOf(p.sensors)[j]
       case Heart => false
  }

  predicate Arrived(h: History)
    requires h != []
  {
    var front, ev := h[..|h| - 1], h[|h| - 1];
    ev.delivered && EncodeSend(TxAfter(front), ev.send).packet.Some?
  }

  /** The value of slot j in the body of the last delivered packet that carried it. */
  function LastCarried(h: History, aid: uint32, tid: byte, j: nat): Option<Text> {
    if h == [] then None
    else
      var front, s := h[..|h| - 1], h[|h| - 1].send;
      if s.aid == aid && s.tid == tid && Arrived(h) && Carries(TxAfter(front), s, j) then
        Some(SlotsOf(ParseBody(s.body).value.sensors)[j])
      else LastCarried(front, aid, tid, j)
  }

  ghost predicate UniqueKeys(t: Table) {
    forall i, k :: 0 <= i < k < |t| && t[i].used && t[k].used ==> (t[i].aid, t[i].tid) != (t[k].aid, t[k].tid)
  }

  /** Every slot the receiver holds is the last value carried for it. */
  ghost predicate SlotsAreCarried(h: History, rx: Table) {
    forall i, j :: 0 <= i < |rx| && rx[i].used && 0 <= j < rx[i].valCount && j < |rx[i].lastVals| ==>
      LastCarried(h, rx[i].aid, rx[i].tid, j) == Some(rx[i].lastVals[j])
  }

  lemma KeysStayUnique(t: Table, aid: uint32, tid: byte, e: FusionEntry)
    requires UniqueKeys(t) && Place(t, aid, tid) < |t| && Matches(e, aid, tid)
    ensures UniqueKeys(t[Place(t, aid, tid) := e])
    ensures forall k :: 0 <= k < |t| && k != Place(t, aid, tid) && t[k].used ==> (t[k].aid, t[k].tid) != (aid, tid)
  {
    hide Find, FreeSlot;
    var i := Place(t, aid, tid);
    forall k | 0 <= k < |t| && k != i && t[k].used ensures (t[k].aid, t[k].tid) != (aid, tid) {
      assert Find(t, aid, tid) < |t| ==> Matches(t[i], aid, tid);
      assert !Matches(t[k], aid, tid);
    }
  }

  /** The step of a lost, empty or unparsable packet. */
  lemma NothingCarried(h: History, t: Table, s: Send, rx: Table)
    requires h != [] && t == TxAfter(h[..|h| - 1]) && s == h[|h| - 1].send
    requires SlotsAreCarried(h[..|h| - 1], rx)
    requires forall j: nat :: Arrived(h) ==> !Carries(t, s, j)
    ensures SlotsAreCarried(h, rx)
  {
    hide Arrived, Carries;
  }

  lemma ReceivedSlots(tx: FusionEntry, rx: FusionEntry, p: Parsed, j: nat)
    requires Fitting(tx, p) && ValidEntry(rx) && j < 2 * |p.sensors|
    ensures ReceivedEntry(tx, rx, p).lastVals[j] ==
            if Choose(tx, p) == Full || (Choose(tx, p) == Diff && tx.lastVals[j] != SlotsOf(p.sensors)[j])
            then SlotsOf(p.sensors)[j] else rx.lastVals[j]
    ensures Choose(tx, p) == Full ==> ReceivedEntry(tx, rx, p).valCount == 2 * |p.sensors|
    ensures Choose(tx, p) != Full ==> ReceivedEntry(tx, rx, p).valCount == rx.valCount
    ensures ReceivedEntry(tx, rx, p).used == rx.used
    ensures |rx.lastVals| == MAX_VALS && |ReceivedEntry(tx, rx, p).lastVals| == MAX_VALS
    ensures ReceivedEntry(tx, rx, p).aid == rx.aid && ReceivedEntry(tx, rx, p).tid == rx.tid
  {
    hide StructChanged, SlotsOf, TagsOf, InBounds;
  }

  lemma CarriesMeans(t: Table, s: Send, j: nat)
    requires ValidTable(t) && ParseBody(s.body).Some? && Place(t, s.aid, s.tid) < |t|
    requires Fitting(Claimed(t, s.aid, s.tid), ParseBody(s.body).value)
    requires j < 2 * |ParseBody(s.body).value.sensors|
    ensures var e, p := Claimed(t, s.aid, s.tid), ParseBody(s.body).value;
            Carries(t, s, j) <==>
              Choose(e, p) == Full || (Choose(e, p) == Diff && e.lastVals[j] != SlotsOf(p.sensors)[j])
  {
    hide ParseBody, Place, Claimed, Choose, SlotsOf;
  }

  lemma TemplatesAfter(tx: FusionEntry, rx: FusionEntry, p: Parsed)
    requires Fitting(tx, p) && ValidEntry(rx) && tx.(lastVals := rx.lastVals) == rx
    ensures var c, r := Cached(tx, p), ReceivedEntry(tx, rx, p); c.(lastVals := r.lastVals) == r
    ensures Choose(tx, p) != Full ==> Cached(tx, p).(lastVals := tx.lastVals) == tx
  {
    hide StructChanged, SlotsOf, TagsOf, InBounds;
  }

  lemma TemplatesUpdated(tx: Table, rx: Table, i: nat, c: FusionEntry, r: FusionEntry)
    requires SameTemplates(tx, rx) && i < |tx| && c.(lastVals := r.lastVals) == r
    ensures SameTemplates(tx[i := c], rx[i := r])
  {
  }

  lemma LastCarriedStep(h: History, aid: uint32, tid: byte, j: nat)
    requires h != []
    ensures var front, s := h[..|h| - 1], h[|h| - 1].send;
            LastCarried(h, aid, tid, j) ==
            if s.aid == aid && s.tid == tid && Arrived(h) && Carries(TxAfter(front), s, j) then
              Some(SlotsOf(ParseBody(s.body).value.sensors)[j])
            else LastCarried(front, aid, tid, j)
  {
    hide Arrived, Carries, TxAfter, ParseBody, SlotsOf;
  }

  /** The receiver's step on a packet that arrived. */
  lemma ArrivedSlots(h: History, i: nat, e: FusionEntry, r: FusionEntry, p: Parsed)
    requires h != [] && Arrived(h)
    requires var t, s, rx := TxAfter(h[..|h| - 1]), h[|h| - 1].send, RxAfter(h[..|h| - 1]);
             && ParseBody(s.body) == Some(p) && i == Place(t, s.aid, s.tid) == Place(rx, s.aid, s.tid) < |t| == |rx|
             && e == Claimed(t, s.aid, s.tid) && r == Claimed(rx, s.aid, s.tid)
             && Fitting(e, p) && ValidEntry(r) && e.(lastVals := r.lastVals) == r
             && (Choose(e, p) != Full ==> r == rx[i])
             && UniqueKeys(rx)
             && SlotsAreCarried(h[..|h| - 1], rx)
    ensures SlotsAreCarried(h, RxAfter(h[..|h| - 1])[i := ReceivedEntry(e, r, p)])
  {
    hide Arrived, Carries, ParseBody, Place, Claimed, Choose, Fitting, ValidEntry;
    hide ReceivedEntry, SlotsOf, TxAfter, RxAfter;
    var front := h[..|h| - 1];
    var t, s, rx := TxAfter(front), h[|h| - 1].send, RxAfter(front);
    var r' := ReceivedEntry(e, r, p);
    var rx' := rx[i := r'];
    ParsedCount(s.body);
    ClaimedMatches(rx, s.aid, s.tid);
    ReceivedSlots(e, r, p, 0);
    KeysStayUnique(rx, s.aid, s.tid, r');
    ChoiceFacts(e, p, s.body);
    UnchangedCount(e, p);
    forall k, j | 0 <= k < |rx'| && rx'[k].used && 0 <= j < rx'[k].valCount && j < |rx'[k].lastVals|
      ensures LastCarried(h, rx'[k].aid, rx'[k].tid, j) == Some(rx'[k].lastVals[j])
    {
      LastCarriedStep(h, rx'[k].aid, rx'[k].tid, j);
      if k == i {
        ReceivedSlots(e, r, p, j);
        CarriesMeans(t, s, j);
        assert !Carries(t, s, j) ==> r == rx[i] && r'.lastVals[j] == r.lastVals[j];
      } else {
        assert rx'[k] == rx[k];
      }
    }
  }

  lemma UnchangedCount(e: FusionEntry, p: Parsed)
    requires Fitting(e, p)
    ensures Choose(e, p) != Full ==> e.valCount == 2 * |p.sensors|
  {
  }

  lemma ParsedCount(body: Text)
    requires ParseBody(body).Some?
    ensures 0 < |ParseBody(body).value.sensors| <= MAX_SENSORS
  {
  }

  ghost predicate LossInvariant(h: History) {
    && SameTemplates(TxAfter(h), RxAfter(h))
    && UniqueKeys(RxAfter(h))
    && SlotsAreCarried(h, RxAfter(h))
  }

  lemma UnparsedLossStep(h: History)
    requires h != [] && LossInvariant(h[..|h| - 1])
    requires var t, s := TxAfter(h[..|h| - 1]), h[|h| - 1].send;
             ParseBody(s.body).None? || Place(t, s.aid, s.tid) == |t|
    ensures LossInvariant(h)
  {
    hide ParseBody, Place, SameTemplates, UniqueKeys, SlotsAreCarried, Decode, Framed, Choose;
    var front, ev := h[..|h| - 1], h[|h| - 1];
    var t, s := TxAfter(front), ev.send;
    QuietEncode(t, s);
    if ParseBody(s.body).None? && Arrived(h) {
      UnparsedReceived(t, RxAfter(front), s, ev.outCap);
    }
    NothingCarried(h, t, s, RxAfter(front));
  }

  lemma ParsedLossStep(h: History)
    requires h != [] && LossInvariant(h[..|h| - 1]) && FullsArrive(h)
    requires var t, s := TxAfter(h[..|h| - 1]), h[|h| - 1].send;
             ParseBody(s.body).Some? && Place(t, s.aid, s.tid) < |t|
    ensures LossInvariant(h)
  {
    hide ParseBody, Place, Claimed, Choose, Cached, WireBody, Fitting, ValidEntry, SameTemplates, UniqueKeys,
      SlotsAreCarried, Decode, Framed, ReceivedEntry, Carries, StructChanged, Find;
    var front, ev := h[..|h| - 1], h[|h| - 1];
    var t, s, rx := TxAfter(front), ev.send, RxAfter(front);
    var p, i := ParseBody(s.body).value, Place(t, s.aid, s.tid);
    var e := Claimed(t, s.aid, s.tid);
    SamePlace(t, rx, s.aid, s.tid);
    SameSize(t, rx);
    SameClaim(t, rx, s.aid, s.tid);
    var r := Claimed(rx, s.aid, s.tid);
    ClaimedFits(t, s.aid, s.tid, s.body);
    ClaimedFits(rx, s.aid, s.tid, s.body);
    FittingIsValid(r, p);
    NonemptyBody(s.body);
    TemplatesAfter(e, r, p);
    ChoiceFacts(e, p, s.body);
    if Choose(e, p) != Full {
      UnchangedWasFound(t, s.aid, s.tid, p);
      FoundClaim(rx, s.aid, s.tid);
    }
    if Arrived(h) {
      Received(t, rx, s, ev.outCap);
      TemplatesUpdated(t, rx, i, Cached(e, p), ReceivedEntry(e, r, p));
      ClaimedMatches(rx, s.aid, s.tid);
      ReceivedSlots(e, r, p, 0);
      KeysStayUnique(rx, s.aid, s.tid, ReceivedEntry(e, r, p));
      ArrivedSlots(h, i, e, r, p);
    } else {
      EntryOnlyValues(t, rx, i, Cached(e, p));
      NothingCarried(h, t, s, rx);
    }
  }

  lemma SameSize(tx: Table, rx: Table)
    requires SameTemplates(tx, rx)
    ensures |tx| == |rx|
  {
  }

  lemma EntryOnlyValues(tx: Table, rx: Table, i: nat, c: FusionEntry)
    requires SameTemplates(tx, rx) && i < |tx| && c.(lastVals := tx[i].lastVals) == tx[i]
    ensures SameTemplates(tx[i := c], rx)
  {
  }

  lemma {:induction false} LossyRun(h: History)
    requires FullsArrive(h)
    ensures LossInvariant(h)
    decreases |h|
  {
    hide ParseBody, Place, LossInvariant;
    if h == [] {
      LossStarts();
    } else {
      var front, s := h[..|h| - 1], h[|h| - 1].send;
      LossyRun(front);
      var t := TxAfter(front);
      if ParseBody(s.body).Some? && Place(t, s.aid, s.tid) < |t| {
        ParsedLossStep(h);
      } else {
        UnparsedLossStep(h);
      }
    }
  }

  lemma LossStarts()
    ensures LossInvariant([])
  {
  }

  /** Lossy runs: if every FULL arrives, each slot the receiver holds is the value in the
      last delivered packet that carried that slot. Nothing is invented or misplaced. */
  lemma NothingInvented(h: History, aid: uint32, tid: byte, j: nat)
    requires FullsArrive(h)
    ensures match Lookup(RxAfter(h), aid, tid)
            case None => true
            case Some(e) => j < e.valCount && j < |e.lastVals| ==> LastCarried(h, aid, tid, j) == Some(e.lastVals[j])
  {
    hide RxAfter, TxAfter, LastCarried, Find;
    LossyRun(h);
    var rx := RxAfter(h);
    var i := Find(rx, aid, tid);
    assert i < |rx| ==> Matches(rx[i], aid, tid);
  }
}
