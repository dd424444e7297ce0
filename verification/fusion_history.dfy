/** Whole runs of the fusion protocol: a sender and a receiver that both start empty,
    any sequence of bodies for any keys, some packets lost on the way. */
module FusionHistory {
  import opened Bytes
  import opened Numerals
  import opened Commands
  import opened Packet
  import opened FusionText
  import opened FusionDiff
  import opened FusionTable
  import opened FusionRuns

  datatype Send = Send(aid: uint32, tid: byte, ts: uint64, body: Text, cap: nat)

  /** One encode, whether its packet reached the receiver, and the room it had there. */
  datatype Event = Event(send: Send, delivered: bool, outCap: nat)

  type History = seq<Event>

  function EncodeSend(t: Table, s: Send): Sent
    requires ValidTable(t)
  {
    Encode(t, s.aid, s.tid, s.ts, s.body, s.cap)
  }

  function TxAfter(h: History): (t: Table)
    ensures GoodTable(t)
  {
    if h == [] then
      EmptyIsGood();
      EmptyTable()
    else
      var t, s := TxAfter(h[..|h| - 1]), h[|h| - 1].send;
      EncodeKeepsGood(t, s.aid, s.tid, s.ts, s.body, s.cap);
      EncodeSend(t, s).table
  }

  function RxStep(rx: Table, sent: Sent, ev: Event): (t: Table)
    requires ValidTable(rx)
    ensures ValidTable(t)
  {
    if ev.delivered && sent.packet.Some? then
      DecodeKeepsValid(rx, sent.packet.value, ev.outCap);
      Decode(rx, sent.packet.value, ev.outCap).table
    else rx
  }

  function RxAfter(h: History): (t: Table)
    ensures ValidTable(t)
  {
    if h == [] then
      EmptyIsGood();
      EmptyTable()
    else
      var front, ev := h[..|h| - 1], h[|h| - 1];
      RxStep(RxAfter(front), EncodeSend(TxAfter(front), ev.send), ev)
  }

  // ---- Any packet keeps the receiver's table valid -----------------------

  lemma {:induction false} AppliedInBounds(vals: seq<Text>, mask: nat, body: Text, off: nat, j: nat)
    requires j <= |vals| && forall i :: 0 <= i < |vals| ==> |vals[i]| < MAX_VAL_LEN
    ensures forall i :: 0 <= i < |vals| ==> |ApplyTo(vals, mask, body, off, j).vals[i]| < MAX_VAL_LEN
    decreases j
  {
    hide BitAt;
    if j > 0 {
      AppliedInBounds(vals, mask, body, off, j - 1);
    }
  }

  lemma ApplyDiffInBounds(vals: seq<Text>, n: nat, body: Text)
    requires n <= |vals| && forall i :: 0 <= i < |vals| ==> |vals[i]| < MAX_VAL_LEN
    ensures forall i :: 0 <= i < |vals| ==> |ApplyDiff(vals, n, body).vals[i]| < MAX_VAL_LEN
  {
    hide ApplyTo, FromBE;
    if n > 0 && |body| > 0 && |body| >= MaskLen(n) {
      AppliedInBounds(vals, FromBE(body[..MaskLen(n)]), body, MaskLen(n), n);
    }
  }

  lemma AppliedIsValid(e: FusionEntry, body: Text)
    requires ValidEntry(e)
    ensures e.valCount <= |e.lastVals|
    ensures ValidEntry(e.(lastVals := ApplyDiff(e.lastVals, e.valCount, body).vals))
  {
    hide ApplyDiff;
    ApplyDiffInBounds(e.lastVals, e.valCount, body);
  }

  lemma ReceiveFullKeepsValid(t: Table, m: Meta, body: Text, cap: nat)
    requires ValidTable(t)
    ensures ValidTable(ReceiveFull(t, m, body, cap).table)
  {
    hide ParseBody, Place, Claimed, StoreFull, SensorsIn, ValidEntry;
    if ParseBody(body).Some? && Place(t, m.aid, m.tid) < |t| {
      ClaimedFits(t, m.aid, m.tid, body);
      StoreFullHolds(Claimed(t, m.aid, m.tid), ParseBody(body).value);
    }
  }

  lemma ReceiveDiffKeepsValid(t: Table, i: nat, m: Meta, body: Text, cap: nat)
    requires ValidTable(t) && i < |t|
    ensures ValidTable(ReceiveDiff(t, i, m, body, cap).table)
  {
    hide ApplyDiff, Reconstruct;
    ApplyDiffInBounds(t[i].lastVals, t[i].valCount, body);
  }

  lemma DecodeKeepsValid(t: Table, packet: Text, cap: nat)
    requires ValidTable(t)
    ensures ValidTable(Decode(t, packet, cap).table)
  {
    hide DecodeMeta, Find, ReceiveFull, ReceiveDiff, ValidEntry, Reconstruct, BodyOf;
    match DecodeMeta(packet)
    case None =>
    case Some(m) =>
      ReceiveFullKeepsValid(t, m, BodyOf(packet, m), cap);
      if Find(t, m.aid, m.tid) < |t| {
        ReceiveDiffKeepsValid(t, Find(t, m.aid, m.tid), m, BodyOf(packet, m), cap);
      }
  }

  // ---- Lockstep ----------------------------------------------------------

  /** Room for the body and for the largest DIFF. */
  predicate Roomy(s: Send) {
    s.cap >= OVERHEAD + |s.body| && s.cap >= OVERHEAD + MaskLen(MAX_VALS) + MAX_VALS * MAX_VAL_LEN
  }

  lemma WireFits(e: FusionEntry, p: Parsed, body: Text)
    requires Fitting(e, p)
    ensures |WireBody(e, p, body)| <= |body| || |WireBody(e, p, body)| <= MaskLen(MAX_VALS) + MAX_VALS * MAX_VAL_LEN
  {
    hide DiffBody, InBounds, StructChanged;
    SlotsInBounds(p.sensors);
    DiffLength(e.lastVals, SlotsOf(p.sensors), 2 * |p.sensors|);
  }

  /** The packet the sender chose does not fit, and it was to carry something new. */
  predicate CacheRunsAhead(t: Table, s: Send)
    requires ValidTable(t)
  {
    && ParseBody(s.body).Some? && Place(t, s.aid, s.tid) < |t|
    && var p := ParseBody(s.body).value;
       ClaimedFits(t, s.aid, s.tid, s.body);
       var e := Claimed(t, s.aid, s.tid);
       Choose(e, p) != Heart && s.cap < |WireBody(e, p, s.body)| + OVERHEAD
  }

  lemma RoomyIsSafe(t: Table, s: Send)
    requires GoodTable(t) && Roomy(s)
    ensures !CacheRunsAhead(t, s)
  {
    hide ParseBody, Place, Claimed, Choose, WireBody, MaskLen;
    if ParseBody(s.body).Some? && Place(t, s.aid, s.tid) < |t| {
      ClaimedFits(t, s.aid, s.tid, s.body);
      WireFits(Claimed(t, s.aid, s.tid), ParseBody(s.body).value, s.body);
    }
  }

  /** An encode that produces no packet and does not leave the cache ahead changes nothing. */
  lemma SafeSilence(t: Table, s: Send)
    requires GoodTable(t) && !CacheRunsAhead(t, s) && EncodeSend(t, s).packet.None?
    ensures EncodeSend(t, s).table == t
  {
    hide ParseBody, Place, Claimed, StructChanged, WireBody, Frame, StoreFull, StoreChanged;
    if s.body != [] && ParseBody(s.body).Some? && Place(t, s.aid, s.tid) < |t| {
      ClaimedFits(t, s.aid, s.tid, s.body);
      var e, p := Claimed(t, s.aid, s.tid), ParseBody(s.body).value;
      if !StructChanged(e, p) {
        UnchangedWasFound(t, s.aid, s.tid, p);
      }
    }
  }

  /** With enough room a nonempty body always yields a packet, unless it parses and neither
      has an entry nor finds a free one. */
  lemma ProducedIff(t: Table, s: Send)
    requires GoodTable(t) && Roomy(s) && s.body != []
    ensures EncodeSend(t, s).packet.Some? <==> ParseBody(s.body).None? || Place(t, s.aid, s.tid) < |t|
  {
    hide ParseBody, Place, Claimed, Choose, WireBody, Cached, Frame, Fitting;
    if ParseBody(s.body).Some? && Place(t, s.aid, s.tid) < |t| {
      ClaimedFits(t, s.aid, s.tid, s.body);
      WireFits(Claimed(t, s.aid, s.tid), ParseBody(s.body).value, s.body);
    }
  }

  /** Every packet arrives, and no send leaves the cache ahead of it. */
  ghost predicate Faithful(h: History)
    decreases |h|
  {
    h == [] ||
    var front, ev := h[..|h| - 1], h[|h| - 1];
    Faithful(front) && ev.delivered && !CacheRunsAhead(TxAfter(front), ev.send)
  }

  /** Enough packet capacity for every body and for the largest DIFF keeps a run faithful. */
  lemma {:induction false} RoomyIsFaithful(h: History)
    requires forall k :: 0 <= k < |h| ==> h[k].delivered && Roomy(h[k].send)
    ensures Faithful(h)
    decreases |h|
  {
    hide Roomy, CacheRunsAhead;
    if h != [] {
      var front, ev := h[..|h| - 1], h[|h| - 1];
      RoomyIsFaithful(front);
      RoomyIsSafe(TxAfter(front), ev.send);
    }
  }

  /** Lockstep: over every run whose packets are all delivered in order, the receiver's
      table is the sender's after every step. */
  lemma {:induction false} Lockstep(h: History)
    requires Faithful(h)
    ensures RxAfter(h) == TxAfter(h)
    decreases |h|
  {
    hide Encode, Decode, CacheRunsAhead, ValidTable, Delivered;
    if h != [] {
      var front, ev := h[..|h| - 1], h[|h| - 1];
      Lockstep(front);
      var t, s := TxAfter(front), ev.send;
      if EncodeSend(t, s).packet.Some? {
        StepInLockstep(t, s.aid, s.tid, s.ts, s.body, s.cap, ev.outCap);
      } else {
        SafeSilence(t, s);
      }
    }
  }

  // ---- The sender's cache is the last body -------------------------------

  function Lookup(t: Table, aid: uint32, tid: byte): Option<FusionEntry> {
    var i := Find(t, aid, tid);
    if i < |t| then Some(t[i]) else None
  }

  /** The last parsable body that was encoded for the key while the table had room for it. */
  function LastEncoded(h: History, aid: uint32, tid: byte): Option<Parsed> {
    if h == [] then None
    else
      var front, s := h[..|h| - 1], h[|h| - 1].send;
      if s.aid == aid && s.tid == tid && ParseBody(s.body).Some? && Place(TxAfter(front), aid, tid) < MAX_ENTRIES then
        ParseBody(s.body)
      else
        LastEncoded(front, aid, tid)
  }

  /** The packet kind that the last body for the key and the new one call for. */
  function KindFor(prev: Option<Parsed>, p: Parsed): Kind {
    if prev.None? || CStr(prev.value.sig) != p.sig || TagsOf(prev.value.sensors) != TagsOf(p.sensors) then Full
    else if prev.value.sensors == p.sensors then Heart
    else Diff
  }

  /** An entry holds the structure and the slots of a parsed body. */
  ghost predicate Holds(e: FusionEntry, p: Parsed) {
    && ValidEntry(e)
    && e.sigBase == CStr(p.sig)
    && SensorsIn(e) == p.sensors
  }

  /** Changing the entry at the place of one key changes no other key's entry. */
  lemma OthersUntouched(t: Table, aid: uint32, tid: byte, e: FusionEntry, aid2: uint32, tid2: byte)
    requires Place(t, aid, tid) < |t| && Matches(e, aid, tid) && (aid, tid) != (aid2, tid2)
    ensures Lookup(t[Place(t, aid, tid) := e], aid2, tid2) == Lookup(t, aid2, tid2)
  {
    hide Find, FreeSlot;
    var i := Place(t, aid, tid);
    var t' := t[i := e];
    assert !Matches(t[i], aid2, tid2) && !Matches(t'[i], aid2, tid2);
    var j, j' := Find(t, aid2, tid2), Find(t', aid2, tid2);
    assert forall k :: 0 <= k < |t| && k != i ==> t'[k] == t[k];
    assert j < |t| ==> Matches(t'[j], aid2, tid2);
    assert j' < |t| ==> Matches(t[j'], aid2, tid2);
  }

  lemma EncodedEntry(t: Table, s: Send)
    requires GoodTable(t) && ParseBody(s.body).Some? && Place(t, s.aid, s.tid) < |t|
    ensures var e := Lookup(EncodeSend(t, s).table, s.aid, s.tid);
            e.Some? && Holds(e.value, ParseBody(s.body).value)
    ensures forall aid: uint32, tid: byte :: (aid, tid) != (s.aid, s.tid) ==>
              Lookup(EncodeSend(t, s).table, aid, tid) == Lookup(t, aid, tid)
  {
    hide ParseBody, Place, Claimed, Cached, Choose, WireBody, Framed, Find, SensorsIn, ValidEntry, Fitting;
    ClaimedFits(t, s.aid, s.tid, s.body);
    ClaimedGood(t, s.aid, s.tid);
    var e, p := Claimed(t, s.aid, s.tid), ParseBody(s.body).value;
    CachedHoldsBody(e, p);
    StoreFullSig(e, p);
    ClaimedMatches(t, s.aid, s.tid);
    CachedMatches(e, p, s.aid, s.tid);
    FoundAfterUpdate(t, s.aid, s.tid, Cached(e, p));
    NonemptyBody(s.body);
    forall aid: uint32, tid: byte | (aid, tid) != (s.aid, s.tid)
      ensures Lookup(EncodeSend(t, s).table, aid, tid) == Lookup(t, aid, tid)
    {
      OthersUntouched(t, s.aid, s.tid, Cached(e, p), aid, tid);
    }
  }

  lemma NonemptyBody(body: Text)
    requires ParseBody(body).Some?
    ensures body != []
  {
  }

  lemma QuietEncode(t: Table, s: Send)
    requires GoodTable(t) && (ParseBody(s.body).None? || Place(t, s.aid, s.tid) == |t|)
    ensures EncodeSend(t, s).table == t
  {
    hide ParseBody, Place;
  }

  /** After any run the sender's table holds, for every key, the last body encoded for it. */
  lemma {:induction false} CacheIsLastBody(h: History, aid: uint32, tid: byte)
    ensures var e, p := Lookup(TxAfter(h), aid, tid), LastEncoded(h, aid, tid);
            (e.Some? <==> p.Some?) && (e.Some? ==> Holds(e.value, p.value))
    decreases |h|
  {
    hide Encode, ParseBody, Place, Holds, Lookup;
    if h == [] {
      NothingYet(aid, tid);
    } else {
      var front, s := h[..|h| - 1], h[|h| - 1].send;
      CacheIsLastBody(front, aid, tid);
      var t := TxAfter(front);
      if ParseBody(s.body).Some? && Place(t, s.aid, s.tid) < |t| {
        EncodedEntry(t, s);
      } else {
        QuietEncode(t, s);
      }
    }
  }

  lemma NothingYet(aid: uint32, tid: byte)
    ensures Lookup(EmptyTable(), aid, tid).None?
  {
    var t := EmptyTable();
    assert forall k :: 0 <= k < |t| ==> !Matches(t[k], aid, tid);
  }

  lemma HeldTags(e: FusionEntry, p: Parsed)
    requires Holds(e, p)
    ensures e.valCount == 2 * |p.sensors| && e.tagNames[..|p.sensors|] == TagsOf(p.sensors)
    ensures e.lastVals[..2 * |p.sensors|] == SlotsOf(p.sensors)
  {
    hide SlotsOf;
    var n := |p.sensors|;
    assert n == e.sensorCount;
    forall i | 0 <= i < n ensures e.tagNames[i] == TagsOf(p.sensors)[i] {
      assert SensorsIn(e)[i] == p.sensors[i];
    }
    forall i | 0 <= i < 2 * n ensures e.lastVals[i] == SlotsOf(p.sensors)[i] {
      SlotsAt(p.sensors, i / 2);
      assert SensorsIn(e)[i / 2] == p.sensors[i / 2];
      assert i == 2 * (i / 2) || i == 2 * (i / 2) + 1;
    }
  }

  lemma SlotsDetermine(xs: seq<Sensor>, ys: seq<Sensor>)
    requires TagsOf(xs) == TagsOf(ys) && SlotsOf(xs) == SlotsOf(ys)
    ensures xs == ys
  {
    assert |xs| == |ys|;
    forall i | 0 <= i < |xs| ensures xs[i] == ys[i] {
      SlotsAt(xs, i);
      SlotsAt(ys, i);
      TagsAt(xs, i);
      TagsAt(ys, i);
    }
  }

  lemma TagsCount(xs: seq<Sensor>, ys: seq<Sensor>)
    requires TagsOf(xs) == TagsOf(ys)
    ensures |xs| == |ys|
  {
  }

  lemma ChoiceFromHeld(e: FusionEntry, prev: Parsed, p: Parsed)
    requires Holds(e, prev) && Fitting(e, p) && p.sig != []
    ensures Choose(e, p) == KindFor(Some(prev), p)
  {
    hide SlotsOf, TagsOf, SensorsIn, InBounds, CStr;
    HeldTags(e, prev);
    var n := |p.sensors|;
    if CStr(prev.sig) == p.sig && e.valCount == 2 * n && TagsOf(prev.sensors) == TagsOf(p.sensors) {
      if SlotsOf(prev.sensors) == SlotsOf(p.sensors) {
        SlotsDetermine(prev.sensors, p.sensors);
      }
    }
    if TagsOf(prev.sensors) == TagsOf(p.sensors) {
      TagsCount(prev.sensors, p.sensors);
    }
  }

  lemma ChoiceFromFresh(t: Table, aid: uint32, tid: byte, p: Parsed)
    requires ValidTable(t) && Place(t, aid, tid) < |t| && Lookup(t, aid, tid).None?
    requires Fitting(Claimed(t, aid, tid), p)
    ensures Choose(Claimed(t, aid, tid), p) == Full
  {
    hide Find, FreeSlot, TagsOf;
  }

  /** The packet kind depends on the run only through the last body for the key: FULL
      exactly when the structure is new, HEART exactly when nothing changed. In
      particular an unchanged structure is never announced again. */
  lemma PacketKind(h: History, s: Send)
    requires ParseBody(s.body).Some? && Place(TxAfter(h), s.aid, s.tid) < MAX_ENTRIES
    ensures EncodeSend(TxAfter(h), s).cmd == CmdOf(KindFor(LastEncoded(h, s.aid, s.tid), ParseBody(s.body).value))
  {
    hide ParseBody, Place, Claimed, Cached, Choose, WireBody, Framed, KindFor, Holds, Fitting;
    var t, p := TxAfter(h), ParseBody(s.body).value;
    CacheIsLastBody(h, s.aid, s.tid);
    ClaimedFits(t, s.aid, s.tid, s.body);
    NonemptyBody(s.body);
    ParsedSig(s.body);
    if Lookup(t, s.aid, s.tid).Some? {
      FoundIsClaimed(t, s.aid, s.tid);
      ChoiceFromHeld(Claimed(t, s.aid, s.tid), LastEncoded(h, s.aid, s.tid).value, p);
    } else {
      ChoiceFromFresh(t, s.aid, s.tid, p);
      KindForNone(p);
    }
  }

  lemma KindForNone(p: Parsed)
    ensures KindFor(None, p) == Full
  {
  }

  lemma FoundIsClaimed(t: Table, aid: uint32, tid: byte)
    requires Lookup(t, aid, tid).Some?
    ensures Place(t, aid, tid) < |t| && Claimed(t, aid, tid) == Lookup(t, aid, tid).value
  {
  }

  lemma ParsedSig(body: Text)
    requires ParseBody(body).Some?
    ensures ParseBody(body).value.sig != []
  {
  }

  /** What the receiver hands on after a faithful run: the body itself from a FULL
      packet, otherwise the text of its slots under the 48-bit time. */
  lemma FaithfulDelivery(h: History, ev: Event)
    requires Faithful(h)
    requires EncodeSend(TxAfter(h), ev.send).packet.Some?
    ensures var s, sent := ev.send, EncodeSend(TxAfter(h), ev.send);
            var g := Decode(RxAfter(h), sent.packet.value, ev.outCap);
            if sent.cmd == DATA_FULL then g.body == if |s.body| <= ev.outCap then Some(s.body) else None
            else ParseBody(s.body).Some? &&
                 var p := ParseBody(s.body).value;
                 var text := BodyText(p.sig, WireTime(s.ts), p.sensors);
                 g.body == if |text| <= ev.outCap then Some(text) else None
  {
    hide Decode, ParseBody, Place, Claimed, Choose, Cached, WireBody, Framed, BodyText, Holds, LastEncoded, KindFor;
    var s, t := ev.send, TxAfter(h);
    Lockstep(h);
    StepInLockstep(t, s.aid, s.tid, s.ts, s.body, s.cap, ev.outCap);
    var sent := EncodeSend(t, s);
    if sent.cmd != DATA_FULL {
      PacketKind(h, s);
      KindNotFull(LastEncoded(h, s.aid, s.tid), ParseBody(s.body).value);
      EncodedEntry(t, s);
      HeldText(Lookup(sent.table, s.aid, s.tid).value, ParseBody(s.body).value, WireTime(s.ts), ev.outCap);
      ParsedSig(s.body);
      ParsedSensors(s.body);
    }
  }

  lemma ParsedSensors(body: Text)
    requires ParseBody(body).Some?
    ensures ParseBody(body).value.sensors != []
  {
  }

  lemma KindNotFull(prev: Option<Parsed>, p: Parsed)
    requires KindFor(prev, p) != Full
    ensures Free(p.sig, NUL)
  {
  }

  lemma HeldText(e: FusionEntry, p: Parsed, ts: nat, cap: nat)
    requires Holds(e, p) && Free(p.sig, NUL) && p.sig != [] && p.sensors != []
    ensures var text := BodyText(p.sig, ts, p.sensors);
            Reconstruct(e, ts, cap) == if |text| <= cap then Some(text) else None
  {
    hide BodyText;
  }
}
