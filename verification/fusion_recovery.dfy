/** How a receiver gets back into step, and how it can stay out of step. */
module FusionRecovery {
  import opened Bytes
  import opened Commands
  import opened Packet
  import opened FusionText
  import opened FusionDiff
  import opened FusionTable
  import opened FusionRuns
  import opened FusionHistory
  import opened FusionLoss

  // ---- Resynchronisation -------------------------------------------------

  /** A key without an entry, as after a reset, is announced by a FULL packet. */
  lemma NewKeyIsFull(t: Table, s: Send)
    requires GoodTable(t) && ParseBody(s.body).Some?
    requires Lookup(t, s.aid, s.tid).None? && Place(t, s.aid, s.tid) < |t|
    ensures EncodeSend(t, s).cmd == DATA_FULL
  {
    hide ParseBody, Place, Claimed, Choose, Cached, WireBody, Framed, Lookup, Fitting;
    ClaimedFits(t, s.aid, s.tid, s.body);
    NonemptyBody(s.body);
    ChoiceFromFresh(t, s.aid, s.tid, ParseBody(s.body).value);
  }

  lemma HeldAfterStore(t: Table, aid: uint32, tid: byte, p: Parsed)
    requires Place(t, aid, tid) < |t| && Fitting(Claimed(t, aid, tid), p)
    ensures var t' := t[Place(t, aid, tid) := StoreFull(Claimed(t, aid, tid), p)];
            && Lookup(t', aid, tid).Some? && Holds(Lookup(t', aid, tid).value, p)
            && forall aid2: uint32, tid2: byte :: (aid2, tid2) != (aid, tid) ==>
                 Lookup(t', aid2, tid2) == Lookup(t, aid2, tid2)
  {
    hide Place, Claimed, Find, SensorsIn, ValidEntry, Fitting;
    var e := Claimed(t, aid, tid);
    StoreFullHolds(e, p);
    StoreFullSig(e, p);
    ClaimedMatches(t, aid, tid);
    StoreFullMatches(e, p, aid, tid);
    FoundAfterUpdate(t, aid, tid, StoreFull(e, p));
    forall aid2: uint32, tid2: byte | (aid2, tid2) != (aid, tid)
      ensures Lookup(t[Place(t, aid, tid) := StoreFull(e, p)], aid2, tid2) == Lookup(t, aid2, tid2)
    {
      OthersUntouched(t, aid, tid, StoreFull(e, p), aid2, tid2);
    }
  }

  lemma StoreFullMatches(e: FusionEntry, p: Parsed, aid: uint32, tid: byte)
    requires Fitting(e, p) && Matches(e, aid, tid)
    ensures Matches(StoreFull(e, p), aid, tid)
  {
  }

  /** Resynchronisation: whatever the two tables held before, one delivered FULL with a
      parsable body leaves the receiver's entry for the key with the structure and slots
      of the sender's, and every other key alone. It fails only on a full table. */
  lemma Resynchronised(tx: Table, rx: Table, s: Send, outCap: nat)
    requires GoodTable(tx) && ValidTable(rx) && ParseBody(s.body).Some?
    requires EncodeSend(tx, s).packet.Some? && EncodeSend(tx, s).cmd == DATA_FULL
    ensures var p := ParseBody(s.body).value;
            var sent := EncodeSend(tx, s);
            var rx' := Decode(rx, sent.packet.value, outCap).table;
            && Lookup(sent.table, s.aid, s.tid).Some? && Holds(Lookup(sent.table, s.aid, s.tid).value, p)
            && (Lookup(rx', s.aid, s.tid).Some? <==> Place(rx, s.aid, s.tid) < |rx|)
            && (Lookup(rx', s.aid, s.tid).Some? ==> Holds(Lookup(rx', s.aid, s.tid).value, p))
            && (forall aid: uint32, tid: byte :: (aid, tid) != (s.aid, s.tid) ==>
                  Lookup(rx', aid, tid) == Lookup(rx, aid, tid))
  {
    hide ParseBody, Place, Claimed, Choose, Cached, WireBody, Frame, DecodeMeta;
    hide BodyOf, ReceiveFull, Lookup, Holds, Fitting;
    var p, sent := ParseBody(s.body).value, EncodeSend(tx, s);
    EncodedEntry(tx, s);
    ClaimedFits(tx, s.aid, s.tid, s.body);
    ChoiceFacts(Claimed(tx, s.aid, s.tid), p, s.body);
    FrameDecodes(DATA_FULL, s.aid, s.tid, s.ts, s.body);
    var m := DecodeMeta(sent.packet.value).value;
    if Place(rx, s.aid, s.tid) < |rx| {
      LateFull(rx, m, s.body, outCap);
      ClaimedFits(rx, s.aid, s.tid, s.body);
      HeldAfterStore(rx, s.aid, s.tid, p);
    } else {
      FullTable(rx, m, s.body, outCap);
    }
  }

  lemma FullTable(rx: Table, m: Meta, body: Text, outCap: nat)
    requires ValidTable(rx) && Place(rx, m.aid, m.tid) == |rx|
    ensures ReceiveFull(rx, m, body, outCap).table == rx && Lookup(rx, m.aid, m.tid).None?
  {
    hide ParseBody, Find, FreeSlot;
  }

  // ---- A receiver without the entry --------------------------------------

  lemma QuietDecode(rx: Table, cmd: byte, s: Send, wire: Text, outCap: nat)
    requires ValidTable(rx) && Lookup(rx, s.aid, s.tid).None? && cmd != DATA_FULL
    ensures Decode(rx, Frame(cmd, s.aid, s.tid, s.ts, wire), outCap) == Got(rx, None, None)
  {
    hide Find, Frame, DecodeMeta, BodyOf, ReceiveFull, ReceiveDiff, ReceiveHeart;
    FrameDecodes(cmd, s.aid, s.tid, s.ts, wire);
  }

  /** A decode for one key gives no other key an entry. */
  lemma OtherKeysStayAbsent(rx: Table, cmd: byte, s: Send, wire: Text, outCap: nat, aid: uint32, tid: byte)
    requires ValidTable(rx) && (aid, tid) != (s.aid, s.tid)
    ensures Lookup(Decode(rx, Frame(cmd, s.aid, s.tid, s.ts, wire), outCap).table, aid, tid) == Lookup(rx, aid, tid)
  {
    hide ParseBody, Place, Claimed, Find, Frame, DecodeMeta, BodyOf, ReceiveFull, ReceiveDiff, ReceiveHeart, Lookup;
    FrameDecodes(cmd, s.aid, s.tid, s.ts, wire);
    var m := DecodeMeta(Frame(cmd, s.aid, s.tid, s.ts, wire)).value;
    var i := Find(rx, s.aid, s.tid);
    if cmd == DATA_FULL {
      FullForOther(rx, m, wire, outCap, aid, tid);
    } else if i < |rx| {
      FoundIsPlace(rx, s.aid, s.tid);
      DiffForKey(rx, i, m, wire, outCap);
      OthersUntouched(rx, s.aid, s.tid, ReceiveDiff(rx, i, m, wire, outCap).table[i], aid, tid);
      LateHeart(rx, i, m, outCap);
    }
  }

  lemma FoundIsPlace(t: Table, aid: uint32, tid: byte)
    requires Find(t, aid, tid) < |t|
    ensures Place(t, aid, tid) == Find(t, aid, tid) && Matches(t[Find(t, aid, tid)], aid, tid)
  {
  }

  lemma DiffForKey(rx: Table, i: nat, m: Meta, body: Text, outCap: nat)
    requires ValidTable(rx) && i < |rx| && Matches(rx[i], m.aid, m.tid)
    ensures var rx' := ReceiveDiff(rx, i, m, body, outCap).table;
            |rx'| == |rx| && Matches(rx'[i], m.aid, m.tid) && rx' == rx[i := rx'[i]]
  {
    hide ApplyDiff, Reconstruct;
  }

  lemma FullForOther(rx: Table, m: Meta, body: Text, outCap: nat, aid: uint32, tid: byte)
    requires ValidTable(rx) && (aid, tid) != (m.aid, m.tid)
    ensures Lookup(ReceiveFull(rx, m, body, outCap).table, aid, tid) == Lookup(rx, aid, tid)
  {
    hide ParseBody, Place, Claimed, StoreFull, Lookup;
    if ParseBody(body).Some? && Place(rx, m.aid, m.tid) < |rx| {
      ClaimedFits(rx, m.aid, m.tid, body);
      LateFull(rx, m, body, outCap);
      HeldAfterStore(rx, m.aid, m.tid, ParseBody(body).value);
    }
  }

  ghost predicate SameStructure(p: Parsed, q: Parsed) {
    CStr(p.sig) == q.sig && TagsOf(p.sensors) == TagsOf(q.sensors)
  }

  /** All further bodies for the key have the structure of p, or do not parse. */
  ghost predicate StructureStands(g: History, aid: uint32, tid: byte, p: Parsed) {
    forall k :: 0 <= k < |g| && (g[k].send.aid, g[k].send.tid) == (aid, tid) && ParseBody(g[k].send.body).Some? ==>
      SameStructure(p, ParseBody(g[k].send.body).value)
  }

  lemma {:induction false} StructureKept(h: History, g: History, aid: uint32, tid: byte, p: Parsed)
    requires LastEncoded(h, aid, tid) == Some(p) && StructureStands(g, aid, tid, p)
    ensures var q := LastEncoded(h + g, aid, tid);
            q.Some? && CStr(q.value.sig) == CStr(p.sig) && TagsOf(q.value.sensors) == TagsOf(p.sensors)
    decreases |g|
  {
    hide ParseBody, Place, TxAfter, TagsOf;
    if g == [] {
      assert h + g == h;
    } else {
      var front := g[..|g| - 1];
      StructureKept(h, front, aid, tid, p);
      assert (h + g)[..|h + g| - 1] == h + front;
      assert (h + g)[|h + g| - 1] == g[|g| - 1];
    }
  }

  /** No refresh: once the sender has cached a structure that the receiver never got, the
      receiver stays without an entry however long the run goes on with that structure,
      with every packet delivered. */
  lemma {:induction false} StrandedReceiver(h: History, g: History, aid: uint32, tid: byte, p: Parsed)
    requires LastEncoded(h, aid, tid) == Some(p) && StructureStands(g, aid, tid, p)
    requires Lookup(RxAfter(h), aid, tid).None?
    ensures Lookup(RxAfter(h + g), aid, tid).None?
    decreases |g|
  {
    hide ParseBody, Place, TagsOf, TxAfter, Encode, Decode, Lookup, LastEncoded;
    if g == [] {
      assert h + g == h;
    } else {
      var front, ev := g[..|g| - 1], g[|g| - 1];
      StrandedReceiver(h, front, aid, tid, p);
      StructureKept(h, front, aid, tid, p);
      assert (h + g)[..|h + g| - 1] == h + front;
      assert (h + g)[|h + g| - 1] == ev;
      StrandedStep(h + front, ev, aid, tid);
    }
  }

  lemma EncodeFrames(t: Table, s: Send)
    requires GoodTable(t) && EncodeSend(t, s).packet.Some?
    ensures exists wire: Text :: EncodeSend(t, s).packet.value == Frame(EncodeSend(t, s).cmd, s.aid, s.tid, s.ts, wire)
  {
    hide ParseBody, Place, Claimed, Choose, Cached, WireBody, Frame, Fitting;
    if ParseBody(s.body).Some? {
      ClaimedFits(t, s.aid, s.tid, s.body);
    }
  }

  lemma RoomWhenParsed(t: Table, s: Send)
    requires GoodTable(t) && EncodeSend(t, s).packet.Some? && ParseBody(s.body).Some?
    ensures Place(t, s.aid, s.tid) < MAX_ENTRIES
  {
    hide ParseBody, Place, Claimed, Choose, Cached, WireBody, Frame;
  }

  lemma StrandedStep(h: History, ev: Event, aid: uint32, tid: byte)
    requires Lookup(RxAfter(h), aid, tid).None? && LastEncoded(h, aid, tid).Some?
    requires (ev.send.aid, ev.send.tid) == (aid, tid) && ParseBody(ev.send.body).Some? ==>
               SameStructure(LastEncoded(h, aid, tid).value, ParseBody(ev.send.body).value)
    ensures Lookup(RxStep(RxAfter(h), EncodeSend(TxAfter(h), ev.send), ev), aid, tid).None?
  {
    hide ParseBody, Place, TagsOf, CStr, TxAfter, RxAfter, Encode, Decode, Lookup, LastEncoded, Frame;
    var t, s, rx := TxAfter(h), ev.send, RxAfter(h);
    var sent := EncodeSend(t, s);
    if ev.delivered && sent.packet.Some? {
      EncodeFrames(t, s);
      var wire: Text :| sent.packet.value == Frame(sent.cmd, s.aid, s.tid, s.ts, wire);
      if (s.aid, s.tid) != (aid, tid) {
        OtherKeysStayAbsent(rx, sent.cmd, s, wire, ev.outCap, aid, tid);
      } else if ParseBody(s.body).Some? {
        RoomWhenParsed(t, s);
        PacketKind(h, s);
        QuietDecode(rx, sent.cmd, s, wire, ev.outCap);
      } else {
        UnparsedReceived(t, rx, s, ev.outCap);
      }
    }
  }

  // ---- An encode that fails ----------------------------------------------

  lemma NewValuesDiffer(e: FusionEntry, p: Parsed)
    requires Fitting(e, p) && Free(e.sigBase, NUL) && Free(p.sig, NUL) && p.sig != []
    ensures Cached(e, p) == e <==> Choose(e, p) == Heart
  {
    hide StructChanged, SensorsIn, InBounds, SlotsOf, StoreFull;
    if Choose(e, p) != Heart && Cached(e, p) == e {
      CachedHoldsBody(e, p);
      StoreFullSig(e, p);
      HeldTags(e, p);
      StructKept(e, p);
    }
  }

  lemma StructKept(e: FusionEntry, p: Parsed)
    requires Holds(e, p) && Free(p.sig, NUL) && p.sig != [] && |p.sensors| <= |e.tagNames|
    ensures !StructChanged(e, p)
  {
    hide TagsOf, SensorsIn;
    HeldTags(e, p);
  }

  /** The header of the body, if it parses, is a C string. */
  predicate PlainSig(body: Text) {
    ParseBody(body).Some? ==> Free(ParseBody(body).value.sig, NUL)
  }

  /** A failed encode is not always without effect: unless there is a NUL in the header, the
      cache changes although no packet was produced exactly when a FULL or DIFF did not fit. */
  lemma FailedEncodeIff(t: Table, s: Send)
    requires GoodTable(t) && PlainSig(s.body)
    ensures EncodeSend(t, s).packet.None? && EncodeSend(t, s).table != t <==> CacheRunsAhead(t, s)
  {
    hide ParseBody, Place, Claimed, Choose, Cached, WireBody, Frame, Fitting;
    if ParseBody(s.body).Some? && Place(t, s.aid, s.tid) < |t| {
      var i, e, p := Place(t, s.aid, s.tid), Claimed(t, s.aid, s.tid), ParseBody(s.body).value;
      ClaimedFits(t, s.aid, s.tid, s.body);
      ClaimedGood(t, s.aid, s.tid);
      ParsedSigNonempty(s.body);
      NonemptyBody(s.body);
      NewValuesDiffer(e, p);
      ClaimIsEntry(t, s.aid, s.tid, e, p);
      assert t[i := Cached(e, p)][i] == Cached(e, p);
      assert Cached(e, p) == t[i] ==> t[i := Cached(e, p)] == t;
    }
  }

  lemma ParsedSigNonempty(body: Text)
    requires ParseBody(body).Some?
    ensures ParseBody(body).value.sig != []
  {
    hide First, Last, ParseSegments;
  }

  /** A claimed free slot differs from the entry it was; a found one is the entry. */
  lemma ClaimIsEntry(t: Table, aid: uint32, tid: byte, e: FusionEntry, p: Parsed)
    requires ValidTable(t) && Place(t, aid, tid) < |t| && e == Claimed(t, aid, tid) && Fitting(e, p)
    requires p.sig != []
    ensures e == t[Place(t, aid, tid)] || (Cached(e, p) != t[Place(t, aid, tid)] && Choose(e, p) == Full)
  {
    hide Find, FreeSlot, TagsOf, SlotsOf, InBounds;
  }

  lemma EmptyTableHasRoom(aid: uint32, tid: byte)
    ensures Lookup(EmptyTable(), aid, tid).None? && Place(EmptyTable(), aid, tid) < MAX_ENTRIES
  {
    hide Find;
    NothingYet(aid, tid);
    assert !EmptyTable()[0].used;
  }

  lemma SameBodyIsHeart(p: Parsed)
    requires Free(p.sig, NUL)
    ensures KindFor(Some(p), p) == Heart
  {
  }

  /** A FULL needs room for the body, a HEART only for the frame around it. */
  lemma FrameRoom(t: Table, s: Send)
    requires GoodTable(t) && ParseBody(s.body).Some? && Place(t, s.aid, s.tid) < |t|
    ensures EncodeSend(t, s).cmd == DATA_FULL ==> (EncodeSend(t, s).packet.Some? <==> s.cap >= |s.body| + OVERHEAD)
    ensures EncodeSend(t, s).cmd == DATA_HEART ==> (EncodeSend(t, s).packet.Some? <==> s.cap >= OVERHEAD)
    ensures EncodeSend(t, s).packet.Some? ==>
              exists wire: Text ::
                EncodeSend(t, s).packet.value == Frame(EncodeSend(t, s).cmd, s.aid, s.tid, s.ts, wire)
  {
    hide ParseBody, Place, Claimed, Choose, Cached, Frame, DiffBody, Fitting;
    ClaimedFits(t, s.aid, s.tid, s.body);
    NonemptyBody(s.body);
    ChoiceFacts(Claimed(t, s.aid, s.tid), ParseBody(s.body).value, s.body);
  }

  /** The condition of lockstep is exact: when every packet of a run is delivered, the two
      tables are equal after every step if and only if no send left the cache ahead. */
  lemma {:induction false} LockstepIff(h: History)
    requires forall k :: 0 <= k < |h| ==> h[k].delivered && PlainSig(h[k].send.body)
    ensures Faithful(h) <==> forall k :: 0 <= k <= |h| ==> RxAfter(h[..k]) == TxAfter(h[..k])
    decreases |h|
  {
    hide Encode, Decode, ParseBody, ValidTable, CacheRunsAhead, PlainSig, RxAfter, TxAfter;
    assert h[..|h|] == h;
    if h == [] {
      Lockstep(h);
    } else {
      var front, ev := h[..|h| - 1], h[|h| - 1];
      LockstepIff(front);
      assert forall k :: 0 <= k < |h| ==> h[..k] == front[..k];
      FailedEncodeIff(TxAfter(front), ev.send);
      if Faithful(h) {
        Lockstep(h);
      } else if Faithful(front) {
        assert front[..|front|] == front && front + [ev] == h;
        AheadIsUnequal(front, ev);
        assert RxAfter(h[..|h|]) != TxAfter(h[..|h|]);
      }
    }
  }

  lemma AheadIsUnequal(front: History, ev: Event)
    requires RxAfter(front) == TxAfter(front) && ev.delivered && PlainSig(ev.send.body)
    requires CacheRunsAhead(TxAfter(front), ev.send)
    ensures RxAfter(front + [ev]) != TxAfter(front + [ev])
  {
    hide Encode, Decode, ParseBody, ValidTable, CacheRunsAhead, PlainSig;
    FailedEncodeIff(TxAfter(front), ev.send);
    assert (front + [ev])[..|front|] == front;
  }

  /** A refused FULL strands a pair: encoding a body without room and then again with
      room sends a HEART, which a receiver that starts empty cannot use. */
  lemma RefusedFullStrands(s: Send, again: Send, outCap: nat)
    requires ParseBody(s.body).Some? && PlainSig(s.body)
    requires again.body == s.body && again.aid == s.aid && again.tid == s.tid
    requires s.cap < |s.body| + OVERHEAD && again.cap >= OVERHEAD
    ensures var h := [Event(s, true, outCap)];
            && EncodeSend(TxAfter([]), s).packet.None?
            && EncodeSend(TxAfter(h), again).cmd == DATA_HEART
            && EncodeSend(TxAfter(h), again).packet.Some?
            && Decode(RxAfter(h), EncodeSend(TxAfter(h), again).packet.value, outCap) == Got(RxAfter(h), None, None)
  {
    hide ParseBody, Place, Encode, Decode, Lookup, Frame, KindFor, EmptyTable;
    var h, p := [Event(s, true, outCap)], ParseBody(s.body).value;
    assert h[..0] == [];
    EmptyTableHasRoom(s.aid, s.tid);
    PacketKind([], s);
    KindForNone(p);
    FrameRoom(TxAfter([]), s);
    assert LastEncoded(h, s.aid, s.tid) == Some(p);
    CacheIsLastBody(h, s.aid, s.tid);
    PlaceOfFound(TxAfter(h), s.aid, s.tid);
    PacketKind(h, again);
    SameBodyIsHeart(p);
    FrameRoom(TxAfter(h), again);
    var second := EncodeSend(TxAfter(h), again);
    var wire: Text :| second.packet.value == Frame(second.cmd, again.aid, again.tid, again.ts, wire);
    assert RxAfter([]) == EmptyTable() && RxAfter(h) == RxAfter([]);
    QuietDecode(RxAfter(h), second.cmd, again, wire, outCap);
  }

  lemma PlaceOfFound(t: Table, aid: uint32, tid: byte)
    requires Lookup(t, aid, tid).Some?
    ensures Place(t, aid, tid) < |t|
  {
  }
}
