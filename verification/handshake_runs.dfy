/** What the handshake keeps over any sequence of packets, local sends and cleanups. */
module HandshakeRuns {
  import opened Bytes
  import opened Numerals
  import opened Commands
  import opened Dispatch
  import P = Packet
  import S = SecureSession
  import A = IdAllocator

  // ---- What one packet means ---------------------------------------------

  /** A data packet that gets past framing: the only kind that reads a timestamp. */
  predicate IsDataPacket(packet: Text) {
    packet != [] && IsData(Normalize(packet[0])) && P.DecodeMeta(packet).Some? && P.DecodeMeta(packet).value.crc16Ok
  }

  predicate IsDictPacket(packet: Text) {
    |packet| == 13 && packet[0] == SECURE_DICT_READY
  }

  predicate IsAckPacket(packet: Text) {
    |packet| == 5 && packet[0] == SECURE_CHANNEL_ACK
  }

  /** The aid whose session a packet may change. */
  function Subject(packet: Text): Option<uint32> {
    if IsDataPacket(packet) then Some(P.DecodeMeta(packet).value.aid)
    else if IsDictPacket(packet) || IsAckPacket(packet) then Some(AidField(packet))
    else None
  }

  /** The replies, recognised on the wire. */
  predicate DictReplyTo(r: Result, aid: uint32) {
    r.response.Some? && IsDictPacket(r.response.value) && AidField(r.response.value) == aid
  }

  predicate AckReplyTo(r: Result, aid: uint32) {
    r.response.Some? && IsAckPacket(r.response.value) && AidField(r.response.value) == aid
  }

  lemma RepliesRead(aid: uint32, ts: uint64)
    ensures IsDictPacket(DictReady(aid, ts)) && AidField(DictReady(aid, ts)) == aid && TsField(DictReady(aid, ts)) == ts
    ensures IsAckPacket(ChannelAck(aid)) && AidField(ChannelAck(aid)) == aid
  {
    hide BE, FromBE;
    DictReadyFields(aid, ts);
  }

  // ---- The store as the dispatcher changes it ----------------------------

  /** The store after a packet: the only calls are Check, Confirm and Mark. */
  function StoreStep(st: S.Store, now: uint64, packet: Text): S.Store {
    if IsDataPacket(packet) then DataStep(st, now, P.DecodeMeta(packet).value).0
    else if IsDictPacket(packet) then S.Confirm(st, AidField(packet), TsField(packet), now)
    else if IsAckPacket(packet) then S.Mark(st, AidField(packet), now)
    else st
  }

  lemma DispatchedStore(w: World, now: uint64, packet: Text)
    requires w.store.Some?
    ensures Dispatched(w, now, packet).0.store == Some(StoreStep(w.store.value, now, packet))
    ensures IsDataPacket(packet) ==>
              Dispatched(w, now, packet).1 == DataStep(w.store.value, now, P.DecodeMeta(packet).value).1
    ensures !IsDataPacket(packet) ==>
              var r := Dispatched(w, now, packet).1;
              (r.kind == Data ==> !r.ok) && forall aid: uint32 :: !DictReplyTo(r, aid) && !AckReplyTo(r, aid)
  {
    hide DataStep, P.DecodeMeta, A.Allocated, S.Confirm, S.Mark, AidField, TsField, BE;
  }

  // ---- One session as a machine of its own -------------------------------

  /** A data packet as the session of its aid sees it. */
  function DataSession(s: S.Session, now: uint64, m: P.Meta): (S.Session, Result) {
    var r := Result(Data, m.cmd, Normalize(m.cmd), m.aid, true, NoReject, None);
    var s1 := S.Stamped(s, m.ts, now);
    match S.Verdict(s, m.ts)
    case Replay => (s1, Refused(r, Replayed))
    case OutOfOrder => (s1, Refused(r, Late))
    case Accept =>
      if !Masked(m.cmd) then
        if s.dictReady && s.keySet then (s1, r)
        else (S.Confirmed(s1, m.ts, now), r.(response := Some(DictReady(m.aid, m.ts))))
      else if !(s.dictReady && s.keySet) then (s1, Refused(r, NoSession))
      else if s.decryptConfirmed then (s1, r)
      else (S.Marked(s1, now), r.(response := Some(ChannelAck(m.aid))))
  }

  /** Any packet as the session of its subject sees it. */
  function Advance(s: S.Session, now: uint64, packet: Text): S.Session {
    if IsDataPacket(packet) then DataSession(s, now, P.DecodeMeta(packet).value).0
    else if IsDictPacket(packet) then S.Confirmed(s, TsField(packet), now)
    else if IsAckPacket(packet) then S.Marked(s, now)
    else s
  }

  lemma DataStepSession(st: S.Store, now: uint64, m: P.Meta, other: uint32)
    ensures var (st', r) := DataStep(st, now, m);
            && S.Lookup(st', other) ==
               (if other == m.aid && S.HasRoom(st, other) then Some(DataSession(S.SessionOf(st, other), now, m).0)
                else S.Lookup(st, other))
            && r == (if S.HasRoom(st, m.aid) then DataSession(S.SessionOf(st, m.aid), now, m).1
                     else Refused(Result(Data, m.cmd, Normalize(m.cmd), m.aid, true, NoReject, None), Late))
  {
    hide S.Place, S.Put, S.Lookup, S.Noted, S.Confirmed, S.Marked, S.Cleared, BE, Masked;
    var aid := m.aid;
    var st1 := S.Check(st, aid, m.ts, now).0;
    S.ApplyLookup(st, S.CheckOp(aid, m.ts, now), other);
    S.ApplyLookup(st, S.CheckOp(aid, m.ts, now), aid);
    S.ApplyLookup(st1, S.ConfirmOp(aid, m.ts, now), other);
    S.ApplyLookup(st1, S.MarkOp(aid, now), other);
    if S.HasRoom(st, aid) {
      S.ClaimedIs(st, aid);
    }
  }

  /** The store is a bank of independent sessions: a packet moves the session of its subject
      by Advance, if there is room for it, and leaves every other aid's session alone. */
  lemma StoreIsPerAid(st: S.Store, now: uint64, packet: Text, aid: uint32)
    ensures S.Lookup(StoreStep(st, now, packet), aid) ==
            if Subject(packet) == Some(aid) && S.HasRoom(st, aid) then Some(Advance(S.SessionOf(st, aid), now, packet))
            else S.Lookup(st, aid)
  {
    hide S.Place, S.Put, S.Lookup, S.Noted, S.Confirmed, S.Marked, S.Cleared, BE;
    hide DataStep, P.DecodeMeta, AidField, TsField;
    if IsDataPacket(packet) {
      DataStepSession(st, now, P.DecodeMeta(packet).value, aid);
    } else if IsDictPacket(packet) {
      S.ApplyLookup(st, S.ConfirmOp(AidField(packet), TsField(packet), now), aid);
    } else if IsAckPacket(packet) {
      S.ApplyLookup(st, S.MarkOp(AidField(packet), now), aid);
    }
  }

  // ---- Runs --------------------------------------------------------------

  datatype Event =
    | Deliver(packet: Text, now: uint64)
    | SendPlaintext(aid: uint32, ts: uint64, sentAt: uint64)
    | Expire(at: uint64, after: uint64)

  function Next(w: World, e: Event): (w': World)
    requires w.store.Some?
    ensures w'.store.Some?
  {
    match e
    case Deliver(packet, now) =>
      DispatchedStore(w, now, packet);
      Dispatched(w, now, packet).0
    case SendPlaintext(aid, ts, at) => w.(store := Some(S.Note(w.store.value, aid, ts, at)))
    case Expire(at, after) => w.(store := Some(S.Cleanup(w.store.value, at, after)))
  }

  /** The node before event k. */
  function At(w: World, es: seq<Event>, k: nat): (w': World)
    requires w.store.Some? && k <= |es|
    ensures w'.store.Some?
  {
    if k == 0 then w else Next(At(w, es, k - 1), es[k - 1])
  }

  function StoreAt(w: World, es: seq<Event>, k: nat): S.Store
    requires w.store.Some? && k <= |es|
  {
    At(w, es, k).store.value
  }

  /** The session of an aid before event k. */
  function SessionAt(w: World, es: seq<Event>, k: nat, aid: uint32): Option<S.Session>
    requires w.store.Some? && k <= |es|
  {
    S.Lookup(StoreAt(w, es, k), aid)
  }

  /** What the dispatcher answers to the packet of event k. */
  function ResultAt(w: World, es: seq<Event>, k: nat): Result
    requires w.store.Some? && k < |es| && es[k].Deliver?
  {
    Dispatched(At(w, es, k), es[k].now, es[k].packet).1
  }

  /** No cleanup takes the session away between events i and j. */
  ghost predicate Kept(w: World, es: seq<Event>, aid: uint32, i: nat, j: nat)
    requires w.store.Some? && j <= |es|
  {
    forall k :: i <= k <= j ==> SessionAt(w, es, k, aid).Some?
  }

  function StoreNext(st: S.Store, e: Event): S.Store {
    match e
    case Deliver(packet, now) => StoreStep(st, now, packet)
    case SendPlaintext(aid, ts, at) => S.Note(st, aid, ts, at)
    case Expire(at, after) => S.Cleanup(st, at, after)
  }

  lemma NextStore(w: World, e: Event)
    requires w.store.Some?
    ensures Next(w, e).store.value == StoreNext(w.store.value, e)
  {
    hide Dispatched, StoreStep;
    if e.Deliver? {
      DispatchedStore(w, e.now, e.packet);
    }
  }

  lemma StoreNextSound(st: S.Store, e: Event)
    requires S.SoundStore(st)
    ensures S.SoundStore(StoreNext(st, e))
  {
    hide S.SoundStore, P.DecodeMeta, AidField, TsField, S.Lookup;
    match e
    case Deliver(packet, now) =>
      if IsDataPacket(packet) {
        DataStepSound(st, now, P.DecodeMeta(packet).value);
      } else if IsDictPacket(packet) {
        S.ApplyKeepsSound(st, S.ConfirmOp(AidField(packet), TsField(packet), now));
      } else if IsAckPacket(packet) {
        S.ApplyKeepsSound(st, S.MarkOp(AidField(packet), now));
      }
    case SendPlaintext(aid, ts, at) => S.ApplyKeepsSound(st, S.NoteOp(aid, ts, at));
    case Expire(at, after) => S.ApplyKeepsSound(st, S.CleanupOp(at, after));
  }

  lemma DataStepSound(st: S.Store, now: uint64, m: P.Meta)
    requires S.SoundStore(st)
    ensures S.SoundStore(DataStep(st, now, m).0)
  {
    hide S.SoundStore, S.Lookup, S.Place, S.Put, S.Claimed, BE;
    var st1 := S.Check(st, m.aid, m.ts, now).0;
    S.ApplyKeepsSound(st, S.CheckOp(m.aid, m.ts, now));
    S.ApplyKeepsSound(st1, S.ConfirmOp(m.aid, m.ts, now));
    S.ApplyKeepsSound(st1, S.MarkOp(m.aid, now));
  }

  /** The store invariant holds at every moment of every run. */
  lemma {:induction false} RunKeepsSound(w: World, es: seq<Event>, k: nat)
    requires w.store.Some? && k <= |es| && S.SoundStore(w.store.value)
    ensures S.SoundStore(StoreAt(w, es, k))
  {
    hide S.SoundStore, Next, StoreNext;
    if k > 0 {
      RunKeepsSound(w, es, k - 1);
      NextStore(At(w, es, k - 1), es[k - 1]);
      StoreNextSound(StoreAt(w, es, k - 1), es[k - 1]);
    }
  }

  // ---- What a session keeps while it lives -------------------------------

  /** Flags are never lowered and the replay mark never goes back. */
  predicate Grown(a: S.Session, b: S.Session) {
    && (a.keySet ==> b.keySet) && (a.dictReady ==> b.dictReady)
    && (a.decryptConfirmed ==> b.decryptConfirmed)
    && a.lastDataTs <= b.lastDataTs
  }

  /** The pending key, once set, and a key copied from it stay as they are. */
  predicate SameKeys(a: S.Session, b: S.Session) {
    && (a.pendingKeySet ==> b.pendingKeySet && b.pendingTs == a.pendingTs && b.pendingKey == a.pendingKey)
    && (a.keySet && a.key == a.pendingKey && a.pendingKeySet ==> b.keySet && b.key == a.key)
  }

  lemma AdvanceGrows(s: S.Session, now: uint64, packet: Text)
    ensures Grown(s, Advance(s, now, packet)) && SameKeys(s, Advance(s, now, packet))
  {
    hide P.DecodeMeta, AidField, TsField, S.DeriveKey, DataSession;
    if IsDataPacket(packet) {
      DataSessionGrows(s, now, P.DecodeMeta(packet).value);
    }
  }

  lemma DataSessionGrows(s: S.Session, now: uint64, m: P.Meta)
    ensures Grown(s, DataSession(s, now, m).0) && SameKeys(s, DataSession(s, now, m).0)
  {
    hide S.DeriveKey, BE, Masked, Normalize, ChannelAck, DictReady, Refused;
  }

  /** One event: a session that is still there has grown, and only a local plaintext send
      for its aid can replace its pending key. */
  lemma EventGrows(st: S.Store, e: Event, aid: uint32)
    requires S.SoundStore(st)
    requires S.Lookup(st, aid).Some? && S.Lookup(StoreNext(st, e), aid).Some?
    ensures Grown(S.Lookup(st, aid).value, S.Lookup(StoreNext(st, e), aid).value)
    ensures !(e.SendPlaintext? && e.aid == aid) ==>
              SameKeys(S.Lookup(st, aid).value, S.Lookup(StoreNext(st, e), aid).value)
  {
    hide S.SoundStore, S.Lookup, S.Place, StoreStep, Advance, S.DeriveKey, Subject;
    match e
    case Deliver(packet, now) =>
      StoreIsPerAid(st, now, packet, aid);
      AdvanceGrows(S.SessionOf(st, aid), now, packet);
    case SendPlaintext(b, ts, at) => S.ApplyLookup(st, S.NoteOp(b, ts, at), aid);
    case Expire(at, after) => S.CleanupLookup(st, at, after, aid);
  }

  lemma {:induction false} KeptGrows(w: World, es: seq<Event>, aid: uint32, i: nat, j: nat)
    requires w.store.Some? && i <= j <= |es| && S.SoundStore(w.store.value) && Kept(w, es, aid, i, j)
    ensures Grown(SessionAt(w, es, i, aid).value, SessionAt(w, es, j, aid).value)
    decreases j
  {
    hide S.SoundStore, S.Lookup, Next, StoreNext;
    if i < j {
      assert SessionAt(w, es, j - 1, aid).Some? && SessionAt(w, es, j, aid).Some?;
      KeptGrows(w, es, aid, i, j - 1);
      RunKeepsSound(w, es, j - 1);
      NextStore(At(w, es, j - 1), es[j - 1]);
      EventGrows(StoreAt(w, es, j - 1), es[j - 1], aid);
    }
  }

  // ---- Replies -----------------------------------------------------------

  /** A packet answered with SECURE_DICT_READY found the session without a key and left it
      with one; a packet answered with SECURE_CHANNEL_ACK found the channel unconfirmed and
      left it confirmed. */
  lemma ReplyMeans(w: World, now: uint64, packet: Text, aid: uint32)
    requires w.store.Some?
    ensures var s, s' := S.SessionOf(w.store.value, aid), S.Lookup(StoreStep(w.store.value, now, packet), aid);
            var r := Dispatched(w, now, packet).1;
            && (DictReplyTo(r, aid) ==> s'.Some? && !(s.dictReady && s.keySet) && s'.value.dictReady && s'.value.keySet)
            && (AckReplyTo(r, aid) ==> s'.Some? && !s.decryptConfirmed && s'.value.decryptConfirmed)
  {
    hide S.Lookup, S.Place, P.DecodeMeta, S.DeriveKey, DataStep, DataSession, AidField, S.SessionOf;
    DispatchedStore(w, now, packet);
    if IsDataPacket(packet) {
      var m := P.DecodeMeta(packet).value;
      DataStepSession(w.store.value, now, m, aid);
      DataStepSession(w.store.value, now, m, m.aid);
      DataReplyMeans(S.SessionOf(w.store.value, m.aid), now, m, aid);
    }
  }

  lemma DataReplyMeans(s: S.Session, now: uint64, m: P.Meta, aid: uint32)
    ensures var (s', r) := DataSession(s, now, m);
            && (DictReplyTo(r, aid) ==> aid == m.aid && !(s.dictReady && s.keySet) && s'.dictReady && s'.keySet)
            && (AckReplyTo(r, aid) ==> aid == m.aid && !s.decryptConfirmed && s'.decryptConfirmed)
  {
    hide S.DeriveKey, AidField, ChannelAck, DictReady, Masked, Normalize;
    RepliesRead(m.aid, m.ts);
  }

  /** Over any run, an aid gets at most one SECURE_DICT_READY and at most one
      SECURE_CHANNEL_ACK while its session lasts. */
  lemma AtMostOneReply(w: World, es: seq<Event>, aid: uint32, i: nat, j: nat)
    requires w.store.Some? && S.SoundStore(w.store.value)
    requires i < j < |es| && es[i].Deliver? && es[j].Deliver? && Kept(w, es, aid, i + 1, j)
    ensures !(DictReplyTo(ResultAt(w, es, i), aid) && DictReplyTo(ResultAt(w, es, j), aid))
    ensures !(AckReplyTo(ResultAt(w, es, i), aid) && AckReplyTo(ResultAt(w, es, j), aid))
  {
    hide S.SoundStore, S.Lookup, Next, StoreStep, DictReplyTo, AckReplyTo, Dispatched;
    ReplyMeans(At(w, es, i), es[i].now, es[i].packet, aid);
    ReplyMeans(At(w, es, j), es[j].now, es[j].packet, aid);
    NextStore(At(w, es, i), es[i]);
    assert SessionAt(w, es, i + 1, aid).Some?;
    assert SessionAt(w, es, j, aid).Some?;
    KeptGrows(w, es, aid, i + 1, j);
  }

  /** Without cleanups no session is ever lost, so the bound is for the whole run. */
  lemma {:induction false} OneReplyPerAid(w: World, es: seq<Event>, aid: uint32, i: nat, j: nat)
    requires w.store.Some? && S.SoundStore(w.store.value) && forall k :: 0 <= k < |es| ==> !es[k].Expire?
    requires i < j < |es| && es[i].Deliver? && es[j].Deliver?
    ensures !(DictReplyTo(ResultAt(w, es, i), aid) && DictReplyTo(ResultAt(w, es, j), aid))
    ensures !(AckReplyTo(ResultAt(w, es, i), aid) && AckReplyTo(ResultAt(w, es, j), aid))
  {
    hide S.SoundStore, S.Lookup, Next, StoreStep, DictReplyTo, AckReplyTo, Dispatched, ResultAt;
    if DictReplyTo(ResultAt(w, es, i), aid) || AckReplyTo(ResultAt(w, es, i), aid) {
      RepliedIsThere(w, es, aid, i);
      forall k | i + 1 <= k <= j ensures SessionAt(w, es, k, aid).Some? {
        NeverLost(w, es, aid, i + 1, k);
      }
      AtMostOneReply(w, es, aid, i, j);
    }
  }

  lemma RepliedIsThere(w: World, es: seq<Event>, aid: uint32, i: nat)
    requires w.store.Some? && i < |es| && es[i].Deliver?
    requires DictReplyTo(ResultAt(w, es, i), aid) || AckReplyTo(ResultAt(w, es, i), aid)
    ensures SessionAt(w, es, i + 1, aid).Some?
  {
    hide S.SoundStore, S.Lookup, Next, StoreStep, DictReplyTo, AckReplyTo, Dispatched;
    ReplyMeans(At(w, es, i), es[i].now, es[i].packet, aid);
    NextStore(At(w, es, i), es[i]);
  }

  lemma {:induction false} NeverLost(w: World, es: seq<Event>, aid: uint32, i: nat, j: nat)
    requires w.store.Some? && i <= j <= |es| && forall k :: i <= k < j ==> !es[k].Expire?
    requires SessionAt(w, es, i, aid).Some?
    ensures SessionAt(w, es, j, aid).Some?
    decreases j
  {
    hide S.Lookup, Next, S.Place, StoreStep, Subject, Advance;
    if i < j {
      NeverLost(w, es, aid, i, j - 1);
      var st, e := StoreAt(w, es, j - 1), es[j - 1];
      NextStore(At(w, es, j - 1), e);
      match e
      case Deliver(packet, now) => StoreIsPerAid(st, now, packet, aid);
      case SendPlaintext(b, ts, at) => S.ApplyLookup(st, S.NoteOp(b, ts, at), aid);
    }
  }

  // ---- Replay protection -------------------------------------------------

  /** Event k delivers a data packet of the aid and it is accepted. */
  predicate AcceptedAt(w: World, es: seq<Event>, k: nat, aid: uint32)
    requires w.store.Some? && k < |es|
  {
    && es[k].Deliver? && IsDataPacket(es[k].packet) && P.DecodeMeta(es[k].packet).value.aid == aid
    && ResultAt(w, es, k).ok
  }

  function TsAt(es: seq<Event>, k: nat): uint64
    requires k < |es| && es[k].Deliver? && IsDataPacket(es[k].packet)
  {
    P.DecodeMeta(es[k].packet).value.ts
  }

  /** An accepted data packet is newer than the mark, unless there is none yet, and becomes it. */
  lemma AcceptMeans(w: World, now: uint64, packet: Text)
    requires w.store.Some? && IsDataPacket(packet) && Dispatched(w, now, packet).1.ok
    ensures var m := P.DecodeMeta(packet).value;
            var s, s' := S.SessionOf(w.store.value, m.aid), S.Lookup(StoreStep(w.store.value, now, packet), m.aid);
            && (s.lastDataTs == 0 || s.lastDataTs < m.ts)
            && s'.Some? && s'.value.lastDataTs == m.ts && s'.value.dictReady && s'.value.keySet
            && (Masked(m.cmd) ==> s.dictReady && s.keySet && s'.value.decryptConfirmed)
  {
    hide S.Lookup, S.Place, P.DecodeMeta, S.DeriveKey, DataStep, Masked, Normalize, S.SessionOf, BE;
    DispatchedStore(w, now, packet);
    var m := P.DecodeMeta(packet).value;
    DataStepSession(w.store.value, now, m, m.aid);
  }

  /** Replay protection: while an aid's session lasts, everything accepted after a packet with
      a nonzero timestamp is strictly newer. */
  lemma TimestampsIncrease(w: World, es: seq<Event>, aid: uint32, i: nat, j: nat)
    requires w.store.Some? && S.SoundStore(w.store.value) && i < j < |es| && Kept(w, es, aid, i + 1, j)
    requires AcceptedAt(w, es, i, aid) && AcceptedAt(w, es, j, aid) && TsAt(es, i) != 0
    ensures TsAt(es, i) < TsAt(es, j)
  {
    hide S.SoundStore, S.Lookup, Next, StoreStep, IsDataPacket, P.DecodeMeta, Dispatched;
    AcceptMeans(At(w, es, i), es[i].now, es[i].packet);
    AcceptMeans(At(w, es, j), es[j].now, es[j].packet);
    NextStore(At(w, es, i), es[i]);
    assert SessionAt(w, es, i + 1, aid).Some?;
    assert SessionAt(w, es, j, aid).Some?;
    KeptGrows(w, es, aid, i + 1, j);
  }

  /** Without cleanups no session is ever lost, so the order holds for the whole run. */
  lemma TimestampsIncreaseThroughout(w: World, es: seq<Event>, aid: uint32, i: nat, j: nat)
    requires w.store.Some? && S.SoundStore(w.store.value) && forall k :: 0 <= k < |es| ==> !es[k].Expire?
    requires i < j < |es| && AcceptedAt(w, es, i, aid) && AcceptedAt(w, es, j, aid) && TsAt(es, i) != 0
    ensures TsAt(es, i) < TsAt(es, j)
  {
    hide S.SoundStore, S.Lookup, Next, StoreStep, IsDataPacket, P.DecodeMeta, Dispatched;
    AcceptMeans(At(w, es, i), es[i].now, es[i].packet);
    NextStore(At(w, es, i), es[i]);
    forall k | i + 1 <= k <= j ensures SessionAt(w, es, k, aid).Some? {
      NeverLost(w, es, aid, i + 1, k);
    }
    TimestampsIncrease(w, es, aid, i, j);
  }

  /** Why the session must last: once a cleanup has dropped it, the very packet that was
      accepted before is accepted again if and only if it is a plaintext one. */
  lemma ExpiredReplayAcceptedIff(w: World, packet: Text, now: uint64, at: uint64, after: uint64, later: uint64)
    requires w.store.Some? && S.SoundStore(w.store.value) && IsDataPacket(packet)
    requires Dispatched(w, now, packet).1.ok
    requires var m, st := P.DecodeMeta(packet).value, StoreStep(w.store.value, now, packet);
             S.Lookup(st, m.aid).Some? && S.Expired(S.Lookup(st, m.aid).value, at, after)
    ensures var w' := Next(Next(w, Deliver(packet, now)), Expire(at, after));
            Dispatched(w', later, packet).1.ok <==> !Masked(P.DecodeMeta(packet).value.cmd)
  {
    hide S.SoundStore, S.Lookup, S.Place, P.DecodeMeta, S.DeriveKey, DataStep, Masked, Normalize;
    hide BE, StoreStep, Dispatched;
    hide S.Expired;
    var m, e := P.DecodeMeta(packet).value, Deliver(packet, now);
    var st, st' := StoreNext(w.store.value, e), StoreNext(StoreNext(w.store.value, e), Expire(at, after));
    var w' := Next(Next(w, e), Expire(at, after));
    NextStore(w, e);
    NextStore(Next(w, e), Expire(at, after));
    StoreNextSound(w.store.value, e);
    S.CleanupLookup(st, at, after, m.aid);
    S.DroppedLeavesRoom(st, at, after, m.aid);
    DispatchedStore(w', later, packet);
    DataStepSession(st', later, m, m.aid);
    BlankSession(st', later, m);
  }

  lemma BlankSession(st: S.Store, now: uint64, m: P.Meta)
    requires S.Lookup(st, m.aid).None?
    ensures DataSession(S.SessionOf(st, m.aid), now, m).1.ok <==> !Masked(m.cmd)
  {
    hide S.Lookup, S.DeriveKey, Masked, BE;
  }

  /** The limit of that protection: an accepted packet delivered again at once is accepted
      again exactly when its timestamp is zero. */
  lemma ReplayAcceptedIff(w: World, packet: Text, now: uint64, later: uint64)
    requires w.store.Some? && IsDataPacket(packet) && Dispatched(w, now, packet).1.ok
    ensures var w' := Dispatched(w, now, packet).0;
            Dispatched(w', later, packet).1.ok <==> P.DecodeMeta(packet).value.ts == 0
  {
    hide S.Lookup, S.Place, P.DecodeMeta, S.DeriveKey, DataStep, Masked, Normalize, BE, StoreStep, Dispatched;
    var w' := Dispatched(w, now, packet).0;
    var m := P.DecodeMeta(packet).value;
    AcceptMeans(w, now, packet);
    DispatchedStore(w, now, packet);
    DispatchedStore(w', later, packet);
    DataStepSession(w'.store.value, later, m, m.aid);
    S.FoundHasPlace(w'.store.value, m.aid);
  }

  // ---- Dictionaries and keys ---------------------------------------------

  predicate Ready(s: Option<S.Session>) {
    s.Some? && s.value.dictReady && s.value.keySet
  }

  /** Event k confirms the dictionary of the aid: it receives a SECURE_DICT_READY for it, or a
      plaintext packet that is answered with one. */
  predicate ConfirmsDict(w: World, es: seq<Event>, k: nat, aid: uint32)
    requires w.store.Some? && k < |es|
  {
    es[k].Deliver? &&
    (DictReplyTo(ResultAt(w, es, k), aid) || (IsDictPacket(es[k].packet) && AidField(es[k].packet) == aid))
  }

  lemma BecomesReady(w: World, now: uint64, packet: Text, aid: uint32)
    requires w.store.Some?
    requires !Ready(S.Lookup(w.store.value, aid)) && Ready(S.Lookup(StoreStep(w.store.value, now, packet), aid))
    ensures DictReplyTo(Dispatched(w, now, packet).1, aid) || (IsDictPacket(packet) && AidField(packet) == aid)
  {
    hide S.Lookup, S.Place, P.DecodeMeta, S.DeriveKey, DataStep, DataSession, AidField, StoreStep, Dispatched, TsField;
    var st := w.store.value;
    StoreIsPerAid(st, now, packet, aid);
    DispatchedStore(w, now, packet);
    if IsDataPacket(packet) {
      var m := P.DecodeMeta(packet).value;
      DataStepSession(st, now, m, aid);
      DataBecomesReady(S.SessionOf(st, aid), now, m);
    }
  }

  lemma DataBecomesReady(s: S.Session, now: uint64, m: P.Meta)
    requires !(s.dictReady && s.keySet)
    ensures var (s', r) := DataSession(s, now, m);
            (s'.dictReady && s'.keySet) ==> DictReplyTo(r, m.aid)
  {
    hide S.DeriveKey, AidField, ChannelAck, DictReady, Masked, Normalize;
    RepliesRead(m.aid, m.ts);
  }

  lemma {:induction false} ReadyWasConfirmed(w: World, es: seq<Event>, aid: uint32, k: nat) returns (i: nat)
    requires w.store.Some? && k <= |es| && S.SoundStore(w.store.value)
    requires !Ready(S.Lookup(w.store.value, aid)) && Ready(SessionAt(w, es, k, aid))
    ensures i < k && ConfirmsDict(w, es, i, aid)
    decreases k
  {
    hide S.SoundStore, S.Lookup, Next, S.Place, StoreStep, Dispatched, DictReplyTo, S.DeriveKey;
    var before := SessionAt(w, es, k - 1, aid);
    if Ready(before) {
      i := ReadyWasConfirmed(w, es, aid, k - 1);
    } else {
      i := k - 1;
      var st, e := StoreAt(w, es, i), es[i];
      NextStore(At(w, es, i), e);
      RunKeepsSound(w, es, i);
      match e
      case Deliver(packet, now) => BecomesReady(At(w, es, i), now, packet, aid);
      case SendPlaintext(b, ts, at) => S.ApplyLookup(st, S.NoteOp(b, ts, at), aid);
      case Expire(at, after) => S.CleanupLookup(st, at, after, aid);
    }
  }

  /** No secure data packet is accepted before some dictionary confirmation for its aid. */
  lemma SecureNeedsDictionary(w: World, es: seq<Event>, aid: uint32, j: nat)
    requires w.store == Some(S.EmptyStore()) && j < |es| && AcceptedAt(w, es, j, aid)
    requires Masked(es[j].packet[0])
    ensures exists i: nat :: i < j && ConfirmsDict(w, es, i, aid)
  {
    hide S.Lookup, StoreStep, Dispatched, DictReplyTo, S.DeriveKey, P.DecodeMeta, Masked;
    AcceptMeans(At(w, es, j), es[j].now, es[j].packet);
    MetaCmd(es[j].packet);
    EmptyIsSound(aid);
    var i := ReadyWasConfirmed(w, es, aid, j);
  }

  lemma MetaCmd(packet: Text)
    requires IsDataPacket(packet)
    ensures P.DecodeMeta(packet).value.cmd == packet[0]
  {
  }

  lemma EmptyIsSound(aid: uint32)
    ensures S.SoundStore(S.EmptyStore()) && S.Lookup(S.EmptyStore(), aid).None?
  {
    hide S.SoundSession;
  }

  lemma LookupSound(st: S.Store, aid: uint32)
    requires S.SoundStore(st) && S.Lookup(st, aid).Some?
    ensures S.SoundSession(S.Lookup(st, aid).value)
  {
    hide S.SoundSession, S.Find;
  }

  // ---- Address requests over a run ---------------------------------------

  predicate IsIdRequest(packet: Text) {
    |packet| >= 3 && packet[0] == ID_REQUEST
  }

  /** Event k is an address request answered with ID_ASSIGN for the aid. */
  predicate AssignedAt(w: World, es: seq<Event>, k: nat, aid: uint32)
    requires w.store.Some? && k < |es|
  {
    && es[k].Deliver? && IsIdRequest(es[k].packet)
    && ResultAt(w, es, k).response == Some([ID_ASSIGN, es[k].packet[1], es[k].packet[2]] + BE(aid, 4))
  }

  lemma NextAlloc(w: World, e: Event)
    requires w.store.Some?
    ensures e.Deliver? && IsIdRequest(e.packet) && w.alloc.Some? ==>
              Next(w, e).alloc == Some(A.Allocated(w.alloc.value, e.now).0)
    ensures !(e.Deliver? && IsIdRequest(e.packet)) ==> Next(w, e).alloc == w.alloc
  {
    hide A.Allocated, DataStep, P.DecodeMeta, S.Confirm, S.Mark, AidField, TsField, BE, S.Note, S.Cleanup;
  }

  lemma AssignMeans(w: World, now: uint64, packet: Text, aid: uint32)
    requires w.alloc.Some? && A.Exclusive(w.alloc.value) && IsIdRequest(packet)
    requires Dispatched(w, now, packet).1.response == Some([ID_ASSIGN, packet[1], packet[2]] + BE(aid, 4))
    ensures A.Allocated(w.alloc.value, now).1 == Some(aid)
  {
    hide A.Allocated, A.Exclusive, BE, Dispatched, A.Ledger;
    IdRequestAnswer(w, now, packet);
    var r := A.Allocated(w.alloc.value, now).1;
    if r.Some? {
      var head := [ID_ASSIGN, packet[1], packet[2]];
      assert (head + BE(aid, 4))[3..] == BE(aid, 4) && (head + BE(r.value, 4))[3..] == BE(r.value, 4);
      BEWords(aid, 0);
      BEWords(r.value, 0);
    }
  }

  /** The lease of an aid stays as it is while no address request arrives after its end. */
  lemma {:induction false} LeaseStays(w: World, es: seq<Event>, aid: uint32, i: nat, j: nat)
    requires w.store.Some? && i <= j <= |es|
    requires var a := At(w, es, i).alloc; a.Some? && A.Exclusive(a.value) && aid in A.Ledger(a.value.entries)
    requires forall k :: i <= k < j && es[k].Deliver? && IsIdRequest(es[k].packet) ==>
               es[k].now <= A.Ledger(At(w, es, i).alloc.value.entries)[aid]
    ensures var a, a' := At(w, es, i).alloc, At(w, es, j).alloc;
            && a'.Some? && A.Exclusive(a'.value) && aid in A.Ledger(a'.value.entries)
            && A.Ledger(a'.value.entries)[aid] == A.Ledger(a.value.entries)[aid]
    decreases j
  {
    hide Next, A.Allocated, A.Exclusive, A.Ledger;
    if i < j {
      LeaseStays(w, es, aid, i, j - 1);
      var b, e := At(w, es, j - 1), es[j - 1];
      NextAlloc(b, e);
      if e.Deliver? && IsIdRequest(e.packet) {
        A.StepKeepsExclusive(b.alloc.value, A.AllocateOp(e.now));
        A.UndisturbedStep(b.alloc.value, A.AllocateOp(e.now), aid);
      }
    }
  }

  /** An aid is assigned a second time only if, meanwhile, some address request arrived later
      than the end of the first lease. */
  lemma AssignedAgain(w: World, es: seq<Event>, aid: uint32, i: nat, j: nat)
    requires w.store.Some? && i < j < |es|
    requires At(w, es, i).alloc.Some? && A.Exclusive(At(w, es, i).alloc.value)
    requires AssignedAt(w, es, i, aid) && AssignedAt(w, es, j, aid)
    ensures var a := At(w, es, i + 1).alloc;
            && a.Some? && aid in A.Ledger(a.value.entries)
            && exists k :: i < k <= j && es[k].Deliver? && IsIdRequest(es[k].packet) &&
                           es[k].now > A.Ledger(a.value.entries)[aid]
  {
    hide Next, A.Allocated, A.Exclusive, A.Ledger, Dispatched, BE;
    var b := At(w, es, i);
    AssignMeans(b, es[i].now, es[i].packet, aid);
    A.GrantIsLeased(b.alloc.value, es[i].now);
    A.StepKeepsExclusive(b.alloc.value, A.AllocateOp(es[i].now));
    NextAlloc(b, es[i]);
    var end := A.Ledger(At(w, es, i + 1).alloc.value.entries)[aid];
    if forall k :: i < k <= j && es[k].Deliver? && IsIdRequest(es[k].packet) ==> es[k].now <= end {
      LeaseStays(w, es, aid, i + 1, j);
      var c := At(w, es, j);
      AssignMeans(c, es[j].now, es[j].packet, aid);
      A.UndisturbedStep(c.alloc.value, A.AllocateOp(es[j].now), aid);
    }
  }
}
