/** How long a session of src/osfx_secure_session.c lasts: what refreshes it, and which
    cleanups take it away. */
module SessionLifetime {
  import opened Bytes
  import opened Numerals
  import opened Commands
  import opened Dispatch
  import opened HandshakeRuns
  import P = Packet
  import S = SecureSession

  /** The event is for the aid: a packet that may change its session, accepted or not, or a
      plaintext send noted for it. */
  predicate Touches(e: Event, aid: uint32) {
    match e
    case Deliver(packet, _) => Subject(packet) == Some(aid)
    case SendPlaintext(b, _, _) => b == aid
    case Expire(_, _) => false
  }

  function TimeOf(e: Event): uint64
    requires !e.Expire?
  {
    if e.Deliver? then e.now else e.sentAt
  }

  /** A cleanup spares a session last seen at t. */
  predicate Spares(e: Event, t: uint64) {
    e.Expire? ==> e.at <= t || e.at - t <= e.after
  }

  /** A full store has no unused place left for a new aid. */
  lemma RoomIff(st: S.Store, aid: uint32)
    ensures S.HasRoom(st, aid) <==> S.Lookup(st, aid).Some? || exists k :: 0 <= k < |st| && !st[k].used
  {
    hide S.Find, S.FirstUnused;
    assert S.FirstUnused(st) < |st| ==> !st[S.FirstUnused(st)].used;
  }

  lemma AdvanceIsSeen(s: S.Session, now: uint64, packet: Text)
    requires Subject(packet).Some?
    ensures Advance(s, now, packet).lastSeen == now
  {
    hide P.DecodeMeta, AidField, TsField, S.DeriveKey, DataSession;
    if IsDataPacket(packet) {
      DataIsSeen(s, now, P.DecodeMeta(packet).value);
    }
  }

  lemma DataIsSeen(s: S.Session, now: uint64, m: P.Meta)
    ensures DataSession(s, now, m).0.lastSeen == now
  {
    hide S.DeriveKey, Masked, Normalize, ChannelAck, DictReady;
  }

  /** Whatever is for the aid and finds room leaves a session that was seen at that moment. */
  lemma TouchIsSeen(w: World, es: seq<Event>, i: nat, aid: uint32)
    requires w.store.Some? && i < |es| && Touches(es[i], aid) && S.HasRoom(StoreAt(w, es, i), aid)
    ensures SessionAt(w, es, i + 1, aid).Some? && SessionAt(w, es, i + 1, aid).value.lastSeen == TimeOf(es[i])
  {
    hide S.Lookup, S.Place, S.HasRoom, Next, StoreStep, Subject, Advance, S.DeriveKey;
    var st, e := StoreAt(w, es, i), es[i];
    NextStore(At(w, es, i), e);
    match e
    case Deliver(packet, now) =>
      StoreIsPerAid(st, now, packet, aid);
      AdvanceIsSeen(S.SessionOf(st, aid), now, packet);
    case SendPlaintext(b, ts, at) => S.ApplyLookup(st, S.NoteOp(b, ts, at), aid);
  }

  /** An event that is not for the aid leaves its session as it is, unless it is a cleanup that
      does not spare it. */
  lemma QuietStep(w: World, es: seq<Event>, k: nat, aid: uint32)
    requires w.store.Some? && k < |es| && S.SoundStore(w.store.value) && !Touches(es[k], aid)
    ensures var s := SessionAt(w, es, k, aid);
            SessionAt(w, es, k + 1, aid) == if s.Some? && Spares(es[k], s.value.lastSeen) then s else None
  {
    hide S.Lookup, S.Place, Next, StoreStep, Subject, S.SoundStore;
    var st, e := StoreAt(w, es, k), es[k];
    NextStore(At(w, es, k), e);
    RunKeepsSound(w, es, k);
    match e
    case Deliver(packet, now) => StoreIsPerAid(st, now, packet, aid);
    case SendPlaintext(b, ts, at) => S.ApplyLookup(st, S.NoteOp(b, ts, at), aid);
    case Expire(at, after) => S.CleanupLookup(st, at, after, aid);
  }

  /** The lifetime of a session: after the last event for its aid, at time t, it is there as long
      as no cleanup comes more than its expiry after t, and until then it does not change. */
  lemma {:induction false} LastsIff(w: World, es: seq<Event>, aid: uint32, i: nat, k: nat)
    requires w.store.Some? && S.SoundStore(w.store.value) && i < k <= |es|
    requires Touches(es[i], aid) && S.HasRoom(StoreAt(w, es, i), aid)
    requires forall j :: i < j < k ==> !Touches(es[j], aid)
    ensures var t := TimeOf(es[i]);
            var lasts := forall j :: i < j < k && es[j].Expire? ==> es[j].at <= t || es[j].at - t <= es[j].after;
            SessionAt(w, es, k, aid) == if lasts then SessionAt(w, es, i + 1, aid) else None
    ensures SessionAt(w, es, i + 1, aid).Some?
    decreases k
  {
    hide S.Lookup, S.SoundStore, Next, Subject, S.HasRoom, Touches;
    TouchIsSeen(w, es, i, aid);
    if i + 1 < k {
      LastsIff(w, es, aid, i, k - 1);
      QuietStep(w, es, k - 1, aid);
    }
  }

  /** An aid that no event is for gets no session. */
  lemma {:induction false} NeverTouched(w: World, es: seq<Event>, aid: uint32, k: nat)
    requires w.store.Some? && S.SoundStore(w.store.value) && k <= |es|
    requires S.Lookup(w.store.value, aid).None? && forall j :: 0 <= j < k ==> !Touches(es[j], aid)
    ensures SessionAt(w, es, k, aid).None?
    decreases k
  {
    hide S.Lookup, S.SoundStore, Next, Touches;
    if k > 0 {
      NeverTouched(w, es, aid, k - 1);
      QuietStep(w, es, k - 1, aid);
    }
  }

  // ---- Verdicts ----------------------------------------------------------

  /** Why a data packet is refused: the same time as the mark is a replay, an older one or a store
      without room is late, and a newer masked one without a key has no session, although it has
      moved the mark. Nothing else is refused. */
  lemma VerdictIff(w: World, now: uint64, packet: Text)
    requires w.store.Some? && IsDataPacket(packet)
    ensures var m, st := P.DecodeMeta(packet).value, w.store.value;
            var (room, s, r) := (S.HasRoom(st, m.aid), S.SessionOf(st, m.aid), Dispatched(w, now, packet).1);
            var after := S.Lookup(StoreStep(st, now, packet), m.aid);
            var newer := s.lastDataTs == 0 || m.ts > s.lastDataTs;
            && r.kind == Data && r.cmd == packet[0] && r.baseCmd == Normalize(packet[0]) && r.sourceAid == m.aid
            && (r.reject == Replayed <==> room && s.lastDataTs != 0 && m.ts == s.lastDataTs)
            && (r.reject == Late <==> !room || (s.lastDataTs != 0 && m.ts < s.lastDataTs))
            && (r.reject == NoSession <==> room && newer && Masked(m.cmd) && !(s.dictReady && s.keySet))
            && (r.ok <==> r.reject == NoReject)
            && (r.reject == NoReject || r.reject == NoSession ==> after.Some? && after.value.lastDataTs == m.ts)
            && (r.reject == Replayed || r.reject == Late ==>
                  (after.Some? <==> room) && (room ==> after == Some(s.(lastSeen := now))))
            && (r.reject != NoReject ==> r.response.None?)
  {
    hide S.Lookup, S.Place, S.HasRoom, S.DeriveKey, DataStep, Masked, Normalize, S.SessionOf, BE, Dispatched;
    DispatchedStore(w, now, packet);
    MetaCmd(packet);
    hide P.DecodeMeta;
    var m, st := P.DecodeMeta(packet).value, w.store.value;
    DataStepSession(st, now, m, m.aid);
    NoRoomNoSession(st, m.aid);
  }

  lemma NoRoomNoSession(st: S.Store, aid: uint32)
    ensures !S.HasRoom(st, aid) ==> S.Lookup(st, aid).None?
  {
  }

  // ---- The handshake state -----------------------------------------------

  /** The state a session shows is the last step of the handshake it saw: a plaintext frame sent, a
      dictionary confirmed by a reply or by the peer, a channel confirmed likewise. */
  lemma StateFollows(w: World, e: Event, aid: uint32)
    requires w.store.Some? && S.SoundStore(w.store.value) && S.Lookup(StoreNext(w.store.value, e), aid).Some?
    ensures var s, s' := S.SessionOf(w.store.value, aid), S.Lookup(StoreNext(w.store.value, e), aid).value;
            match e
            case SendPlaintext(b, _, _) => s'.state == if b == aid then S.PlaintextSent else s.state
            case Expire(_, _) => s' == s
            case Deliver(packet, now) =>
              var r := Dispatched(w, now, packet).1;
              s'.state == if DictReplyTo(r, aid) || (IsDictPacket(packet) && AidField(packet) == aid)
                          then S.DictReadyState
                          else if AckReplyTo(r, aid) || (IsAckPacket(packet) && AidField(packet) == aid)
                          then S.Secure
                          else s.state
  {
    hide S.Lookup, S.Place, S.SoundStore, StoreStep, S.DeriveKey, DictReplyTo, AckReplyTo, Dispatched, DataStep;
    hide S.HasRoom;
    var st := w.store.value;
    NoRoomNoSession(st, aid);
    match e
    case SendPlaintext(b, ts, at) => S.ApplyLookup(st, S.NoteOp(b, ts, at), aid);
    case Expire(at, after) => S.CleanupLookup(st, at, after, aid);
    case Deliver(packet, now) =>
      hide AidField, TsField, P.DecodeMeta, DataSession;
      StoreIsPerAid(st, now, packet, aid);
      DispatchedStore(w, now, packet);
      if IsDataPacket(packet) {
        DataStateInStore(st, now, packet, aid);
      }
  }

  lemma DataStateInStore(st: S.Store, now: uint64, packet: Text, aid: uint32)
    requires IsDataPacket(packet) && S.Lookup(StoreStep(st, now, packet), aid).Some?
    ensures !IsDictPacket(packet) && !IsAckPacket(packet)
    ensures var r := DataStep(st, now, P.DecodeMeta(packet).value).1;
            S.Lookup(StoreStep(st, now, packet), aid).value.state ==
            if DictReplyTo(r, aid) then S.DictReadyState
            else if AckReplyTo(r, aid) then S.Secure else S.SessionOf(st, aid).state
  {
    hide S.Lookup, S.Place, S.DeriveKey, DictReplyTo, AckReplyTo, DataStep, DataSession, S.HasRoom, P.DecodeMeta;
    var m := P.DecodeMeta(packet).value;
    NoRoomNoSession(st, aid);
    DataStepSession(st, now, m, aid);
    DataStateFollows(S.SessionOf(st, m.aid), now, m, aid);
    NoReplyNoRoom(m, aid);
  }

  lemma DataStateFollows(s: S.Session, now: uint64, m: P.Meta, aid: uint32)
    ensures var (s', r) := DataSession(s, now, m);
            && (DictReplyTo(r, aid) || AckReplyTo(r, aid) ==> aid == m.aid)
            && s'.state == if DictReplyTo(r, m.aid) then S.DictReadyState
                           else if AckReplyTo(r, m.aid) then S.Secure else s.state
  {
    hide S.DeriveKey, AidField, ChannelAck, DictReady, Masked, Normalize;
    RepliesRead(m.aid, m.ts);
  }

  lemma NoReplyNoRoom(m: P.Meta, aid: uint32)
    ensures var r := Refused(Result(Data, m.cmd, Normalize(m.cmd), m.aid, true, NoReject, None), Late);
            !DictReplyTo(r, aid) && !AckReplyTo(r, aid)
  {
  }
}
