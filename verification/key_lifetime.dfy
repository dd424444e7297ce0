/** How long a session key lives: which events change it, over any run. */
module KeyLifetime {
  import opened Bytes
  import opened Commands
  import opened Dispatch
  import opened HandshakeRuns
  import opened KeyDerivation
  import P = Packet
  import S = SecureSession

  // ---- One event ---------------------------------------------------------

  /** What any packet does to an existing key: only a SECURE_DICT_READY for the aid touches it,
      and that installs the key of the pending timestamp. */
  lemma KeyAfterPacket(st: S.Store, now: uint64, packet: Text, aid: uint32)
    requires S.SoundStore(st) && S.Lookup(st, aid).Some? && S.Lookup(st, aid).value.keySet
    ensures var s, s' := S.Lookup(st, aid).value, S.Lookup(StoreStep(st, now, packet), aid);
            && s'.Some? && s'.value.keySet
            && s'.value.key ==
               (if IsDictPacket(packet) && AidField(packet) == aid then S.DeriveKey(aid, s.pendingTs) else s.key)
  {
    hide S.SoundStore, S.Lookup, S.Place, P.DecodeMeta, S.DeriveKey, AidField, TsField, StoreStep, DataSession;
    StoreIsPerAid(st, now, packet, aid);
    LookupSound(st, aid);
    S.FoundHasPlace(st, aid);
    var s := S.SessionOf(st, aid);
    if IsDataPacket(packet) {
      KeyAfterData(s, now, P.DecodeMeta(packet).value);
    }
  }

  lemma KeyAfterData(s: S.Session, now: uint64, m: P.Meta)
    requires s.keySet && s.dictReady
    ensures DataSession(s, now, m).0.keySet && DataSession(s, now, m).0.key == s.key
  {
    hide S.DeriveKey, Masked, Normalize, ChannelAck, DictReady, Refused;
  }

  /** The event installs another key: a SECURE_DICT_READY for the aid arrives while the
      session has a timestamp pending that folds differently from the one its key is from. */
  predicate Rekeys(st: S.Store, e: Event, aid: uint32) {
    && e.Deliver? && IsDictPacket(e.packet) && AidField(e.packet) == aid
    && S.Lookup(st, aid).Some?
    && Fold(S.Lookup(st, aid).value.pendingTs) != Fold(S.Lookup(st, aid).value.firstPlaintextTs)
  }

  /** An event changes the key of a session that outlives it exactly when it is such a packet. */
  lemma KeyChangesIff(st: S.Store, e: Event, aid: uint32)
    requires S.SoundStore(st) && S.GetKey(st, aid).Some? && S.Lookup(StoreNext(st, e), aid).Some?
    ensures S.GetKey(StoreNext(st, e), aid).Some?
    ensures S.GetKey(StoreNext(st, e), aid) != S.GetKey(st, aid) <==> Rekeys(st, e, aid)
  {
    hide S.SoundStore, S.Lookup, S.Place, StoreStep, S.DeriveKey, AidField, Fold, IsDictPacket;
    var s := S.Lookup(st, aid).value;
    LookupSound(st, aid);
    match e
    case Deliver(packet, now) =>
      KeyAfterPacket(st, now, packet, aid);
      KeysEqualIff(aid, s.pendingTs, s.firstPlaintextTs);
    case SendPlaintext(b, ts, at) => S.ApplyLookup(st, S.NoteOp(b, ts, at), aid);
    case Expire(at, after) => S.CleanupLookup(st, at, after, aid);
  }

  // ---- Runs --------------------------------------------------------------

  function KeyAt(w: World, es: seq<Event>, k: nat, aid: uint32): Option<Text>
    requires w.store.Some? && k <= |es|
  {
    S.GetKey(StoreAt(w, es, k), aid)
  }

  predicate RekeysAt(w: World, es: seq<Event>, k: nat, aid: uint32)
    requires w.store.Some? && k < |es|
  {
    Rekeys(StoreAt(w, es, k), es[k], aid)
  }

  ghost predicate NeverRekeyed(w: World, es: seq<Event>, aid: uint32, i: nat, j: nat)
    requires w.store.Some? && j <= |es|
  {
    forall k :: i <= k < j ==> !RekeysAt(w, es, k, aid)
  }

  lemma KeyStep(w: World, es: seq<Event>, aid: uint32, k: nat)
    requires w.store.Some? && k < |es| && S.SoundStore(w.store.value)
    requires KeyAt(w, es, k, aid).Some? && SessionAt(w, es, k + 1, aid).Some?
    ensures KeyAt(w, es, k + 1, aid).Some?
    ensures KeyAt(w, es, k + 1, aid) != KeyAt(w, es, k, aid) <==> RekeysAt(w, es, k, aid)
  {
    hide S.SoundStore, S.Lookup, S.GetKey, Next, StoreNext, Rekeys;
    RunKeepsSound(w, es, k);
    NextStore(At(w, es, k), es[k]);
    KeyChangesIff(StoreAt(w, es, k), es[k], aid);
  }

  lemma {:induction false} KeyStaysSet(w: World, es: seq<Event>, aid: uint32, i: nat, j: nat)
    requires w.store.Some? && i <= j <= |es| && S.SoundStore(w.store.value)
    requires Kept(w, es, aid, i, j) && KeyAt(w, es, i, aid).Some?
    ensures KeyAt(w, es, j, aid).Some?
    ensures NeverRekeyed(w, es, aid, i, j) ==> KeyAt(w, es, j, aid) == KeyAt(w, es, i, aid)
    decreases j
  {
    hide S.SoundStore, SessionAt, KeyAt, RekeysAt;
    if i < j {
      KeyStaysSet(w, es, aid, i, j - 1);
      assert SessionAt(w, es, j, aid).Some?;
      KeyStep(w, es, aid, j - 1);
    }
  }

  /** Once set, a key stays what it is through a stretch of any run in which its session lasts
      if and only if no event of that stretch rekeys it. */
  lemma KeyIsFinalIff(w: World, es: seq<Event>, aid: uint32, i: nat, j: nat)
    requires w.store.Some? && i <= j <= |es| && S.SoundStore(w.store.value)
    requires Kept(w, es, aid, i, j) && KeyAt(w, es, i, aid).Some?
    ensures (forall k :: i <= k <= j ==> KeyAt(w, es, k, aid) == KeyAt(w, es, i, aid)) <==>
            NeverRekeyed(w, es, aid, i, j)
  {
    hide S.SoundStore, SessionAt, KeyAt, RekeysAt;
    forall k | i <= k <= j
      ensures KeyAt(w, es, k, aid).Some?
      ensures NeverRekeyed(w, es, aid, i, j) ==> KeyAt(w, es, k, aid) == KeyAt(w, es, i, aid)
    {
      KeyStaysSet(w, es, aid, i, k);
    }
    if forall k :: i <= k <= j ==> KeyAt(w, es, k, aid) == KeyAt(w, es, i, aid) {
      forall k | i <= k < j ensures !RekeysAt(w, es, k, aid) {
        assert SessionAt(w, es, k + 1, aid).Some?;
        KeyStep(w, es, aid, k);
        assert KeyAt(w, es, k + 1, aid) == KeyAt(w, es, i, aid);
      }
    }
  }

  // ---- A sufficient discipline -------------------------------------------

  predicate Settled(s: Option<S.Session>) {
    s.Some? && s.value.keySet ==> s.value.pendingKeySet && s.value.key == s.value.pendingKey
  }

  /** The node stops sending plaintext for an aid once it has a key for it. */
  ghost predicate NoLatePlaintext(w: World, es: seq<Event>, aid: uint32, i: nat, j: nat)
    requires w.store.Some? && j <= |es|
  {
    forall k :: i <= k < j && es[k].SendPlaintext? && es[k].aid == aid ==>
      SessionAt(w, es, k, aid).Some? ==> !SessionAt(w, es, k, aid).value.keySet
  }

  lemma StaysSettled(st: S.Store, e: Event, aid: uint32)
    requires S.SoundStore(st) && Settled(S.Lookup(st, aid))
    requires e.SendPlaintext? && e.aid == aid && S.Lookup(st, aid).Some? ==> !S.Lookup(st, aid).value.keySet
    ensures Settled(S.Lookup(StoreNext(st, e), aid))
  {
    hide S.SoundStore, S.Lookup, S.Place, StoreStep, S.DeriveKey, AidField, TsField, DataSession, P.DecodeMeta;
    match e
    case Deliver(packet, now) =>
      StoreIsPerAid(st, now, packet, aid);
      if IsDataPacket(packet) {
        DataStaysSettled(S.SessionOf(st, aid), now, P.DecodeMeta(packet).value);
      }
    case SendPlaintext(b, ts, at) => S.ApplyLookup(st, S.NoteOp(b, ts, at), aid);
    case Expire(at, after) => S.CleanupLookup(st, at, after, aid);
  }

  lemma DataStaysSettled(s: S.Session, now: uint64, m: P.Meta)
    requires Settled(Some(s))
    ensures Settled(Some(DataSession(s, now, m).0))
  {
    hide S.DeriveKey, Masked, Normalize, ChannelAck, DictReady, Refused;
  }

  lemma {:induction false} RunStaysSettled(w: World, es: seq<Event>, aid: uint32, k: nat)
    requires w.store.Some? && k <= |es| && S.SoundStore(w.store.value)
    requires Settled(S.Lookup(w.store.value, aid)) && NoLatePlaintext(w, es, aid, 0, k)
    ensures Settled(SessionAt(w, es, k, aid))
  {
    hide S.SoundStore, S.Lookup, Next, StoreNext, Settled;
    if k > 0 {
      RunStaysSettled(w, es, aid, k - 1);
      RunKeepsSound(w, es, k - 1);
      NextStore(At(w, es, k - 1), es[k - 1]);
      StaysSettled(StoreAt(w, es, k - 1), es[k - 1], aid);
    }
  }

  /** A node that sends no plaintext for an aid once it has a key for it is never rekeyed. */
  lemma SilenceKeepsKey(w: World, es: seq<Event>, aid: uint32, j: nat)
    requires w.store == Some(S.EmptyStore()) && j <= |es| && NoLatePlaintext(w, es, aid, 0, j)
    ensures forall k :: 0 <= k < j && KeyAt(w, es, k, aid).Some? ==> !RekeysAt(w, es, k, aid)
  {
    hide S.SoundStore, S.Lookup, Next, S.DeriveKey, Fold, IsDictPacket, AidField;
    EmptyIsSound(aid);
    forall k | 0 <= k < j && KeyAt(w, es, k, aid).Some? ensures !RekeysAt(w, es, k, aid) {
      RunStaysSettled(w, es, aid, k);
      RunKeepsSound(w, es, k);
      LookupSound(StoreAt(w, es, k), aid);
      var s := SessionAt(w, es, k, aid).value;
      KeysEqualIff(aid, s.pendingTs, s.firstPlaintextTs);
    }
  }

  // ---- A run that rekeys -------------------------------------------------

  /** A confirmation at time t, a late plaintext send at time u, and any further confirmation. */
  function LateRun(aid: uint32, t: uint64, u: uint64, v: uint64, now: uint64): seq<Event> {
    [Deliver(DictReady(aid, t), now), SendPlaintext(aid, u, now), Deliver(DictReady(aid, v), now)]
  }

  /** From an empty store that run ends with the key of u, another key than it had after its
      first event exactly when t and u fold differently. */
  lemma LatePlaintextRekeysIff(aid: uint32, t: uint64, u: uint64, v: uint64, now: uint64)
    ensures var w, es := World(Some(S.EmptyStore()), None), LateRun(aid, t, u, v, now);
            && KeyAt(w, es, 1, aid) == Some(S.DeriveKey(aid, t)) && KeyAt(w, es, 3, aid) == Some(S.DeriveKey(aid, u))
            && Kept(w, es, aid, 1, 3)
            && (KeyAt(w, es, 3, aid) != KeyAt(w, es, 1, aid) <==> Fold(t) != Fold(u))
  {
    hide S.Lookup, S.Place, S.DeriveKey, Fold, DictReady, AidField, TsField;
    hide IsDictPacket, Dispatched, StoreStep, S.Note;
    var w, es := World(Some(S.EmptyStore()), None), LateRun(aid, t, u, v, now);
    var st0 := S.EmptyStore();
    var st1 := StoreStep(st0, now, DictReady(aid, t));
    var st2 := S.Note(st1, aid, u, now);
    var st3 := StoreStep(st2, now, DictReady(aid, v));
    NextStore(At(w, es, 0), es[0]);
    NextStore(At(w, es, 1), es[1]);
    NextStore(At(w, es, 2), es[2]);
    assert StoreAt(w, es, 1) == st1 && StoreAt(w, es, 2) == st2 && StoreAt(w, es, 3) == st3;
    EmptyIsSound(aid);
    EmptyHasRoom(aid);
    RepliesRead(aid, t);
    RepliesRead(aid, v);
    DictStep(st0, now, DictReady(aid, t), aid);
    S.FoundHasPlace(st1, aid);
    S.ApplyLookup(st1, S.NoteOp(aid, u, now), aid);
    S.FoundHasPlace(st2, aid);
    DictStep(st2, now, DictReady(aid, v), aid);
    KeysEqualIff(aid, t, u);
  }

  lemma DictStep(st: S.Store, now: uint64, packet: Text, aid: uint32)
    requires IsDictPacket(packet) && AidField(packet) == aid && S.HasRoom(st, aid)
    ensures S.Lookup(StoreStep(st, now, packet), aid) ==
            Some(S.Confirmed(S.SessionOf(st, aid), TsField(packet), now))
  {
    hide S.Lookup, S.Place, AidField, TsField, StoreStep, S.Confirmed, P.DecodeMeta;
    StoreIsPerAid(st, now, packet, aid);
  }

  lemma EmptyHasRoom(aid: uint32)
    ensures S.HasRoom(S.EmptyStore(), aid)
  {
    hide S.Find, S.FirstUnused;
    assert !S.EmptyStore()[0].used;
  }

  /** So a key does change: the same run with two times below 2^32. */
  lemma KeyChanges(aid: uint32, now: uint64)
    ensures var w, es := World(Some(S.EmptyStore()), None), LateRun(aid, 1, 2, 2, now);
            KeyAt(w, es, 1, aid).Some? && KeyAt(w, es, 3, aid).Some? && KeyAt(w, es, 3, aid) != KeyAt(w, es, 1, aid)
  {
    hide KeyAt, S.DeriveKey, Fold, LateRun;
    LatePlaintextRekeysIff(aid, 1, 2, 2, now);
    FoldShort(1);
    FoldShort(2);
  }
}
