/** Two parties, one handshake: which keys it leaves and what they are good for. */
module KeyAgreement {
  import opened Bytes
  import opened Numerals
  import opened Commands
  import opened PayloadCrypto
  import opened Dispatch
  import opened HandshakeRuns
  import opened KeyDerivation
  import opened KeyLifetime
  import P = Packet
  import S = SecureSession

  /** The timestamp a confirmation will derive its key from. */
  function PendingOr(st: S.Store, aid: uint32, ts: uint64): uint64 {
    var s := S.SessionOf(st, aid);
    if s.pendingKeySet then s.pendingTs else ts
  }

  /** The store holds the key derived from ts. */
  predicate HasKey(st: S.Store, aid: uint32, ts: uint64) {
    var r := S.Lookup(st, aid);
    && r.Some? && r.value.keySet && r.value.dictReady && r.value.key == S.DeriveKey(aid, ts)
  }

  lemma HasKeyMeans(st: S.Store, aid: uint32, ts: uint64)
    requires HasKey(st, aid, ts)
    ensures S.GetKey(st, aid) == Some(S.DeriveKey(aid, ts)) && S.ShouldEncrypt(st, aid)
  {
    hide S.Lookup;
  }

  lemma SessionOfSound(st: S.Store, aid: uint32)
    requires S.SoundStore(st)
    ensures S.SoundSession(S.SessionOf(st, aid))
  {
    hide S.SoundStore, S.Lookup;
    if S.Lookup(st, aid).Some? {
      LookupSound(st, aid);
    }
  }

  /** Receiving SECURE_DICT_READY. */
  lemma DictPacketConfirms(st: S.Store, now: uint64, packet: Text, aid: uint32)
    requires S.SoundStore(st) && S.HasRoom(st, aid) && IsDictPacket(packet) && AidField(packet) == aid
    ensures HasKey(StoreStep(st, now, packet), aid, PendingOr(st, aid, TsField(packet)))
  {
    hide S.SoundStore, S.Lookup, S.Place, AidField, TsField, StoreStep, S.DeriveKey, P.DecodeMeta, S.SessionOf;
    SessionOfSound(st, aid);
    StoreIsPerAid(st, now, packet, aid);
  }

  /** Accepting a plaintext packet before there is a key. */
  lemma PlaintextConfirms(w: World, now: uint64, packet: Text)
    requires w.store.Some? && S.SoundStore(w.store.value) && IsDataPacket(packet)
    requires var m := P.DecodeMeta(packet).value; !Masked(m.cmd) && !Ready(S.Lookup(w.store.value, m.aid))
    requires Dispatched(w, now, packet).1.ok
    ensures var m := P.DecodeMeta(packet).value;
            && Dispatched(w, now, packet).1.response == Some(DictReady(m.aid, m.ts))
            && HasKey(StoreStep(w.store.value, now, packet), m.aid, PendingOr(w.store.value, m.aid, m.ts))
  {
    hide S.SoundStore, S.Lookup, S.Place, Dispatched, DataStep, S.DeriveKey, P.DecodeMeta, DictReady, Masked, Normalize;
    var m := P.DecodeMeta(packet).value;
    SessionOfSound(w.store.value, m.aid);
    DispatchedStore(w, now, packet);
    DataStepSession(w.store.value, now, m, m.aid);
  }

  /** The session's replay mark lets a packet with this timestamp pass. */
  predicate Newer(st: S.Store, aid: uint32, ts: uint64) {
    var last := S.SessionOf(st, aid).lastDataTs;
    last == 0 || last < ts
  }

  /** The dispatcher accepts a plaintext frame exactly when its store has room for the aid and
      the frame's 48-bit timestamp is newer than the last accepted one, or there is none. */
  lemma PlaintextFrameAcceptedIff(w: World, now: uint64, aid: uint32, cmd: byte, tid: byte, ts: uint64, body: Text)
    requires w.store.Some? && IsData(cmd)
    ensures Dispatched(w, now, P.Frame(cmd, aid, tid, ts, body)).1.ok <==>
            S.HasRoom(w.store.value, aid) && Newer(w.store.value, aid, ts % 0x1_0000_0000_0000)
  {
    hide S.Lookup, S.Place, Dispatched, DataStep, S.DeriveKey, P.DecodeMeta, BE, P.Frame;
    var f := P.Frame(cmd, aid, tid, ts, body);
    FrameIsData(cmd, aid, tid, ts, body);
    DispatchedStore(w, now, f);
    DataStepSession(w.store.value, now, P.DecodeMeta(f).value, aid);
  }

  /** The handshake: the server accepts a plaintext frame of the device and its answer is
      delivered back. Each side then holds the key of the timestamp it had pending, or of the
      frame's 48-bit timestamp if it had none. */
  lemma KeysAfterHandshake(dev: World, srv: World, aid: uint32, cmd: byte, tid: byte, ts: uint64, body: Text,
                           t1: uint64, t2: uint64)
    requires dev.store.Some? && srv.store.Some? && S.SoundStore(dev.store.value) && S.SoundStore(srv.store.value)
    requires IsData(cmd) && S.HasRoom(dev.store.value, aid) && S.HasRoom(srv.store.value, aid)
    requires !Ready(S.Lookup(srv.store.value, aid)) && Newer(srv.store.value, aid, ts % 0x1_0000_0000_0000)
    ensures var (srv', r) := Dispatched(srv, t1, P.Frame(cmd, aid, tid, ts, body));
            var wireTs := ts % 0x1_0000_0000_0000;
            && srv'.store.Some? && r.response.Some?
            && HasKey(srv'.store.value, aid, PendingOr(srv.store.value, aid, wireTs))
            && var (dev', r') := Dispatched(dev, t2, r.response.value);
               r'.ok && dev'.store.Some? && HasKey(dev'.store.value, aid, PendingOr(dev.store.value, aid, wireTs))
  {
    hide S.SoundStore, S.Lookup, S.Place, Dispatched, StoreStep, S.DeriveKey, P.DecodeMeta;
    hide HasKey, PendingOr, BE, P.Frame;
    var packet, wireTs := P.Frame(cmd, aid, tid, ts, body), ts % 0x1_0000_0000_0000;
    FrameIsData(cmd, aid, tid, ts, body);
    PlaintextFrameAcceptedIff(srv, t1, aid, cmd, tid, ts, body);
    PlaintextConfirms(srv, t1, packet);
    DispatchedStore(srv, t1, packet);
    RepliesRead(aid, wireTs);
    DictPacketConfirms(dev.store.value, t2, DictReady(aid, wireTs), aid);
    DispatchedStore(dev, t2, DictReady(aid, wireTs));
    DictPacketOk(dev, t2, DictReady(aid, wireTs));
  }

  lemma FrameIsData(cmd: byte, aid: uint32, tid: byte, ts: uint64, body: Text)
    requires IsData(cmd)
    ensures var f := P.Frame(cmd, aid, tid, ts, body);
            && IsDataPacket(f) && !Masked(P.DecodeMeta(f).value.cmd)
            && P.DecodeMeta(f).value.aid == aid && P.DecodeMeta(f).value.ts == ts % 0x1_0000_0000_0000
  {
    hide P.DecodeMeta, BE, P.Sealed;
    P.AssembleDecodes(cmd, aid, tid, ts, body, P.Crc8Body(body));
    MetaKeepsCmd(P.Frame(cmd, aid, tid, ts, body));
  }

  lemma DictPacketOk(w: World, now: uint64, packet: Text)
    requires w.store.Some? && IsDictPacket(packet)
    ensures Dispatched(w, now, packet).1.ok
  {
    hide S.Confirm, AidField, TsField;
  }

  /** So the two sides agree exactly when those two timestamps fold alike: when the one's low
      word mixed with its high word is the other's. Below 2^32 that means equal timestamps. */
  lemma AgreementIff(dev: World, srv: World, aid: uint32, cmd: byte, tid: byte, ts: uint64, body: Text,
                     t1: uint64, t2: uint64)
    requires dev.store.Some? && srv.store.Some? && S.SoundStore(dev.store.value) && S.SoundStore(srv.store.value)
    requires IsData(cmd) && S.HasRoom(dev.store.value, aid) && S.HasRoom(srv.store.value, aid)
    requires !Ready(S.Lookup(srv.store.value, aid)) && Newer(srv.store.value, aid, ts % 0x1_0000_0000_0000)
    ensures var (srv', r) := Dispatched(srv, t1, P.Frame(cmd, aid, tid, ts, body));
            var wireTs := ts % 0x1_0000_0000_0000;
            && srv'.store.Some? && r.response.Some?
            && var dev' := Dispatched(dev, t2, r.response.value).0;
               dev'.store.Some? &&
               (S.GetKey(dev'.store.value, aid) == S.GetKey(srv'.store.value, aid) <==>
                Fold(PendingOr(dev.store.value, aid, wireTs)) == Fold(PendingOr(srv.store.value, aid, wireTs)))
  {
    hide S.SoundStore, S.Lookup, S.Place, Dispatched, S.DeriveKey, HasKey;
    hide PendingOr, P.Frame, S.GetKey, S.ShouldEncrypt;
    hide Fold;
    KeysAfterHandshake(dev, srv, aid, cmd, tid, ts, body, t1, t2);
    var (srv', r) := Dispatched(srv, t1, P.Frame(cmd, aid, tid, ts, body));
    var dev' := Dispatched(dev, t2, r.response.value).0;
    var wireTs := ts % 0x1_0000_0000_0000;
    HasKeyMeans(srv'.store.value, aid, PendingOr(srv.store.value, aid, wireTs));
    HasKeyMeans(dev'.store.value, aid, PendingOr(dev.store.value, aid, wireTs));
    KeysEqualIff(aid, PendingOr(dev.store.value, aid, wireTs), PendingOr(srv.store.value, aid, wireTs));
  }

  /** A plaintext send leaves its own timestamp pending, whatever was pending before. */
  lemma SentIsPending(st: S.Store, aid: uint32, ts: uint64, at: uint64, other: uint64)
    requires S.HasRoom(st, aid)
    ensures S.HasRoom(S.Note(st, aid, ts, at), aid) && PendingOr(S.Note(st, aid, ts, at), aid, other) == ts
  {
    hide S.Lookup, S.Place, S.DeriveKey;
    S.ApplyLookup(st, S.NoteOp(aid, ts, at), aid);
  }

  /** A key that was agreed on lasts as long as its session and no event rekeys it. */
  lemma KeyLasts(w: World, es: seq<Event>, aid: uint32, ts: uint64, j: nat)
    requires w.store.Some? && S.SoundStore(w.store.value) && HasKey(w.store.value, aid, ts) && j <= |es|
    requires Kept(w, es, aid, 0, j) && NeverRekeyed(w, es, aid, 0, j)
    ensures HasKey(StoreAt(w, es, j), aid, ts)
  {
    hide S.SoundStore, S.Lookup, S.DeriveKey, Next, RekeysAt;
    KeyStaysSet(w, es, aid, 0, j);
    KeptGrows(w, es, aid, 0, j);
    assert SessionAt(w, es, j, aid).Some?;
  }

  /** The header of a secure frame as its receiver reads it. */
  function SecureMeta(cmd: byte, aid: uint32, tid: byte, ts: uint64, body: Text): P.Meta {
    P.Meta(SecureVariant(cmd), 1, aid, tid, ts % 0x1_0000_0000_0000, 13, |body|, true, true)
  }

  /** Key agreement: if device and server complete the handshake with timestamps that fold
      alike, then after any further runs of both that do not rekey, every secure frame for the
      aid made with the key of one is recovered with the key of the other, either way round. */
  lemma SecureFramesRecovered(dev: World, srv: World, aid: uint32, cmd: byte, tid: byte, ts: uint64, body: Text,
                              t1: uint64, t2: uint64, devRun: seq<Event>, srvRun: seq<Event>,
                              dataCmd: byte, dataTid: byte, dataTs: uint64, data: Text, cap: nat)
    requires dev.store.Some? && srv.store.Some? && S.SoundStore(dev.store.value) && S.SoundStore(srv.store.value)
    requires IsData(cmd) && S.HasRoom(dev.store.value, aid) && S.HasRoom(srv.store.value, aid)
    requires !Ready(S.Lookup(srv.store.value, aid)) && Newer(srv.store.value, aid, ts % 0x1_0000_0000_0000)
    requires var wireTs := ts % 0x1_0000_0000_0000;
             Fold(PendingOr(dev.store.value, aid, wireTs)) == Fold(PendingOr(srv.store.value, aid, wireTs))
    requires var (srv', r) := Dispatched(srv, t1, P.Frame(cmd, aid, tid, ts, body));
             && srv'.store.Some? && Kept(srv', srvRun, aid, 0, |srvRun|) && NeverRekeyed(srv', srvRun, aid, 0, |srvRun|)
             && r.response.Some?
             && var dev' := Dispatched(dev, t2, r.response.value).0;
                dev'.store.Some? && Kept(dev', devRun, aid, 0, |devRun|) && NeverRekeyed(dev', devRun, aid, 0, |devRun|)
    requires IsData(dataCmd) && |data| <= cap
    ensures var (srv', r) := Dispatched(srv, t1, P.Frame(cmd, aid, tid, ts, body));
            var dev' := Dispatched(dev, t2, r.response.value).0;
            var a, b := S.GetKey(StoreAt(dev', devRun, |devRun|), aid), S.GetKey(StoreAt(srv', srvRun, |srvRun|), aid);
            var meta := SecureMeta(dataCmd, aid, dataTid, dataTs, data);
            && a.Some? && b.Some?
            && P.Extract(P.FrameEx(dataCmd, aid, dataTid, dataTs, data, true, a.value), b.value, cap) ==
               Some((data, meta))
            && P.Extract(P.FrameEx(dataCmd, aid, dataTid, dataTs, data, true, b.value), a.value, cap) ==
               Some((data, meta))
  {
    hide S.SoundStore, S.Lookup, S.Place, Dispatched, S.DeriveKey, HasKey;
    hide PendingOr, P.Frame, S.GetKey, S.ShouldEncrypt;
    hide Fold, Kept, NeverRekeyed, StoreAt, P.FrameEx, P.Extract, StoreStep, Next;
    var wireTs := ts % 0x1_0000_0000_0000;
    KeysAfterHandshake(dev, srv, aid, cmd, tid, ts, body, t1, t2);
    var packet := P.Frame(cmd, aid, tid, ts, body);
    var (srv', r) := Dispatched(srv, t1, packet);
    var dev' := Dispatched(dev, t2, r.response.value).0;
    StepSound(srv, t1, packet);
    StepSound(dev, t2, r.response.value);
    var a, b := PendingOr(dev.store.value, aid, wireTs), PendingOr(srv.store.value, aid, wireTs);
    KeyLasts(dev', devRun, aid, a, |devRun|);
    KeyLasts(srv', srvRun, aid, b, |srvRun|);
    HasKeyMeans(StoreAt(dev', devRun, |devRun|), aid, a);
    HasKeyMeans(StoreAt(srv', srvRun, |srvRun|), aid, b);
    KeysEqualIff(aid, a, b);
    P.FrameRoundTrip(dataCmd, aid, dataTid, dataTs, data, true, S.DeriveKey(aid, a), cap);
  }

  lemma StepSound(w: World, now: uint64, packet: Text)
    requires w.store.Some? && S.SoundStore(w.store.value)
    ensures Dispatched(w, now, packet).0.store.Some? && S.SoundStore(Dispatched(w, now, packet).0.store.value)
  {
    hide S.SoundStore, Dispatched, StoreStep;
    DispatchedStore(w, now, packet);
    StoreNextSound(w.store.value, Deliver(packet, now));
  }

  /** The dispatcher of a party that has a key accepts a secure frame exactly when its 48-bit
      timestamp is newer than the last accepted one, or there is none. */
  lemma SecureFrameAcceptedIff(w: World, now: uint64, aid: uint32, cmd: byte, tid: byte, ts: uint64, body: Text,
                               key: Text)
    requires w.store.Some? && S.ShouldEncrypt(w.store.value, aid) && IsData(cmd)
    ensures Dispatched(w, now, P.FrameEx(cmd, aid, tid, ts, body, true, key)).1.ok <==>
            Newer(w.store.value, aid, ts % 0x1_0000_0000_0000)
  {
    hide S.Lookup, S.Place, Dispatched, DataStep, S.DeriveKey, P.DecodeMeta, BE, P.Sealed, Mask;
    var f := P.FrameEx(cmd, aid, tid, ts, body, true, key);
    var crc8 := P.Crc8Body(body);
    P.AssembleDecodes(SecureVariant(cmd), aid, tid, ts, Mask(body, key, crc8 % 32), crc8);
    SecureVariantIsMasked(cmd);
    MetaKeepsCmd(f);
    DispatchedStore(w, now, f);
    S.FoundHasPlace(w.store.value, aid);
    DataStepSession(w.store.value, now, P.DecodeMeta(f).value, aid);
  }

  /** Two plaintext frames outstanding on fresh parties, the first of them delivered: the device
      has the later timestamp u pending, the server derives from the first frame's, and they
      agree exactly when the two fold alike. */
  lemma TwoOutstandingAgreeIff(aid: uint32, cmd: byte, tid: byte, body: Text, t: uint64, u: uint64,
                               t1: uint64, t2: uint64)
    requires IsData(cmd)
    ensures var sent := S.Note(S.Note(S.EmptyStore(), aid, t, t1), aid, u, t1);
            var (srv, r) := Dispatched(World(Some(S.EmptyStore()), None), t1, P.Frame(cmd, aid, tid, t, body));
            && r.response.Some? && srv.store.Some?
            && var dev := Dispatched(World(Some(sent), None), t2, r.response.value).0;
               dev.store.Some? &&
               (S.GetKey(dev.store.value, aid) == S.GetKey(srv.store.value, aid) <==>
                Fold(u) == Fold(t % 0x1_0000_0000_0000))
  {
    hide S.SoundStore, S.Lookup, S.Place, Dispatched, S.DeriveKey, P.Frame, S.GetKey, S.Note, PendingOr, Fold;
    var empty, wireTs := S.EmptyStore(), t % 0x1_0000_0000_0000;
    var once := S.Note(empty, aid, t, t1);
    EmptyHasRoom(aid);
    EmptyIsSound(aid);
    SentIsPending(empty, aid, t, t1, wireTs);
    SentIsPending(once, aid, u, t1, wireTs);
    StoreNextSound(empty, SendPlaintext(aid, t, t1));
    StoreNextSound(once, SendPlaintext(aid, u, t1));
    NothingPending(aid, wireTs);
    var dev0, srv0 := World(Some(S.Note(once, aid, u, t1)), None), World(Some(empty), None);
    AgreementIff(dev0, srv0, aid, cmd, tid, t, body, t1, t2);
  }

  /** So they can end up with different keys: with the times 1 and 2, for one. */
  lemma TwoOutstandingDisagree(aid: uint32, tid: byte, body: Text, t1: uint64, t2: uint64)
    ensures var sent := S.Note(S.Note(S.EmptyStore(), aid, 1, t1), aid, 2, t1);
            var (srv, r) := Dispatched(World(Some(S.EmptyStore()), None), t1, P.Frame(DATA_FULL, aid, tid, 1, body));
            && r.response.Some? && srv.store.Some?
            && var dev := Dispatched(World(Some(sent), None), t2, r.response.value).0;
               dev.store.Some? && S.GetKey(dev.store.value, aid) != S.GetKey(srv.store.value, aid)
  {
    hide Dispatched, P.Frame, S.GetKey, S.Note, Fold;
    TwoOutstandingAgreeIff(aid, DATA_FULL, tid, body, 1, 2, t1, t2);
    FoldShort(1);
    FoldShort(2);
  }

  lemma NothingPending(aid: uint32, ts: uint64)
    ensures PendingOr(S.EmptyStore(), aid, ts) == ts && S.SessionOf(S.EmptyStore(), aid).lastDataTs == 0
  {
    hide S.Lookup;
    EmptyIsSound(aid);
  }

  /** First contact, with nothing assumed of earlier traffic: two fresh parties, one noted
      plaintext frame below 2^48 and its answer leave both with the key of that timestamp. */
  lemma FirstContact(aid: uint32, cmd: byte, tid: byte, ts: uint64, body: Text, t0: uint64, t1: uint64, t2: uint64)
    requires IsData(cmd) && ts < 0x1_0000_0000_0000
    ensures var dev := World(Some(S.Note(S.EmptyStore(), aid, ts, t0)), None);
            var (srv, r) := Dispatched(World(Some(S.EmptyStore()), None), t1, P.Frame(cmd, aid, tid, ts, body));
            && srv.store.Some? && r.ok && r.response == Some(DictReady(aid, ts))
            && var (dev', r') := Dispatched(dev, t2, DictReady(aid, ts));
               && dev'.store.Some? && r'.ok
               && S.GetKey(srv.store.value, aid) == Some(S.DeriveKey(aid, ts))
               && S.GetKey(dev'.store.value, aid) == Some(S.DeriveKey(aid, ts))
  {
    hide S.SoundStore, S.Lookup, S.Place, Dispatched, S.DeriveKey, P.Frame, S.GetKey;
    hide S.Note, PendingOr, HasKey, DictReady;
    hide S.ShouldEncrypt, P.DecodeMeta;
    var empty := S.EmptyStore();
    var sent := S.Note(empty, aid, ts, t0);
    EmptyHasRoom(aid);
    EmptyIsSound(aid);
    SentIsPending(empty, aid, ts, t0, ts);
    StoreNextSound(empty, SendPlaintext(aid, ts, t0));
    NothingPending(aid, ts);
    var srv0, f := World(Some(empty), None), P.Frame(cmd, aid, tid, ts, body);
    KeysAfterHandshake(World(Some(sent), None), srv0, aid, cmd, tid, ts, body, t1, t2);
    FrameIsData(cmd, aid, tid, ts, body);
    PlaintextFrameAcceptedIff(srv0, t1, aid, cmd, tid, ts, body);
    PlaintextConfirms(srv0, t1, f);
    var srv := Dispatched(srv0, t1, f).0;
    var dev' := Dispatched(World(Some(sent), None), t2, DictReady(aid, ts)).0;
    HasKeyMeans(srv.store.value, aid, ts);
    HasKeyMeans(dev'.store.value, aid, ts);
  }
}
