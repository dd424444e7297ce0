/** The plain and the secure single-sensor packets of src/osfx_core_facade.c. */
module SecureFacade {
  import opened Bytes
  import opened Commands
  import opened Solidity
  import opened SensorBody
  import opened Dispatch
  import opened HandshakeRuns
  import opened KeyAgreement
  import opened KeyLifetime
  import PayloadCrypto
  import P = Packet
  import S = SecureSession

  const SECURE_CAP: nat := 192

  /** osfx_core_encode_sensor_packet, from the scaled value and standard unit on. */
  function PlainPacket(aid: uint32, tid: byte, ts: uint64, id: Text, unit: Text, scaled: int, cap: nat): Option<Text> {
    var body := SensorText(aid, ts, id, unit, scaled);
    if |body| + 1 > BODY_CAP || |body| + P.OVERHEAD > cap then None else Some(P.Frame(DATA_FULL, aid, tid, ts, body))
  }

  /** osfx_core_encode_sensor_packet_secure: the key of the session, if it has one. */
  function SecurePacket(st: S.Store, aid: uint32, tid: byte, ts: uint64, id: Text, unit: Text, scaled: int, cap: nat)
    : Option<Text>
  {
    var body := SensorText(aid, ts, id, unit, scaled);
    match S.GetKey(st, aid)
    case None => None
    case Some(key) =>
      if |body| + 1 > BODY_CAP || |body| + P.OVERHEAD > cap then None
      else Some(P.FrameEx(DATA_FULL, aid, tid, ts, body, true, key))
  }

  /** osfx_core_decode_sensor_packet_secure: the body buffer is shorter than the encoder's. */
  function ReadSecure(st: S.Store, packet: Text, idCap: nat, unitCap: nat): Option<(Text, Text, int)> {
    match P.DecodeMeta(packet)
    case None => None
    case Some(m) =>
      match S.GetKey(st, m.aid)
      case None => None
      case Some(key) =>
        match P.Extract(packet, key, SECURE_CAP)
        case None => None
        case Some((body, _)) => ReadBody(body, idCap, unitCap)
  }

  /** The metadata that comes with it. */
  function SecureMetaOf(st: S.Store, packet: Text): (m: Option<P.Meta>)
    ensures m.Some? ==> m.value.crc8Ok && m.value.crc16Ok && |packet| == m.value.bodyOffset + m.value.bodyLen + 3
  {
    match P.DecodeMeta(packet)
    case None => None
    case Some(m) =>
      match S.GetKey(st, m.aid)
      case None => None
      case Some(key) =>
        match P.Extract(packet, key, SECURE_CAP)
        case None => None
        case Some((_, meta)) => Some(meta)
  }

  // ---- End to end --------------------------------------------------------

  /** Secure transparency: with the same key on both sides, a secure packet is built and
      read back exactly if and only if its body fits the decoder's 192 bytes and its names are
      readable and fit the caller's buffers. */
  lemma SecureTransparentIff(tx: S.Store, rx: S.Store, aid: uint32, tid: byte, ts: uint64, id: Text, unit: Text,
                             scaled: int, cap: nat, idCap: nat, unitCap: nat)
    requires -TWO63 < scaled < TWO63
    requires S.GetKey(tx, aid).Some? && S.GetKey(tx, aid) == S.GetKey(rx, aid)
    requires |SensorText(aid, ts, id, unit, scaled)| < BODY_CAP
    requires |SensorText(aid, ts, id, unit, scaled)| + P.OVERHEAD <= cap
    ensures SecurePacket(tx, aid, tid, ts, id, unit, scaled, cap).Some?
    ensures ReadSecure(rx, SecurePacket(tx, aid, tid, ts, id, unit, scaled, cap).value, idCap, unitCap)
            == Some((id, unit, scaled)) <==>
            && |SensorText(aid, ts, id, unit, scaled)| <= SECURE_CAP
            && Free(id, GT) && id != [] && |id| + 1 <= idCap
            && Free(unit, COLON) && unit != [] && |unit| + 1 <= unitCap
  {
    hide SensorText, ReadBody, P.DecodeMeta, P.Extract, P.FrameEx, S.GetKey;
    var body, key := SensorText(aid, ts, id, unit, scaled), S.GetKey(tx, aid).value;
    SecureMeta(aid, tid, ts, body, key);
    SensorTextReadIff(aid, ts, id, unit, scaled, idCap, unitCap);
    if |body| <= SECURE_CAP {
      P.FrameRoundTrip(DATA_FULL, aid, tid, ts, body, true, key, SECURE_CAP);
    } else {
      TooLong(P.FrameEx(DATA_FULL, aid, tid, ts, body, true, key), key, SECURE_CAP);
    }
  }

  lemma SecureMeta(aid: uint32, tid: byte, ts: uint64, body: Text, key: Text)
    ensures var m := P.DecodeMeta(P.FrameEx(DATA_FULL, aid, tid, ts, body, true, key));
            m.Some? && m.value.aid == aid && m.value.bodyLen == |body|
  {
    hide P.DecodeMeta, P.Assemble;
    var crc8 := P.Crc8Body(body);
    P.AssembleDecodes(DATA_FULL_SEC, aid, tid, ts, PayloadCrypto.Mask(body, key, crc8 % 32), crc8);
  }

  /** When a plain packet is built, and what it carries: the body in clear under the sender's aid,
      template and time. */
  lemma PlainPacketIff(aid: uint32, tid: byte, ts: uint64, id: Text, unit: Text, scaled: int, cap: nat, key: Text)
    ensures var (body, p) := (SensorText(aid, ts, id, unit, scaled), PlainPacket(aid, tid, ts, id, unit, scaled, cap));
            && (p.Some? <==> |body| < 256 && |body| + 16 <= cap)
            && (p.Some? ==>
                  P.Extract(p.value, key, |body|) ==
                  Some((body, P.Meta(DATA_FULL, 1, aid, tid, ts % 0x1_0000_0000_0000, 13, |body|, true, true))))
  {
    hide SensorText, P.Extract, P.Frame;
    var body := SensorText(aid, ts, id, unit, scaled);
    P.FrameRoundTrip(DATA_FULL, aid, tid, ts, body, false, key, |body|);
    PlainIsFrameEx(aid, tid, ts, body, key);
  }

  lemma PlainIsFrameEx(aid: uint32, tid: byte, ts: uint64, body: Text, key: Text)
    ensures P.FrameEx(DATA_FULL, aid, tid, ts, body, false, key) == P.Frame(DATA_FULL, aid, tid, ts, body)
  {
    hide P.Assemble;
  }

  /** When a secure packet is built, and what it carries for a holder of the key: the same body under
      the secure variant of the command. Another key opens it exactly when it shows the same bytes
      to the body. */
  lemma SecurePacketIff(st: S.Store, aid: uint32, tid: byte, ts: uint64, id: Text, unit: Text, scaled: int, cap: nat,
                        other: Text)
    requires other != []
    ensures var body, p := SensorText(aid, ts, id, unit, scaled), SecurePacket(st, aid, tid, ts, id, unit, scaled, cap);
            && (p.Some? <==> S.GetKey(st, aid).Some? && |body| < 256 && |body| + 16 <= cap)
            && (p.Some? ==>
                  var key := S.GetKey(st, aid).value;
                  && P.Extract(p.value, key, |body|) ==
                     Some((body, P.Meta(DATA_FULL_SEC, 1, aid, tid, ts % 0x1_0000_0000_0000, 13, |body|, true, true)))
                  && (key != [] ==>
                        ((exists m :: P.Extract(p.value, other, |body|) == Some((body, m))) <==>
                           PayloadCrypto.Agree(key, other, P.Crc8Body(body), |body|))))
  {
    hide SensorText, P.Extract, P.FrameEx, PayloadCrypto.Agree, S.GetKey;
    var body := SensorText(aid, ts, id, unit, scaled);
    if S.GetKey(st, aid).Some? {
      var key := S.GetKey(st, aid).value;
      P.FrameRoundTrip(DATA_FULL, aid, tid, ts, body, true, key, |body|);
      if key != [] {
        P.OtherKeyOpensIff(DATA_FULL, aid, tid, ts, body, key, other, |body|);
      }
    }
  }

  lemma TooLong(packet: Text, key: Text, cap: nat)
    requires P.DecodeMeta(packet).Some? && P.DecodeMeta(packet).value.bodyLen > cap
    ensures P.Extract(packet, key, cap).None?
  {
  }

  /** After a handshake (KeysAfterHandshake) and any further runs that do not rekey, one secure
      sensor packet of the device: the server reads id, unit and scaled value. */
  lemma SecureSensorDelivered(dev: World, srv: World, aid: uint32, keyTs: uint64,
                              devRun: seq<Event>, srvRun: seq<Event>, tid: byte, ts: uint64,
                              id: Text, unit: Text, scaled: int, cap: nat, idCap: nat, unitCap: nat)
    requires dev.store.Some? && srv.store.Some? && S.SoundStore(dev.store.value) && S.SoundStore(srv.store.value)
    requires HasKey(dev.store.value, aid, keyTs) && HasKey(srv.store.value, aid, keyTs)
    requires Kept(dev, devRun, aid, 0, |devRun|) && NeverRekeyed(dev, devRun, aid, 0, |devRun|)
    requires Kept(srv, srvRun, aid, 0, |srvRun|) && NeverRekeyed(srv, srvRun, aid, 0, |srvRun|)
    requires -TWO63 < scaled < TWO63 && |SensorText(aid, ts, id, unit, scaled)| <= SECURE_CAP
    requires |SensorText(aid, ts, id, unit, scaled)| + P.OVERHEAD <= cap
    requires Free(id, GT) && id != [] && |id| + 1 <= idCap && Free(unit, COLON) && unit != [] && |unit| + 1 <= unitCap
    ensures var packet := SecurePacket(StoreAt(dev, devRun, |devRun|), aid, tid, ts, id, unit, scaled, cap);
            && packet.Some?
            && ReadSecure(StoreAt(srv, srvRun, |srvRun|), packet.value, idCap, unitCap) == Some((id, unit, scaled))
  {
    hide SensorText, S.SoundStore, HasKey, Kept, NeverRekeyed, StoreAt;
    hide S.GetKey, S.ShouldEncrypt, ReadSecure, P.FrameEx;
    KeyLasts(dev, devRun, aid, keyTs, |devRun|);
    KeyLasts(srv, srvRun, aid, keyTs, |srvRun|);
    HasKeyMeans(StoreAt(dev, devRun, |devRun|), aid, keyTs);
    HasKeyMeans(StoreAt(srv, srvRun, |srvRun|), aid, keyTs);
    SecureTransparentIff(StoreAt(dev, devRun, |devRun|), StoreAt(srv, srvRun, |srvRun|), aid, tid, ts, id, unit, scaled,
                         cap, idCap, unitCap);
  }

  // ---- The functions of the sources --------------------------------------

  method EncodeSensor(aid: uint32, tid: byte, ts: uint64, id: Text, unit: Text, scaled: int, out: array<byte>)
    returns (ok: bool, len: nat)
    requires -TWO63 < scaled < TWO63
    modifies out
    ensures var r := PlainPacket(aid, tid, ts, id, unit, scaled, out.Length);
            ok == r.Some? && (ok ==> len == |r.value| <= out.Length && out[..len] == r.value)
  {
    hide SensorText, P.Frame;
    var body := new byte[BODY_CAP];
    var fits, bodyLen := WriteSensorText(aid, ts, id, unit, scaled, body);
    if !fits {
      return false, 0;
    }
    len := P.EncodeFull(DATA_FULL, aid, tid, ts, body[..bodyLen], out);
    ok := len > 0;
  }

  method EncodeSensorSecure(store: S.SecureStore, aid: uint32, tid: byte, ts: uint64, id: Text, unit: Text, scaled: int,
                            out: array<byte>)
    returns (ok: bool, len: nat)
    requires -TWO63 < scaled < TWO63
    modifies out
    ensures var r := SecurePacket(store.sessions[..], aid, tid, ts, id, unit, scaled, out.Length);
            ok == r.Some? && (ok ==> len == |r.value| <= out.Length && out[..len] == r.value)
  {
    hide SensorText, P.FrameEx, S.GetKey;
    var key := store.ReadKey(aid);
    if key.None? {
      return false, 0;
    }
    var body := new byte[BODY_CAP];
    var fits, bodyLen := WriteSensorText(aid, ts, id, unit, scaled, body);
    if !fits {
      return false, 0;
    }
    len := P.EncodeEx(DATA_FULL, aid, tid, ts, body[..bodyLen], true, key.value, out);
    ok := len > 0;
  }

  method DecodeSensorSecure(store: S.SecureStore, packet: Text, idCap: nat, unitCap: nat)
    returns (r: Option<(Text, Text, int)>, meta: Option<P.Meta>)
    ensures r == ReadSecure(store.sessions[..], packet, idCap, unitCap)
    ensures r.Some? ==> SecureMetaOf(store.sessions[..], packet) == meta
  {
    hide P.DecodeMeta, P.Extract, S.GetKey, ReadBody;
    meta := P.DecodeMeta(packet);
    if meta.None? {
      return None, None;
    }
    var key := store.ReadKey(meta.value.aid);
    if key.None? {
      return None, None;
    }
    var body := new byte[SECURE_CAP];
    var bodyLen;
    meta, bodyLen := P.ExtractBody(packet, key.value, body);
    if meta.None? {
      return None, None;
    }
    r := DecodeSensorBody(body[..bodyLen], idCap, unitCap);
  }
}
