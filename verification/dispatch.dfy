/** The handshake step of src/osfx_handshake_dispatch.c. */
module Dispatch {
  import opened Bytes
  import opened Numerals
  import opened Commands
  import P = Packet
  import S = SecureSession
  import A = IdAllocator

  const RESP_MAX: nat := 128

  datatype Kind = ErrorKind | Data | Ctrl | Unknown

  datatype Reject = NoReject | Malformed | BadCrc | Replayed | Late | NoSession | Unsupported

  datatype Result = Result(
    kind: Kind,
    cmd: byte,
    baseCmd: byte,
    sourceAid: uint32,
    ok: bool,
    reject: Reject,
    response: Option<Text>)

  /** The session store and the allocator of the dispatch context, each of which may be missing. */
  datatype World = World(store: Option<S.Store>, alloc: Option<A.Alloc>)

  function Refused(r: Result, reject: Reject): Result {
    r.(ok := false, reject := reject)
  }

  function Ascii(s: string): (t: Text)
    requires forall i :: 0 <= i < |s| ==> s[i] < 128 as char
    ensures |t| == |s|
  {
    seq(|s|, i requires 0 <= i < |s| => s[i] as int)
  }

  /** A reply goes out only if its builder found the packet to fit the buffer it was given. */
  function Fits(p: Text, cap: nat): Option<Text> {
    if |p| > cap then None else Some(p)
  }

  function SeqNo(packet: Text): uint16
    requires |packet| >= 3
  {
    packet[1] as int * 256 + packet[2]
  }

  // ---- Data packets ------------------------------------------------------

  /** A data packet with a good checksum, given a session store. */
  function DataStep(st: S.Store, now: uint64, m: P.Meta): (S.Store, Result) {
    var r := Result(Data, m.cmd, Normalize(m.cmd), m.aid, true, NoReject, None);
    var (st1, verdict) := S.Check(st, m.aid, m.ts, now);
    match verdict
    case Replay => (st1, Refused(r, Replayed))
    case OutOfOrder => (st1, Refused(r, Late))
    case Accept =>
      if !Masked(m.cmd) then
        if S.ShouldEncrypt(st1, m.aid) then (st1, r)
        else (S.Confirm(st1, m.aid, m.ts, now), r.(response := Some(DictReady(m.aid, m.ts))))
      else if !S.ShouldEncrypt(st1, m.aid) then (st1, Refused(r, NoSession))
      else if S.ChannelConfirmed(st1, m.aid) then (st1, r)
      else (S.Mark(st1, m.aid, now), r.(response := Some(ChannelAck(m.aid))))
  }

  function DispatchData(w: World, now: uint64, packet: Text): (World, Result)
    requires packet != []
  {
    var r := Result(Data, packet[0], Normalize(packet[0]), 0, false, NoReject, None);
    match P.DecodeMeta(packet)
    case None => (w, Refused(r, Malformed))
    case Some(m) =>
      if !m.crc16Ok then (w, Refused(r.(sourceAid := m.aid), BadCrc))
      else if w.store.None? then (w, r.(sourceAid := m.aid, ok := true))
      else
        var (st, r') := DataStep(w.store.value, now, m);
        (w.(store := Some(st)), r')
  }

  // ---- Control packets ---------------------------------------------------

  function DispatchId(w: World, now: uint64, packet: Text, r: Result): (World, Result) {
    if |packet| < 3 then
      (w, Refused(r, Malformed).(response := Fits(Nack(0, Ascii("MALFORMED_ID_REQUEST")), RESP_MAX)))
    else if w.alloc.None? then
      (w, Refused(r, Unsupported).(response := Fits(Nack(SeqNo(packet), Ascii("NO_ALLOCATOR")), RESP_MAX)))
    else
      var (a, aid) := A.Allocated(w.alloc.value, now);
      (w.(alloc := Some(a)),
       r.(response := if aid.Some? then Some(IdAssign(SeqNo(packet), aid.value))
                      else Fits(Nack(SeqNo(packet), Ascii("ID_POOL_EXHAUSTED")), 16)))
  }

  function DispatchControl(w: World, now: uint64, packet: Text): (World, Result)
    requires packet != []
  {
    var cmd := packet[0];
    var r := Result(Ctrl, cmd, Normalize(cmd), 0, true, NoReject, None);
    if cmd == PING then
      if |packet| != 3 then (w, Refused(r, Malformed))
      else (w, r.(response := Some([PONG] + BE(SeqNo(packet), 2))))
    else if cmd == TIME_REQUEST then
      if |packet| != 3 then (w, Refused(r, Malformed))
      else (w, r.(response := Some(TimeResponse(SeqNo(packet), now))))
    else if cmd == ID_REQUEST then DispatchId(w, now, packet, r)
    else if cmd == SECURE_DICT_READY then
      if |packet| != 13 || w.store.None? then (w, Refused(r, Malformed))
      else (w.(store := Some(S.Confirm(w.store.value, AidField(packet), TsField(packet), now))), r)
    else if cmd == SECURE_CHANNEL_ACK then
      if |packet| != 5 || w.store.None? then (w, Refused(r, Malformed))
      else (w.(store := Some(S.Mark(w.store.value, AidField(packet), now))), r)
    else if cmd == HANDSHAKE_ACK || cmd == HANDSHAKE_NACK || cmd == ID_ASSIGN || cmd == TIME_RESPONSE || cmd == PONG
    then
      (w, r)
    else (w, Refused(r, Unsupported).(kind := Unknown))
  }

  function AidField(packet: Text): uint32
    requires |packet| >= 5
  {
    PowBytes();
    FromBERoundTrip(packet[1..5]);
    FromBE(packet[1..5])
  }

  function TsField(packet: Text): uint64
    requires |packet| == 13
  {
    PowBytes();
    FromBERoundTrip(packet[5..13]);
    FromBE(packet[5..13])
  }

  /** osfx_hs_classify_dispatch; its return code is the ok of the result. */
  function Dispatched(w: World, now: uint64, packet: Text): (World, Result) {
    if packet == [] then (w, Result(ErrorKind, 0, 0, 0, false, NoReject, None))
    else if IsData(Normalize(packet[0])) then DispatchData(w, now, packet)
    else DispatchControl(w, now, packet)
  }

  /** Refusals for malformed, damaged or unsupported packets leave store and allocator alone. */
  lemma RefusalsLeaveWorld(w: World, now: uint64, packet: Text)
    ensures var (w', r) := Dispatched(w, now, packet);
            (r.reject == Malformed || r.reject == BadCrc || r.reject == Unsupported ==> !r.ok && w' == w)
  {
    hide P.DecodeMeta, S.Check, S.Confirm, S.Mark, S.ShouldEncrypt, S.ChannelConfirmed;
    hide A.Allocated, BE, AidField, TsField;
  }

  /** What a packet is taken for depends on its first byte alone. */
  lemma KindIff(w: World, now: uint64, packet: Text)
    ensures var r := Dispatched(w, now, packet).1;
            && (r.kind == ErrorKind <==> packet == [])
            && (r.kind == Data <==> packet != [] && packet[0] in {63, 64, 170, 171, 127, 128})
            && (r.kind == Ctrl <==> packet != [] && packet[0] in {1, 2, 5, 6, 9, 10, 11, 12, 13, 14})
            && (r.kind == Unknown <==> r.reject == Unsupported && r.kind != Ctrl)
            && (packet != [] ==> r.cmd == packet[0])
  {
    if packet != [] {
      MetaKeepsCmd(packet);
    }
    hide P.DecodeMeta, S.Check, S.Confirm, S.Mark, S.ShouldEncrypt, S.ChannelConfirmed;
    hide A.Allocated, BE, AidField, TsField;
  }

  /** When a packet that is no data packet is accepted: requests and replies that carry arguments
      need their exact length and the object they speak to, other replies only their command. */
  lemma ControlAcceptedIff(w: World, now: uint64, packet: Text)
    requires packet != [] && !IsData(Normalize(packet[0]))
    ensures Dispatched(w, now, packet).1.ok <==>
            || (packet[0] in {9, 11} && |packet| == 3)
            || (packet[0] == 1 && |packet| >= 3 && w.alloc.Some?)
            || (packet[0] == 13 && |packet| == 13 && w.store.Some?)
            || (packet[0] == 14 && |packet| == 5 && w.store.Some?)
            || packet[0] in {2, 5, 6, 10, 12}
  {
    hide A.Allocated, BE, AidField, TsField, S.Confirm, S.Mark;
  }

  /** The refusals of an address request name their reason behind its sequence number, which is 0
      if the request is too short to hold one. */
  lemma IdRequestRefused(w: World, now: uint64, packet: Text)
    requires packet != [] && packet[0] == ID_REQUEST && (|packet| < 3 || w.alloc.None?)
    ensures Dispatched(w, now, packet).1.response ==
            Some(if |packet| < 3 then [HANDSHAKE_NACK, 0, 0] + Ascii("MALFORMED_ID_REQUEST")
                 else [HANDSHAKE_NACK, packet[1], packet[2]] + Ascii("NO_ALLOCATOR"))
  {
    hide BE, Ascii;
    ReplyBytes(0, 0, 0, Ascii("MALFORMED_ID_REQUEST"));
    if |packet| >= 3 {
      ReplyBytes(SeqNo(packet), 0, 0, Ascii("NO_ALLOCATOR"));
    }
  }

  /** Without a session store every undamaged data packet is accepted as it is. */
  lemma DataWithoutStore(w: World, now: uint64, packet: Text)
    requires packet != [] && IsData(Normalize(packet[0])) && w.store.None?
    ensures var (w', r) := Dispatched(w, now, packet);
            w' == w && r.response.None? &&
            (r.ok <==> P.DecodeMeta(packet).Some? && P.DecodeMeta(packet).value.crc16Ok)
  {
    hide P.DecodeMeta;
  }

  /** PING and TIME_REQUEST are answered with their own sequence number; the time answer reads
      back as the time of the dispatcher. */
  lemma EchoedReplies(w: World, now: uint64, packet: Text)
    requires |packet| == 3 && (packet[0] == PING || packet[0] == TIME_REQUEST)
    ensures var (w', r) := Dispatched(w, now, packet);
            && w' == w && r.ok && r.response.Some?
            && var p := r.response.value;
               && |p| >= 3 && p[1] == packet[1] && p[2] == packet[2]
               && (packet[0] == PING ==> p[0] == PONG && |p| == 3)
               && (packet[0] == TIME_REQUEST ==> p[0] == TIME_RESPONSE && |p| == 11 && FromBE(p[3..11]) == now)
  {
    hide BE, FromBE;
    BE2(SeqNo(packet));
    assert BE(SeqNo(packet), 2) == [packet[1], packet[2]];
    BEWords(0, now);
    assert TimeResponse(SeqNo(packet), now)[3..11] == BE(now, 8);
  }

  // ---- Address requests --------------------------------------------------

  /** An address request is answered with ID_ASSIGN exactly when the allocator grants a lease:
      the assigned aid was free or expired before, and is leased afterwards. When the pool is
      exhausted the refusal does not fit its 16-byte buffer, so nothing is answered at all. */
  lemma IdRequestAnswer(w: World, now: uint64, packet: Text)
    requires |packet| >= 3 && packet[0] == ID_REQUEST && w.alloc.Some? && A.Exclusive(w.alloc.value)
    ensures var ((w', r), before) := (Dispatched(w, now, packet), A.Ledger(w.alloc.value.entries));
            && r.ok && w'.store == w.store && w'.alloc.Some? && A.Exclusive(w'.alloc.value)
            && match A.Allocated(w.alloc.value, now).1
               case None => r.response.None?
               case Some(aid) =>
                 && r.response == Some([ID_ASSIGN, packet[1], packet[2]] + BE(aid, 4))
                 && (aid !in before || now > before[aid])
                 && aid in A.Ledger(w'.alloc.value.entries)
  {
    hide A.Allocated, A.Ledger, A.Exclusive, A.Cleaned, BE, A.GrantEnd;
    var a := w.alloc.value;
    A.StepKeepsExclusive(a, A.AllocateOp(now));
    if a.policy.startId <= a.policy.endId {
      A.AllocateIsLeast(a, now);
      A.DistinctOf(a);
      A.CleanedLedger(a.entries, now);
    } else {
      A.EmptyRange(a, now);
    }
    var r := A.Allocated(a, now).1;
    if r.Some? {
      IdAssignText(packet, r.value);
    }
  }

  /** The reply echoes the sequence number of the request. */
  lemma IdAssignText(packet: Text, aid: uint32)
    requires |packet| >= 3
    ensures IdAssign(SeqNo(packet), aid) == [ID_ASSIGN, packet[1], packet[2]] + BE(aid, 4)
  {
    hide BE;
    BE2(SeqNo(packet));
    assert BE(SeqNo(packet), 2) == [packet[1], packet[2]];
  }

  // ---- The step on the shared objects ------------------------------------

  ghost function WorldOf(store: S.SecureStore?, alloc: A.Allocator?): World
    reads store, alloc, if store == null then {} else {store.sessions}, if alloc == null then {} else {alloc.entries}
  {
    World(if store == null then None else Some(store.sessions[..]), if alloc == null then None else Some(alloc.State()))
  }

  /** write_response behind a builder that reported n bytes. */
  method WriteResponse(r: Result, resp: array<byte>, n: nat) returns (r': Result)
    requires n <= resp.Length <= RESP_MAX
    ensures r' == if n > 0 then r.(response := Some(resp[..n])) else r
  {
    r' := r;
    if n > 0 {
      r' := r.(response := Some(resp[..n]));
    }
  }

  /** maybe_write_nack_seq */
  method WriteNack(r: Result, seqNo: uint16, reason: Text) returns (r': Result)
    requires r.response.None?
    ensures r' == r.(response := Fits(Nack(seqNo, reason), RESP_MAX))
  {
    var resp := new byte[RESP_MAX];
    var n := BuildNack(seqNo, reason, resp);
    r' := WriteResponse(r, resp, n);
  }

  method ClassifyData(store: S.SecureStore?, now: uint64, packet: Text) returns (r: Result)
    requires packet != [] && IsData(Normalize(packet[0])) && (store != null ==> store.Valid())
    modifies if store == null then {} else {store.sessions}
    ensures store != null ==> store.Valid()
    ensures (WorldOf(store, null), r) == DispatchData(old(WorldOf(store, null)), now, packet)
  {
    hide P.DecodeMeta, S.SoundStore, S.Check, S.Confirm, S.Mark, S.ShouldEncrypt, S.ChannelConfirmed, BE;
    var cmd, baseCmd := packet[0], Normalize(packet[0]);
    r := Result(Data, cmd, baseCmd, 0, false, NoReject, None);
    var decoded := P.DecodeMeta(packet);
    if decoded.None? {
      return Refused(r, Malformed);
    }
    var meta := decoded.value;
    MetaKeepsCmd(packet);
    r := r.(sourceAid := meta.aid);
    if !meta.crc16Ok {
      return Refused(r, BadCrc);
    }
    r := r.(ok := true);
    if store == null {
      return;
    }
    var verdict := store.CheckAndUpdateTimestamp(meta.aid, meta.ts, now);
    if verdict == S.Replay {
      return Refused(r, Replayed);
    }
    if verdict == S.OutOfOrder {
      return Refused(r, Late);
    }
    var due := store.EncryptionDue(meta.aid);
    if cmd == baseCmd {
      if !due {
        var _ := store.ConfirmDict(meta.aid, meta.ts, now);
        var resp := new byte[16];
        var n := BuildDictReady(meta.aid, meta.ts, resp);
        r := WriteResponse(r, resp, n);
      }
    } else {
      if !due {
        return Refused(r, NoSession);
      }
      var confirmed := store.ChannelIsConfirmed(meta.aid);
      if !confirmed {
        var _ := store.MarkChannel(meta.aid, now);
        var resp := new byte[8];
        var n := BuildChannelAck(meta.aid, resp);
        r := WriteResponse(r, resp, n);
      }
    }
  }

  lemma MetaKeepsCmd(packet: Text)
    ensures P.DecodeMeta(packet).Some? ==> P.DecodeMeta(packet).value.cmd == packet[0]
  {
  }

  /** The branches of PING and TIME_REQUEST. */
  method AnswerEcho(r: Result, now: uint64, packet: Text) returns (r': Result)
    requires packet != [] && (packet[0] == PING || packet[0] == TIME_REQUEST)
    ensures r' ==
            if |packet| != 3 then Refused(r, Malformed)
            else
              var q := SeqNo(packet);
              r.(response := Some(if packet[0] == PING then [PONG] + BE(q, 2) else TimeResponse(q, now)))
  {
    hide BE;
    if |packet| != 3 {
      return Refused(r, Malformed);
    }
    if packet[0] == PING {
      var resp := new byte[3];
      resp[0] := PONG;
      assert resp[..1] == [PONG];
      WriteU16BE(resp, 1, SeqNo(packet));
      r' := WriteResponse(r, resp, 3);
    } else {
      var resp := new byte[16];
      var n := BuildTimeResponse(SeqNo(packet), now, resp);
      r' := WriteResponse(r, resp, n);
    }
  }

  /** The branch of ID_REQUEST. */
  method ClassifyId(alloc: A.Allocator?, now: uint64, packet: Text, r: Result) returns (r': Result)
    requires r.response.None?
    requires alloc != null ==> alloc.Valid() && alloc.policy.endId < A.TWO32 - 1
    modifies if alloc == null then {} else {alloc, alloc.entries}
    ensures alloc != null ==> alloc.Valid()
    ensures (WorldOf(null, alloc), r') == DispatchId(old(WorldOf(null, alloc)), now, packet, r)
  {
    hide A.Allocated, A.Exclusive, BE, Ascii;
    if |packet| < 3 {
      r' := WriteNack(Refused(r, Malformed), 0, Ascii("MALFORMED_ID_REQUEST"));
      return;
    }
    if alloc == null {
      r' := WriteNack(Refused(r, Unsupported), SeqNo(packet), Ascii("NO_ALLOCATOR"));
      return;
    }
    var aid, _ := alloc.Allocate(now);
    var resp, n := new byte[16], 0;
    if aid.Some? {
      n := BuildIdAssign(SeqNo(packet), aid.value, resp);
    } else {
      n := BuildNack(SeqNo(packet), Ascii("ID_POOL_EXHAUSTED"), resp);
    }
    r' := WriteResponse(r, resp, n);
  }

  method ClassifyControl(store: S.SecureStore?, alloc: A.Allocator?, now: uint64, packet: Text) returns (r: Result)
    requires packet != [] && (store != null ==> store.Valid())
    requires alloc != null ==> alloc.Valid() && alloc.policy.endId < A.TWO32 - 1
    modifies if store == null then {} else {store.sessions}
    modifies if alloc == null then {} else {alloc, alloc.entries}
    ensures store != null ==> store.Valid()
    ensures alloc != null ==> alloc.Valid()
    ensures (WorldOf(store, alloc), r) == DispatchControl(old(WorldOf(store, alloc)), now, packet)
  {
    hide S.SoundStore, S.Confirm, S.Mark, A.Allocated, A.Exclusive, BE, AidField, TsField, Ascii;
    var cmd := packet[0];
    r := Result(Ctrl, cmd, Normalize(cmd), 0, true, NoReject, None);
    if cmd == PING || cmd == TIME_REQUEST {
      r := AnswerEcho(r, now, packet);
      return;
    }
    if cmd == ID_REQUEST {
      r := ClassifyId(alloc, now, packet, r);
      return;
    }
    if cmd == SECURE_DICT_READY {
      if |packet| != 13 || store == null {
        return Refused(r, Malformed);
      }
      var _ := store.ConfirmDict(AidField(packet), TsField(packet), now);
      return;
    }
    if cmd == SECURE_CHANNEL_ACK {
      if |packet| != 5 || store == null {
        return Refused(r, Malformed);
      }
      var _ := store.MarkChannel(AidField(packet), now);
      return;
    }
    if cmd == HANDSHAKE_ACK || cmd == HANDSHAKE_NACK || cmd == ID_ASSIGN || cmd == TIME_RESPONSE || cmd == PONG {
      return;
    }
    return Refused(r, Unsupported).(kind := Unknown);
  }

  method Classify(store: S.SecureStore?, alloc: A.Allocator?, now: uint64, packet: Text) returns (r: Result)
    requires store != null ==> store.Valid()
    requires alloc != null ==> alloc.Valid() && alloc.policy.endId < A.TWO32 - 1
    modifies if store == null then {} else {store.sessions}
    modifies if alloc == null then {} else {alloc, alloc.entries}
    ensures store != null ==> store.Valid()
    ensures alloc != null ==> alloc.Valid()
    ensures (WorldOf(store, alloc), r) == Dispatched(old(WorldOf(store, alloc)), now, packet)
  {
    hide S.SoundStore, A.Exclusive, DispatchControl, DataStep, P.DecodeMeta;
    if packet == [] {
      return Result(ErrorKind, 0, 0, 0, false, NoReject, None);
    }
    if IsData(Normalize(packet[0])) {
      r := ClassifyData(store, now, packet);
    } else {
      r := ClassifyControl(store, alloc, now, packet);
    }
  }
}
