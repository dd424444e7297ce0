/** Command bytes and control packets of src/osfx_handshake_cmd.c. */
module Commands {
  import opened Bytes
  import opened Numerals

  const DATA_FULL: byte := 63
  const DATA_FULL_SEC: byte := 64
  const DATA_DIFF: byte := 170
  const DATA_DIFF_SEC: byte := 171
  const DATA_HEART: byte := 127
  const DATA_HEART_SEC: byte := 128
  const ID_REQUEST: byte := 1
  const ID_ASSIGN: byte := 2
  const HANDSHAKE_ACK: byte := 5
  const HANDSHAKE_NACK: byte := 6
  const PING: byte := 9
  const PONG: byte := 10
  const TIME_REQUEST: byte := 11
  const TIME_RESPONSE: byte := 12
  const SECURE_DICT_READY: byte := 13
  const SECURE_CHANNEL_ACK: byte := 14

  function Normalize(cmd: byte): byte {
    if cmd == DATA_FULL_SEC then DATA_FULL
    else if cmd == DATA_DIFF_SEC then DATA_DIFF
    else if cmd == DATA_HEART_SEC then DATA_HEART
    else cmd
  }

  function SecureVariant(cmd: byte): byte {
    if cmd == DATA_FULL then DATA_FULL_SEC
    else if cmd == DATA_DIFF then DATA_DIFF_SEC
    else if cmd == DATA_HEART then DATA_HEART_SEC
    else cmd
  }

  predicate IsData(cmd: byte) {
    cmd == DATA_FULL || cmd == DATA_DIFF || cmd == DATA_HEART
  }

  /** A command on the wire announces a masked body exactly when it is a secure variant. */
  predicate Masked(cmd: byte) {
    cmd != Normalize(cmd)
  }

  lemma SecureVariantIsMasked(cmd: byte)
    ensures Masked(SecureVariant(cmd)) <==> IsData(cmd) || Masked(cmd)
    ensures IsData(cmd) ==> Normalize(SecureVariant(cmd)) == cmd && SecureVariant(cmd) != cmd
  {
  }

  // ---- Control packets ---------------------------------------------------

  function Nack(seqNo: uint16, reason: Text): Text {
    [HANDSHAKE_NACK] + BE(seqNo, 2) + reason
  }

  function IdAssign(seqNo: uint16, aid: uint32): Text {
    [ID_ASSIGN] + BE(seqNo, 2) + BE(aid, 4)
  }

  function TimeResponse(seqNo: uint16, unixTs: uint64): Text {
    [TIME_RESPONSE] + BE(seqNo, 2) + BE(unixTs, 8)
  }

  function DictReady(aid: uint32, ts: uint64): (p: Text)
    ensures |p| == 13
  {
    [SECURE_DICT_READY] + BE(aid, 4) + BE(ts, 8)
  }

  function ChannelAck(aid: uint32): (p: Text)
    ensures |p| == 5
  {
    [SECURE_CHANNEL_ACK] + BE(aid, 4)
  }

  /** The fields that the dispatcher reads back out of its peer's replies. */
  lemma DictReadyFields(aid: uint32, ts: uint64)
    ensures FromBE(DictReady(aid, ts)[1..5]) == aid
    ensures FromBE(DictReady(aid, ts)[5..13]) == ts
    ensures FromBE(ChannelAck(aid)[1..5]) == aid
  {
    var p := DictReady(aid, ts);
    assert p[1..5] == BE(aid, 4) && p[5..13] == BE(ts, 8);
    assert ChannelAck(aid)[1..5] == BE(aid, 4);
    BEWords(aid, ts);
  }

  /** The replies byte by byte: command, then the fields with their high bytes first. */
  lemma ReplyBytes(seqNo: uint16, aid: uint32, ts: uint64, reason: Text)
    ensures Nack(seqNo, reason) == [6, seqNo / 256, seqNo % 256] + reason
    ensures IdAssign(seqNo, aid) == [2, seqNo / 256, seqNo % 256] + AidBytes(aid)
    ensures TimeResponse(seqNo, ts) == [12, seqNo / 256, seqNo % 256] + TimeBytes(ts)
    ensures DictReady(aid, ts) == [13] + AidBytes(aid) + TimeBytes(ts)
    ensures ChannelAck(aid) == [14] + AidBytes(aid)
  {
    hide BE, AidBytes, TimeBytes;
    BE2(seqNo);
    AidIsBytes(aid);
    TimeIsBytes(ts);
  }

  lemma AidIsBytes(aid: uint32)
    ensures BE(aid, 4) == AidBytes(aid)
  {
    hide BE;
    BE4(aid);
  }

  lemma TimeIsBytes(ts: uint64)
    ensures BE(ts, 8) == TimeBytes(ts)
  {
    hide BE;
    BE8(ts);
    BE4(ts / 0x1_0000_0000);
    BE4(ts);
    Requotients(ts);
  }

  lemma Requotients(ts: uint64)
    ensures ts / 0x1_0000_0000 / 0x100_0000 % 256 == ts / 0x100_0000_0000_0000
    ensures ts / 0x1_0000_0000 / 0x1_0000 % 256 == ts / 0x1_0000_0000_0000 % 256
    ensures ts / 0x1_0000_0000 / 0x100 % 256 == ts / 0x100_0000_0000 % 256
  {
  }

  function AidBytes(aid: uint32): Text {
    [aid / 0x100_0000, aid / 0x1_0000 % 256, aid / 0x100 % 256, aid % 256]
  }

  function TimeBytes(ts: uint64): Text {
    [ts / 0x100_0000_0000_0000, ts / 0x1_0000_0000_0000 % 256, ts / 0x100_0000_0000 % 256, ts / 0x1_0000_0000 % 256,
     ts / 0x100_0000 % 256, ts / 0x1_0000 % 256, ts / 0x100 % 256, ts % 256]
  }

  // ---- The builders ------------------------------------------------------

  /** What a builder reports: the length of the packet, or 0 if the buffer is too short. */
  function BuiltLength(p: Text, cap: nat): nat {
    if |p| > cap then 0 else |p|
  }

  method BuildNack(seqNo: uint16, reason: Text, out: array<byte>) returns (n: nat)
    modifies out
    ensures n == BuiltLength(Nack(seqNo, reason), out.Length)
    ensures n > 0 ==> out[..n] == Nack(seqNo, reason)
  {
    hide BE;
    if out.Length < 3 || 3 + |reason| > out.Length {
      return 0;
    }
    out[0] := HANDSHAKE_NACK;
    WriteU16BE(out, 1, seqNo);
    for i := 0 to |reason|
      invariant out[..3] == [HANDSHAKE_NACK] + BE(seqNo, 2)
      invariant out[3..3 + i] == reason[..i]
    {
      out[3 + i] := reason[i];
    }
    n := 3 + |reason|;
    assert out[..n] == out[..3] + out[3..n];
  }

  method BuildIdAssign(seqNo: uint16, aid: uint32, out: array<byte>) returns (n: nat)
    modifies out
    ensures n == BuiltLength(IdAssign(seqNo, aid), out.Length)
    ensures n > 0 ==> out[..n] == IdAssign(seqNo, aid)
  {
    hide BE;
    if out.Length < 7 {
      return 0;
    }
    out[0] := ID_ASSIGN;
    WriteU16BE(out, 1, seqNo);
    ghost var head := out[..3];
    WriteU32BE(out, 3, aid);
    assert out[..3] == head && out[..7] == out[..3] + out[3..7];
    return 7;
  }

  /** The eight shifted bytes of a 64-bit field. */
  method WriteU64BE(out: array<byte>, at: nat, v: uint64)
    requires at + 8 <= out.Length
    modifies out
    ensures out[..at + 8] == old(out[..at]) + BE(v, 8)
  {
    hide BE;
    BE8(v);
    ghost var head := out[..at];
    WriteU32BE(out, at, v / 0x1_0000_0000);
    ghost var high := out[at..at + 4];
    WriteU32BE(out, at + 4, v % 0x1_0000_0000);
    LowWord(v);
    assert out[..at] == head && out[at..at + 4] == high;
    assert out[..at + 8] == out[..at] + out[at..at + 4] + out[at + 4..at + 8];
  }

  lemma LowWord(v: nat)
    ensures BE(v % 0x1_0000_0000, 4) == BE(v, 4)
  {
    PowBytes();
    DigitsMod(v, 256, 4);
  }

  method BuildTimeResponse(seqNo: uint16, unixTs: uint64, out: array<byte>) returns (n: nat)
    modifies out
    ensures n == BuiltLength(TimeResponse(seqNo, unixTs), out.Length)
    ensures n > 0 ==> out[..n] == TimeResponse(seqNo, unixTs)
  {
    hide BE;
    if out.Length < 11 {
      return 0;
    }
    out[0] := TIME_RESPONSE;
    WriteU16BE(out, 1, seqNo);
    WriteU64BE(out, 3, unixTs);
    return 11;
  }

  method BuildDictReady(aid: uint32, ts: uint64, out: array<byte>) returns (n: nat)
    modifies out
    ensures n == BuiltLength(DictReady(aid, ts), out.Length)
    ensures n > 0 ==> out[..n] == DictReady(aid, ts)
  {
    hide BE;
    if out.Length < 13 {
      return 0;
    }
    out[0] := SECURE_DICT_READY;
    WriteU32BE(out, 1, aid);
    assert out[..5] == out[..1] + out[1..5];
    WriteU64BE(out, 5, ts);
    return 13;
  }

  method BuildChannelAck(aid: uint32, out: array<byte>) returns (n: nat)
    modifies out
    ensures n == BuiltLength(ChannelAck(aid), out.Length)
    ensures n > 0 ==> out[..n] == ChannelAck(aid)
  {
    hide BE;
    if out.Length < 5 {
      return 0;
    }
    out[0] := SECURE_CHANNEL_ACK;
    WriteU32BE(out, 1, aid);
    assert out[..5] == out[..1] + out[1..5];
    return 5;
  }
}
