/** Frames of src/osfx_fusion_packet.c:
    cmd, route count, source aid (4), tid, timestamp (6), body, CRC-8, CRC-16. */
module Packet {
  import opened Bytes
  import opened Numerals
  import opened Commands
  import opened Crc
  import opened PayloadCrypto

  const OVERHEAD: nat := 16

  datatype Meta = Meta(
    cmd: byte,
    routeCount: byte,
    aid: uint32,
    tid: byte,
    ts: uint64,
    bodyOffset: nat,
    bodyLen: nat,
    crc8Ok: bool,
    crc16Ok: bool)

  function Crc8Body(body: Text): byte {
    Crc8Of(0x07, 0, body)
  }

  function Crc16Frame(data: Text): uint16 {
    Crc16Of(0x1021, 0xFFFF, data)
  }

  function Header(cmd: byte, aid: uint32, tid: byte, ts: uint64): (h: Text)
    ensures |h| == 13
  {
    [cmd, 1] + BE(aid, 4) + [tid] + BE(ts, 6)
  }

  function Sealed(s: Text): (f: Text)
    ensures |f| == |s| + 2
  {
    s + BE(Crc16Frame(s), 2)
  }

  /** The frame that carries wire as its body and the given CRC-8. */
  function Assemble(cmd: byte, aid: uint32, tid: byte, ts: uint64, wire: Text, crc8: byte): (f: Text)
    ensures |f| == |wire| + OVERHEAD
  {
    Sealed(Header(cmd, aid, tid, ts) + wire + [crc8])
  }

  function Frame(cmd: byte, aid: uint32, tid: byte, ts: uint64, body: Text): (f: Text)
    ensures |f| == |body| + OVERHEAD
  {
    Assemble(cmd, aid, tid, ts, body, Crc8Body(body))
  }

  function FrameEx(cmd: byte, aid: uint32, tid: byte, ts: uint64, body: Text, secure: bool, key: Text): (f: Text)
    ensures |f| == |body| + OVERHEAD
  {
    var crc8 := Crc8Body(body);
    if secure then Assemble(SecureVariant(cmd), aid, tid, ts, Mask(body, key, crc8 % 32), crc8)
    else Assemble(cmd, aid, tid, ts, body, crc8)
  }

  /** osfx_packet_decode_min: positions follow the route count, checksums are only reported. */
  function DecodeMeta(packet: Text): (m: Option<Meta>)
    ensures m.Some? ==> m.value.bodyOffset + m.value.bodyLen + 3 == |packet|
  {
    if |packet| < 16 then None
    else
      var tidPos := 2 + packet[1] as nat * 4;
      if |packet| < tidPos + 10 then None
      else
        var n := |packet|;
        var bodyOffset := tidPos + 7;
        var bodyLen := n - bodyOffset - 3;
        PowBytes();
        FromBERoundTrip(packet[2..6]);
        FromBERoundTrip(packet[tidPos + 1..bodyOffset]);
        Some(Meta(
          packet[0], packet[1], FromBE(packet[2..6]), packet[tidPos], FromBE(packet[tidPos + 1..bodyOffset]),
          bodyOffset, bodyLen,
          Crc8Body(packet[bodyOffset..bodyOffset + bodyLen]) == packet[n - 3],
          Crc16Frame(packet[..n - 2]) == packet[n - 2] as int * 256 + packet[n - 1]))
  }

  function BodyOf(packet: Text, m: Meta): Text
    requires m.bodyOffset + m.bodyLen <= |packet|
  {
    packet[m.bodyOffset..m.bodyOffset + m.bodyLen]
  }

  /** osfx_packet_extract_body: both checksums must hold, the CRC-8 of the clear body. */
  function Extract(packet: Text, key: Text, cap: nat): Option<(Text, Meta)> {
    match DecodeMeta(packet)
    case None => None
    case Some(m) =>
      if !m.crc16Ok || m.bodyLen > cap then None
      else
        var crc8 := packet[|packet| - 3];
        var body := if Masked(m.cmd) then Mask(BodyOf(packet, m), key, crc8 % 32) else BodyOf(packet, m);
        if Crc8Body(body) != crc8 then None else Some((body, m.(crc8Ok := true)))
  }

  // ---- Round trips -------------------------------------------------------

  lemma HeaderFields(cmd: byte, aid: uint32, tid: byte, ts: uint64)
    ensures var h := Header(cmd, aid, tid, ts);
            h[0] == cmd && h[1] == 1 && h[2..6] == BE(aid, 4) && h[6] == tid && h[7..13] == BE(ts, 6)
    ensures FromBE(BE(aid, 4)) == aid && FromBE(BE(ts, 6)) == ts % 0x1_0000_0000_0000
  {
    hide BE, FromBE;
    BEWords(aid, ts);
    BERoundTrip(ts, 6);
    PowBytes();
  }

  /** Every assembled frame decodes to its own fields; only the time is cut to 48 bits. */
  lemma AssembleDecodes(cmd: byte, aid: uint32, tid: byte, ts: uint64, wire: Text, crc8: byte)
    ensures var f := Assemble(cmd, aid, tid, ts, wire, crc8);
            && f[|f| - 3] == crc8
            && DecodeMeta(f) == Some(Meta(cmd, 1, aid, tid, ts % 0x1_0000_0000_0000, 13, |wire|,
                                          Crc8Body(wire) == crc8, true))
            && BodyOf(f, DecodeMeta(f).value) == wire
  {
    hide BE, FromBE, Crc8Of, Crc16Of, Header;
    var h, f := Header(cmd, aid, tid, ts), Assemble(cmd, aid, tid, ts, wire, crc8);
    var s, n := h + wire + [crc8], |f|;
    HeaderFields(cmd, aid, tid, ts);
    assert f[..n - 2] == s;
    BE2(Crc16Frame(s));
    assert f[n - 2] == BE(Crc16Frame(s), 2)[0] && f[n - 1] == BE(Crc16Frame(s), 2)[1];
    assert f[..13] == h;
    assert f[2..6] == h[2..6] && f[7..13] == h[7..13];
    assert f[13..13 + |wire|] == wire;
  }

  /** Frame round trip: with the masking mode that the command byte announces, the
      receiver recovers body and header, taking the key offset from the CRC-8. */
  lemma FrameRoundTrip(cmd: byte, aid: uint32, tid: byte, ts: uint64, body: Text, secure: bool, key: Text, cap: nat)
    requires Masked(if secure then SecureVariant(cmd) else cmd) == secure
    requires |body| <= cap
    ensures Extract(FrameEx(cmd, aid, tid, ts, body, secure, key), key, cap) ==
            Some((body, Meta(if secure then SecureVariant(cmd) else cmd, 1, aid, tid, ts % 0x1_0000_0000_0000,
                             13, |body|, true, true)))
  {
    var crc8 := Crc8Body(body);
    if secure {
      AssembleDecodes(SecureVariant(cmd), aid, tid, ts, Mask(body, key, crc8 % 32), crc8);
      MaskInvolution(body, key, crc8 % 32);
      SecureVariantIsMasked(cmd);
    } else {
      AssembleDecodes(cmd, aid, tid, ts, body, crc8);
    }
  }

  /** The first entry of a route. */
  function SourceOf(route: Text): uint32
    requires |route| >= 4
  {
    PowBytes();
    FromBERoundTrip(route[..4]);
    FromBE(route[..4])
  }

  /** A frame with the given route in place of the single source aid. */
  function RoutedFrame(cmd: byte, route: Text, tid: byte, ts: uint64, wire: Text, crc8: byte): (f: Text)
    requires |route| <= 4 * 255
    ensures |f| == |route| + |wire| + 12
  {
    Sealed([cmd, |route| / 4] + route + [tid] + BE(ts, 6) + wire + [crc8])
  }

  lemma RoutedParts(cmd: byte, route: Text, tid: byte, ts: uint64, wire: Text, crc8: byte)
    requires 4 <= |route| <= 4 * 255
    ensures var f := RoutedFrame(cmd, route, tid, ts, wire, crc8);
            var at, n := 2 + |route|, |f|;
            && f[0] == cmd && f[1] == |route| / 4 && f[2..6] == route[..4] && f[at] == tid
            && f[at + 1..at + 7] == BE(ts, 6) && f[at + 7..at + 7 + |wire|] == wire && f[n - 3] == crc8
            && Crc16Frame(f[..n - 2]) == f[n - 2] as int * 256 + f[n - 1]
  {
    hide BE, Crc16Of;
    var s := [cmd, |route| / 4] + route + [tid] + BE(ts, 6) + wire + [crc8];
    var f, n := Sealed(s), |s| + 2;
    assert f[..n - 2] == s;
    BE2(Crc16Frame(s));
    assert f[n - 2] == BE(Crc16Frame(s), 2)[0] && f[n - 1] == BE(Crc16Frame(s), 2)[1];
  }

  /** A frame that went through relays decodes to its own fields: the source is the first entry of
      the route, and everything else moves behind the last. */
  lemma RoutedDecodes(cmd: byte, route: Text, tid: byte, ts: uint64, wire: Text, crc8: byte)
    requires |route| % 4 == 0 && 4 <= |route| <= 4 * 255
    ensures var f := RoutedFrame(cmd, route, tid, ts, wire, crc8);
            && DecodeMeta(f) == Some(Meta(cmd, |route| / 4, SourceOf(route), tid, ts % 0x1_0000_0000_0000,
                                          9 + |route|, |wire|, Crc8Body(wire) == crc8, true))
            && BodyOf(f, DecodeMeta(f).value) == wire
  {
    hide BE, FromBE, Crc8Of, Crc16Of, RoutedFrame;
    RoutedParts(cmd, route, tid, ts, wire, crc8);
    HeaderFields(cmd, 0, tid, ts);
  }

  /** What extraction accepts: of unrouted frames exactly the sealed ones with the header read out,
      the body, masked if the command says so, and the CRC-8 of the clear body. */
  lemma ExtractIff(packet: Text, key: Text, cap: nat, body: Text, m: Meta)
    requires m.routeCount == 1
    ensures Extract(packet, key, cap) == Some((body, m)) <==>
            && |body| <= cap
            && m == Meta(m.cmd, 1, m.aid, m.tid, m.ts % 0x1_0000_0000_0000, 13, |body|, true, true)
            && packet == Assemble(m.cmd, m.aid, m.tid, m.ts,
                                  if Masked(m.cmd) then Mask(body, key, Crc8Body(body) % 32) else body,
                                  Crc8Body(body))
  {
    hide BE, FromBE, Crc8Of, Crc16Of, Header, Mask, Masked;
    var wire := if Masked(m.cmd) then Mask(body, key, Crc8Body(body) % 32) else body;
    AssembleDecodes(m.cmd, m.aid, m.tid, m.ts, wire, Crc8Body(body));
    MaskInvolution(body, key, Crc8Body(body) % 32);
    if Extract(packet, key, cap) == Some((body, m)) {
      var d := DecodeMeta(packet).value;
      MaskInvolution(BodyOf(packet, d), key, packet[|packet| - 3] % 32);
      DecodedIsAssembled(packet);
    }
  }

  /** A frame with one route entry and a good CRC-16 is the frame of the fields read from it. */
  lemma DecodedIsAssembled(packet: Text)
    requires DecodeMeta(packet).Some? && DecodeMeta(packet).value.routeCount == 1 && DecodeMeta(packet).value.crc16Ok
    ensures var m := DecodeMeta(packet).value;
            && m.ts < 0x1_0000_0000_0000 && m.bodyOffset == 13
            && packet == Assemble(m.cmd, m.aid, m.tid, m.ts, BodyOf(packet, m), packet[|packet| - 3])
  {
    hide BE, FromBE, Crc8Of, Crc16Of;
    var m, n := DecodeMeta(packet).value, |packet|;
    FieldsBack(packet);
    var s := packet[..n - 2];
    assert s == packet[..13] + BodyOf(packet, m) + [packet[n - 3]];
    BE2(Crc16Frame(s));
    assert packet == s + BE(Crc16Frame(s), 2);
  }

  lemma FieldsBack(packet: Text)
    requires |packet| >= 16 && packet[1] == 1
    ensures FromBE(packet[2..6]) < 0x1_0000_0000 && FromBE(packet[7..13]) < 0x1_0000_0000_0000
    ensures packet[..13] == Header(packet[0], FromBE(packet[2..6]), packet[6], FromBE(packet[7..13]))
  {
    var aid, ts := packet[2..6], packet[7..13];
    PowBytes();
    FromBERoundTrip(aid);
    FromBERoundTrip(ts);
    hide BE, FromBE;
    assert packet[..13] == [packet[0], 1] + aid + [packet[6]] + ts;
  }

  /** A secure frame opened with another key gives its body back exactly when the two keys agree
      at the positions that the body meets. */
  lemma OtherKeyOpensIff(cmd: byte, aid: uint32, tid: byte, ts: uint64, body: Text, k1: Text, k2: Text, cap: nat)
    requires IsData(cmd) && k1 != [] && k2 != []
    ensures (exists m :: Extract(FrameEx(cmd, aid, tid, ts, body, true, k1), k2, cap) == Some((body, m))) <==>
            |body| <= cap && Agree(k1, k2, Crc8Body(body), |body|)
  {
    hide Crc8Of, Mask, Agree, Masked;
    var crc8 := Crc8Body(body);
    SecureVariantIsMasked(cmd);
    AssembleDecodes(SecureVariant(cmd), aid, tid, ts, Mask(body, k1, crc8 % 32), crc8);
    UnmaskedIff(body, k1, k2, crc8 % 32);
    SameOffset(k1, k2, crc8, |body|);
  }

  lemma SameOffset(k1: Text, k2: Text, offset: nat, n: nat)
    requires k1 != [] && k2 != []
    ensures Agree(k1, k2, offset % 32, n) <==> Agree(k1, k2, offset, n)
  {
    assert forall i: nat :: KeyAt(k1, offset % 32, i) == KeyAt(k1, offset, i);
    assert forall i: nat :: KeyAt(k2, offset % 32, i) == KeyAt(k2, offset, i);
  }

  /** A frame byte by byte, but for its checksums: the CRC-8 of the body, then the CRC-16 of all
      before it, every field with its high byte first. */
  lemma FrameBytes(cmd: byte, aid: uint32, tid: byte, ts: uint64, body: Text)
    ensures var f, n := Frame(cmd, aid, tid, ts, body), |body| + 16;
            && |f| == n
            && f[..13] == [cmd, 1] + AidBytes(aid) + [tid] + TimeBytes(ts)[2..]
            && f[13..n - 3] == body && f[n - 3] == Crc8Body(body)
            && f[n - 2..] == [Crc16Frame(f[..n - 2]) / 256, Crc16Frame(f[..n - 2]) % 256]
  {
    hide BE, Crc8Of, Crc16Of, Header;
    var h, crc8 := Header(cmd, aid, tid, ts), Crc8Body(body);
    var s, f := h + body + [crc8], Frame(cmd, aid, tid, ts, body);
    HeaderBytes(cmd, aid, tid, ts);
    BE2(Crc16Frame(s));
    assert f[..|s|] == s && f[..13] == h;
  }

  lemma HeaderBytes(cmd: byte, aid: uint32, tid: byte, ts: uint64)
    ensures Header(cmd, aid, tid, ts) == [cmd, 1] + AidBytes(aid) + [tid] + TimeBytes(ts)[2..]
  {
    hide BE;
    BE4(aid);
    BE4(ts);
    BE6(ts);
  }

  /** The two checksums are fixed by what they give for the empty message and for one bit. */
  lemma ChecksumParameters()
    ensures Crc8Body([]) == 0 && Crc8Body([1]) == 0x07
    ensures Crc16Frame([]) == 0xFFFF && Crc16Frame([0xFF, 0xFF]) == 0 && Crc16Frame([0xFF, 0xFF, 1]) == 0x1021
  {
    hide FeedByte;
    P2Bytes();
    OneByteLeavesPolynomial(8, 0x07);
    OneByteLeavesPolynomial(16, 0x1021);
    Residue(0x1021, 0xFFFF, [], 0xFF, 0xFF);
    assert [] + [0xFF, 0xFF] == [0xFF, 0xFF];
    CrcNext(8, 0x07, 0, [1], 0);
    CrcNext(16, 0x1021, 0xFFFF, [0xFF, 0xFF, 1], 2);
    assert [0xFF, 0xFF, 1][..2] == [0xFF, 0xFF] && [0xFF, 0xFF, 1][..3] == [0xFF, 0xFF, 1] && [1][..1] == [1];
  }

  // ---- Corruption --------------------------------------------------------

  /** crc16_ok holds exactly when the register over the whole frame is zero. */
  lemma Crc16OkIsResidue(packet: Text)
    requires DecodeMeta(packet).Some?
    ensures DecodeMeta(packet).value.crc16Ok <==> Crc16Frame(packet) == 0
  {
    var n := |packet|;
    Residue(0x1021, 0xFFFF, packet[..n - 2], packet[n - 2], packet[n - 1]);
    assert packet == packet[..n - 2] + [packet[n - 2], packet[n - 1]];
  }

  /** Burst detection: a frame with a good checksum that was changed only within 16
      consecutive bits is refused or flagged, wherever the burst falls and however long
      the frame is, its own checksum bytes included. */
  lemma BurstFlagged(f: Text, g: Text, p: nat)
    requires DecodeMeta(f).Some? && DecodeMeta(f).value.crc16Ok
    requires |f| == |g| && f != g && DifferWithin(BitStream(f), BitStream(g), p, 16)
    ensures DecodeMeta(g).Some? ==> !DecodeMeta(g).value.crc16Ok
    ensures forall key: Text, cap: nat :: Extract(g, key, cap).None?
  {
    Crc16OkIsResidue(f);
    P2Bytes();
    BurstDetected(16, 0x1021, 0xFFFF, f, g, p);
    if DecodeMeta(g).Some? {
      Crc16OkIsResidue(g);
    }
  }

  /** In clear frames the CRC-8 flag catches every change within 8 consecutive body bits. */
  lemma BodyBurstFlagged(f: Text, g: Text, p: nat)
    requires DecodeMeta(f).Some? && DecodeMeta(g).Some?
    requires var m, k := DecodeMeta(f).value, DecodeMeta(g).value;
             && m.crc8Ok
             && |BodyOf(f, m)| == |BodyOf(g, k)| && BodyOf(f, m) != BodyOf(g, k)
             && f[|f| - 3] == g[|g| - 3]
             && DifferWithin(BitStream(BodyOf(f, m)), BitStream(BodyOf(g, k)), p, 8)
    ensures !DecodeMeta(g).value.crc8Ok
  {
    var m, k := DecodeMeta(f).value, DecodeMeta(g).value;
    P2Bytes();
    BurstDetected(8, 0x07, 0, BodyOf(f, m), BodyOf(g, k), p);
  }

  // ---- The buffers of the sources ----------------------------------------

  method WriteHeader(cmd: byte, aid: uint32, tid: byte, ts: uint64, out: array<byte>) returns (off: nat)
    requires 13 <= out.Length
    modifies out
    ensures off == 13 && out[..13] == Header(cmd, aid, tid, ts)
    ensures forall k :: 13 <= k < out.Length ==> out[k] == old(out[k])
  {
    hide BE;
    out[0] := cmd;
    out[1] := 1;
    WriteU32BE(out, 2, aid);
    out[6] := tid;
    BE6(ts);
    BE4(ts);
    out[7] := ts / 0x100_0000_0000 % 256;
    out[8] := ts / 0x1_0000_0000 % 256;
    out[9] := ts / 0x100_0000 % 256;
    out[10] := ts / 0x1_0000 % 256;
    out[11] := ts / 0x100 % 256;
    out[12] := ts % 256;
    assert out[2..6] == BE(aid, 4) && out[7..13] == BE(ts, 6);
    assert out[..13] == [cmd, 1] + out[2..6] + [tid] + out[7..13];
    return 13;
  }

  /** Writes the CRC-8 at off and closes the frame with the CRC-16 over everything before. */
  method Seal(out: array<byte>, off: nat, crc8: byte) returns (n: nat)
    requires off + 3 <= out.Length
    modifies out
    ensures n == off + 3 && out[..n] == Sealed(old(out[..off]) + [crc8])
    ensures forall k :: n <= k < out.Length ==> out[k] == old(out[k])
  {
    hide BE;
    n := off;
    out[n] := crc8;
    n := n + 1;
    assert out[..n] == old(out[..off]) + [crc8];
    var crc16 := ComputeCrc16(out[..n], 0x1021, 0xFFFF);
    BE2(crc16);
    out[n] := crc16 / 0x100 % 256;
    n := n + 1;
    out[n] := crc16 % 256;
    n := n + 1;
  }

  method EncodeFull(cmd: byte, aid: uint32, tid: byte, ts: uint64, body: Text, out: array<byte>) returns (n: nat)
    modifies out
    ensures n == if out.Length < |body| + OVERHEAD then 0 else |body| + OVERHEAD
    ensures n > 0 ==> out[..n] == Frame(cmd, aid, tid, ts, body)
    ensures forall k :: n <= k < out.Length ==> out[k] == old(out[k])
  {
    hide BE, FromBE, Crc8Of, Crc16Of, Header;
    if out.Length < 13 + |body| + 3 {
      return 0;
    }
    var off := WriteHeader(cmd, aid, tid, ts, out);
    CopyInto(body, out, off);
    off := off + |body|;
    assert out[..off] == out[..13] + out[13..off];
    var crc8 := ComputeCrc8(body, 0x07, 0);
    assert crc8 == Crc8Body(body);
    n := Seal(out, off, crc8);
  }

  /** The byte-copying loop of the encoders. */
  method CopyInto(src: Text, out: array<byte>, at: nat)
    requires at + |src| <= out.Length
    modifies out
    ensures out[at..at + |src|] == src
    ensures out[..at] == old(out[..at])
    ensures forall k :: at + |src| <= k < out.Length ==> out[k] == old(out[k])
  {
    for i := 0 to |src|
      invariant out[at..at + i] == src[..i]
      invariant out[..at] == old(out[..at])
      invariant forall k :: at + i <= k < out.Length ==> out[k] == old(out[k])
    {
      out[at + i] := src[i];
    }
  }

  method EncodeEx(cmd: byte, aid: uint32, tid: byte, ts: uint64, body: Text, secure: bool, key: Text, out: array<byte>)
    returns (n: nat)
    modifies out
    ensures n == if out.Length < |body| + OVERHEAD then 0 else |body| + OVERHEAD
    ensures n > 0 ==> out[..n] == FrameEx(cmd, aid, tid, ts, body, secure, key)
    ensures forall k :: n <= k < out.Length ==> out[k] == old(out[k])
  {
    hide BE, FromBE, Crc8Of, Crc16Of, Header, Mask, SecureVariant;
    if out.Length < 13 + |body| + 3 {
      return 0;
    }
    var wireCmd := if secure then SecureVariant(cmd) else cmd;
    var off := WriteHeader(wireCmd, aid, tid, ts, out);
    var crc8 := ComputeCrc8(body, 0x07, 0);
    assert crc8 == Crc8Body(body);
    if secure {
      XorPayload(body, key, crc8 % 32, out, off);
      assert out[..13] == Header(wireCmd, aid, tid, ts);
    } else {
      CopyInto(body, out, off);
    }
    off := off + |body|;
    assert out[..off] == out[..13] + out[13..off];
    n := Seal(out, off, crc8);
  }

  /** On a bad CRC-8 the output buffer has already been overwritten, as in the source. */
  method ExtractBody(packet: Text, key: Text, outBody: array<byte>) returns (r: Option<Meta>, bodyLen: nat)
    modifies outBody
    ensures match Extract(packet, key, outBody.Length)
            case None => r.None?
            case Some((body, meta)) =>
              r == Some(meta) && bodyLen == |body| <= outBody.Length && outBody[..bodyLen] == body
  {
    hide DecodeMeta, Crc8Of, Mask, Masked;
    bodyLen := 0;
    var m := DecodeMeta(packet);
    if m.None? {
      return None, 0;
    }
    var meta := m.value;
    if !meta.crc16Ok {
      return None, 0;
    }
    var body := BodyOf(packet, meta);
    if |body| > outBody.Length {
      return None, 0;
    }
    var crc8 := packet[|packet| - 3];
    if Masked(meta.cmd) {
      XorPayload(body, key, crc8 % 32, outBody, 0);
      assert outBody[..|body|] == Mask(body, key, crc8 % 32);
    } else {
      CopyInto(body, outBody, 0);
      assert outBody[..|body|] == body;
    }
    var crc8Calc := ComputeCrc8(outBody[..|body|], 0x07, 0);
    assert crc8Calc == Crc8Body(outBody[..|body|]);
    if crc8Calc != crc8 {
      return None, 0;
    }
    return Some(meta.(crc8Ok := true)), |body|;
  }
}
