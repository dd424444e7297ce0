/** End to end: what the application encodes through src/osfx_core_facade.c is what
    it decodes, whichever packet kind the fusion layer chose. */
module Facade {
  import opened Bytes
  import opened Numerals
  import opened Commands
  import opened Solidity
  import opened SensorBody
  import P = Packet
  import FT = FusionText
  import T = Template
  import opened FusionTable
  import opened FusionRuns
  import opened FusionHistory
  import FusionReceiver
  import opened FusionState

  // ---- A printed message as the fusion layer sees it ---------------------

  /** The fusion parser takes the segment of this slot. */
  predicate Accepted(f: T.Features, x: T.Slot) {
    FT.ParseSegment(T.SlotText(f, x)).Some?
  }

  /** The slots whose segments are taken, in order, at most max of them. */
  function AcceptedSlots(f: T.Features, xs: seq<T.Slot>, max: nat): (ys: seq<T.Slot>)
    ensures |ys| <= |xs| && |ys| <= max
    ensures forall i :: 0 <= i < |ys| ==> ys[i] in xs
  {
    if xs == [] || max == 0 then []
    else if Accepted(f, xs[0]) then [xs[0]] + AcceptedSlots(f, xs[1..], max - 1)
    else AcceptedSlots(f, xs[1..], max)
  }

  lemma {:induction false} AllAcceptedIff(f: T.Features, xs: seq<T.Slot>, max: nat)
    requires |xs| <= max
    ensures AcceptedSlots(f, xs, max) == xs <==> forall i :: 0 <= i < |xs| ==> Accepted(f, xs[i])
    decreases |xs|
  {
    hide Accepted, AcceptedSlots;
    AcceptedStep(f, xs, max);
    if xs != [] {
      var rest, tail := xs[1..], AcceptedSlots(f, xs[1..], max - 1);
      AllAcceptedIff(f, rest, max - 1);
      AllSplit(f, xs);
      if Accepted(f, xs[0]) {
        SameHead(xs, tail);
      }
    }
  }

  lemma AcceptedStep(f: T.Features, xs: seq<T.Slot>, max: nat)
    ensures xs == [] ==> AcceptedSlots(f, xs, max) == []
    ensures xs != [] && max > 0 && Accepted(f, xs[0]) ==>
              AcceptedSlots(f, xs, max) == [xs[0]] + AcceptedSlots(f, xs[1..], max - 1)
    ensures xs != [] && max > 0 && !Accepted(f, xs[0]) ==> |AcceptedSlots(f, xs, max)| < |xs|
  {
    hide Accepted;
  }

  lemma AllSplit(f: T.Features, xs: seq<T.Slot>)
    requires xs != []
    ensures (forall i :: 0 <= i < |xs| ==> Accepted(f, xs[i])) <==>
            Accepted(f, xs[0]) && forall i :: 0 <= i < |xs[1..]| ==> Accepted(f, xs[1..][i])
  {
    hide Accepted;
    var rest := xs[1..];
    assert forall i :: 0 <= i < |rest| ==> rest[i] == xs[i + 1];
    assert forall i :: 0 < i < |xs| ==> xs[i] == rest[i - 1];
  }

  lemma SameHead(xs: seq<T.Slot>, tail: seq<T.Slot>)
    requires xs != []
    ensures [xs[0]] + tail == xs <==> tail == xs[1..]
  {
    assert ([xs[0]] + tail)[1..] == tail;
    assert [xs[0]] + xs[1..] == xs;
  }

  /** A clean slot is accepted as a matter of three lengths: of its id, and of the two parts
      into which the last ':' of the text behind '>' cuts it. That ':' may well be one of the
      message or of the URL. */
  lemma AcceptedIff(f: T.Features, x: T.Slot)
    requires T.CleanSlot(f, x)
    ensures var rest := x.state + [DOT] + x.unit + [COLON] + x.value + T.Extensions(f, x);
            var c := Last(rest, COLON);
            Accepted(f, x) <==>
            0 < |x.id| < FT.MAX_TAG_LEN && c < FT.MAX_VAL_LEN && 0 < |rest| - c - 1 < FT.MAX_VAL_LEN
  {
    hide FT.ParseSegment, T.Extensions, Last;
    var meta, val := x.state + [DOT] + x.unit, x.value + T.Extensions(f, x);
    var rest := x.state + [DOT] + x.unit + [COLON] + x.value + T.Extensions(f, x);
    assert T.SlotText(f, x) == x.id + [GT] + rest;
    assert rest[|meta|] == COLON;
    SegmentAccepted(x.id, rest);
  }

  lemma SegmentAccepted(tag: Text, rest: Text)
    requires Free(tag, GT) && 0 < Last(rest, COLON)
    ensures var c := Last(rest, COLON);
            FT.ParseSegment(tag + [GT] + rest).Some? <==>
            0 < |tag| < FT.MAX_TAG_LEN && c < FT.MAX_VAL_LEN && 0 < |rest| - c - 1 < FT.MAX_VAL_LEN
  {
    hide First, Last;
    FirstAfter(tag, GT, rest);
  }

  /** When neither the value nor an extension contains ':', that ':' is the one before the value. */
  lemma AcceptedPlainIff(f: T.Features, x: T.Slot)
    requires T.CleanSlot(f, x) && Free(x.value + T.Extensions(f, x), COLON)
    ensures Accepted(f, x) <==>
            && 0 < |x.id| < FT.MAX_TAG_LEN
            && |x.state| + 1 + |x.unit| < FT.MAX_VAL_LEN
            && 0 < |x.value + T.Extensions(f, x)| < FT.MAX_VAL_LEN
  {
    hide FT.ParseSegment, T.Extensions, Last, Accepted;
    var meta, val := x.state + [DOT] + x.unit, x.value + T.Extensions(f, x);
    AcceptedIff(f, x);
    LastBefore(meta, COLON, val);
    assert x.state + [DOT] + x.unit + [COLON] + x.value + T.Extensions(f, x) == meta + [COLON] + val;
  }

  /** The first closed segment is taken or skipped, and parsing goes on behind it. */
  lemma ParsedFirst(seg: Text, rest: Text, max: nat)
    requires seg != [] && Free(seg, BAR) && max > 0
    ensures FT.ParseSegments(seg + [BAR] + rest, max) ==
            match FT.ParseSegment(seg)
            case None => FT.ParseSegments(rest, max)
            case Some(x) => [x] + FT.ParseSegments(rest, max - 1)
  {
    hide First, FT.ParseSegment, FT.ParseSegments;
    var s := seg + [BAR] + rest;
    FT.SegmentsStep(s, max);
    FirstAfter(seg, BAR, rest);
    assert FT.After(s, |seg|) == rest;
  }

  /** Printing what the fusion layer parsed out of printed slots prints the accepted ones. */
  lemma {:induction false} ReprintedSlots(f: T.Features, xs: seq<T.Slot>, max: nat)
    requires T.CleanSlots(f, xs)
    ensures FT.SensorsText(FT.ParseSegments(T.SlotsText(f, xs), max)) == T.SlotsText(f, AcceptedSlots(f, xs, max))
    decreases |xs|
  {
    hide First, FT.ParseSegment, FT.ParseSegments, FT.SegmentText, FT.WellFormed, T.SlotText, T.CleanSlot;
    hide FT.SensorsText, FT.After;
    var s := T.SlotsText(f, xs);
    FT.SensorsTextEmpty();
    if xs == [] || max == 0 {
      FT.SegmentsStep(s, max);
    } else {
      var seg, rest := T.SlotText(f, xs[0]), T.SlotsText(f, xs[1..]);
      T.SlotRoundTrip(f, xs[0]);
      ParsedFirst(seg, rest, max);
      if Accepted(f, xs[0]) {
        FT.SegmentWellFormed(seg);
        ReprintedSlots(f, xs[1..], max - 1);
        SensorsTextCons(FT.ParseSegment(seg).value, FT.ParseSegments(rest, max - 1));
        SlotsTextCons(f, xs[0], AcceptedSlots(f, xs[1..], max - 1));
      } else {
        ReprintedSlots(f, xs[1..], max);
      }
    }
  }

  lemma SensorsTextCons(x: FT.Sensor, xs: seq<FT.Sensor>)
    ensures FT.SensorsText([x] + xs) == FT.SegmentText(x) + [BAR] + FT.SensorsText(xs)
  {
    hide FT.SegmentText;
    assert ([x] + xs)[1..] == xs;
  }

  lemma SlotsTextCons(f: T.Features, x: T.Slot, xs: seq<T.Slot>)
    ensures T.SlotsText(f, [x] + xs) == T.SlotText(f, x) + [BAR] + T.SlotsText(f, xs)
  {
    hide T.SlotText;
    assert ([x] + xs)[1..] == xs;
  }

  /** A clean message made of C strings, with no '.' in its time token. */
  ghost predicate Sendable(f: T.Features, m: T.Msg) {
    T.CleanMsg(f, m) && Free(m.ts, DOT) && Free(T.MsgText(f, m), NUL)
  }

  function SigOf(m: T.Msg): Text {
    m.nodeId + [DOT] + m.nodeState + [DOT]
  }

  /** How the fusion layer reads a printed message. */
  lemma ParsedMsg(f: T.Features, m: T.Msg)
    requires Sendable(f, m) && FT.ParseBody(T.MsgText(f, m)).Some?
    ensures var p := FT.ParseBody(T.MsgText(f, m)).value;
            p.sig == SigOf(m) && p.sensors == FT.ParseSegments(T.SlotsText(f, m.sensors), FT.MAX_SENSORS)
  {
    hide First, Last, FT.ParseSegments, T.SlotsText;
    var rest := T.SlotsText(f, m.sensors);
    assert T.MsgText(f, m) == SigOf(m) + m.ts + [BAR] + rest;
    FT.HeaderSplit(SigOf(m), m.ts, rest);
  }

  /** The text rebuilt from the cache is the printed message with a decimal time and the
      accepted slots only. */
  lemma RebuiltIsPrinted(f: T.Features, m: T.Msg, ts: nat)
    requires Sendable(f, m) && FT.ParseBody(T.MsgText(f, m)).Some?
    ensures var p := FT.ParseBody(T.MsgText(f, m)).value;
            FT.BodyText(p.sig, ts, p.sensors) ==
            T.MsgText(f, m.(ts := Decimal(ts), sensors := AcceptedSlots(f, m.sensors, FT.MAX_SENSORS)))
  {
    hide FT.ParseBody, FT.ParseSegments, FT.SensorsText, T.SlotsText, AcceptedSlots, Decimal;
    ParsedMsg(f, m);
    ReprintedSlots(f, m.sensors, FT.MAX_SENSORS);
  }

  lemma DecimalTimeClean(ts: nat)
    requires ts < 0x1_0000_0000_0000
    ensures |Decimal(ts)| <= 15 && Free(Decimal(ts), BAR)
  {
    assert Pow(10, 3) == 1000;
    assert Pow(10, 6) == 1000 * Pow(10, 3);
    assert Pow(10, 9) == 1000 * Pow(10, 6);
    assert Pow(10, 12) == 1000 * Pow(10, 9);
    assert Pow(10, 15) == 1000 * Pow(10, 12);
    NumeralLength(ts, 10, 15);
    FT.DecimalClear(ts);
  }

  lemma AcceptedClean(f: T.Features, m: T.Msg, ts: nat)
    requires T.CleanMsg(f, m) && ts < 0x1_0000_0000_0000
    ensures T.CleanMsg(f, m.(ts := Decimal(ts), sensors := AcceptedSlots(f, m.sensors, FT.MAX_SENSORS)))
  {
    hide T.CleanSlot, Decimal;
    DecimalTimeClean(ts);
  }

  // ---- Transparency ------------------------------------------------------

  /** What template decoding makes of a received body: a C string in a buffer of cap bytes. */
  function ReadBody(f: T.Features, body: Option<Text>, cap: nat): Option<T.Msg> {
    if body.None? || |body.value| + 1 > cap then None else T.ReadMsg(f, CStr(body.value))
  }

  function Received(f: T.Features, rx: Table, packet: Text, cap: nat): Option<T.Msg>
    requires ValidTable(rx)
  {
    ReadBody(f, Decode(rx, packet, cap).body, cap)
  }

  lemma {:induction false} AcceptedFree(f: T.Features, xs: seq<T.Slot>, max: nat)
    requires Free(T.SlotsText(f, xs), NUL)
    ensures Free(T.SlotsText(f, AcceptedSlots(f, xs, max)), NUL)
    decreases |xs|
  {
    hide T.SlotText, Accepted;
    if xs != [] && max > 0 {
      assert T.SlotsText(f, xs) == T.SlotText(f, xs[0]) + [BAR] + T.SlotsText(f, xs[1..]);
      if Accepted(f, xs[0]) {
        AcceptedFree(f, xs[1..], max - 1);
        SlotsTextCons(f, xs[0], AcceptedSlots(f, xs[1..], max - 1));
      } else {
        AcceptedFree(f, xs[1..], max);
      }
    }
  }

  lemma RebuiltFree(f: T.Features, m: T.Msg, ts: nat)
    requires Free(T.MsgText(f, m), NUL)
    ensures Free(T.MsgText(f, m.(ts := Decimal(ts), sensors := AcceptedSlots(f, m.sensors, FT.MAX_SENSORS))), NUL)
  {
    hide T.SlotsText, AcceptedSlots, Decimal;
    var head := m.nodeId + [DOT] + m.nodeState + [DOT];
    assert T.MsgText(f, m) == head + m.ts + [BAR] + T.SlotsText(f, m.sensors);
    AcceptedFree(f, m.sensors, FT.MAX_SENSORS);
    FT.DecimalClear(ts);
  }

  /** What the output buffer must hold beside the text: the terminator, and in a rebuilt body
      up to 15 digits of time. */
  function Headroom(cmd: byte): nat {
    if cmd == DATA_FULL then 1 else 16
  }

  /** Transparency of any run: the receiver decodes the message that was encoded. A FULL
      brings it exactly; after a DIFF or HEART the time is the decimal 48-bit time and
      the slots are those the fusion layer accepts. */
  lemma MessageTransparency(f: T.Features, h: History, ev: Event, m: T.Msg)
    requires Faithful(h) && Sendable(f, m) && ev.send.body == T.MsgText(f, m)
    requires EncodeSend(TxAfter(h), ev.send).packet.Some?
    requires ev.outCap >= |T.MsgText(f, m)| + Headroom(EncodeSend(TxAfter(h), ev.send).cmd)
    ensures var sent := EncodeSend(TxAfter(h), ev.send);
            Received(f, RxAfter(h), sent.packet.value, ev.outCap) ==
            if sent.cmd == DATA_FULL then Some(m)
            else Some(m.(ts := Decimal(WireTime(ev.send.ts)), sensors := AcceptedSlots(f, m.sensors, FT.MAX_SENSORS)))
  {
    hide Encode, Decode, FT.ParseBody, FT.BodyText, T.MsgText, T.ReadMsg, T.CleanMsg, AcceptedSlots, Decimal;
    var sent, ts := EncodeSend(TxAfter(h), ev.send), WireTime(ev.send.ts);
    FaithfulDelivery(h, ev);
    if sent.cmd == DATA_FULL {
      T.CleanRoundTrip(f, m);
    } else {
      var m' := m.(ts := Decimal(ts), sensors := AcceptedSlots(f, m.sensors, FT.MAX_SENSORS));
      RebuiltIsPrinted(f, m, ts);
      AcceptedClean(f, m, ts);
      T.CleanRoundTrip(f, m');
      RebuiltLength(f, m, ts);
      RebuiltFree(f, m, ts);
    }
  }

  /** The decimal time of a rebuilt message reads back as the 48-bit time of the send. */
  lemma TimeReadsBack(f: T.Features, h: History, ev: Event, m: T.Msg)
    requires Faithful(h) && Sendable(f, m) && ev.send.body == T.MsgText(f, m)
    requires EncodeSend(TxAfter(h), ev.send).packet.Some? && EncodeSend(TxAfter(h), ev.send).cmd != DATA_FULL
    requires ev.outCap >= |T.MsgText(f, m)| + 16
    ensures var r := Received(f, RxAfter(h), EncodeSend(TxAfter(h), ev.send).packet.value, ev.outCap);
            && r.Some? && (forall k :: 0 <= k < |r.value.ts| ==> 48 <= r.value.ts[k] <= 57)
            && DecimalValue(r.value.ts) == ev.send.ts % 0x1_0000_0000_0000
  {
    hide Encode, Decode, T.MsgText, AcceptedSlots, Received, DecimalValue;
    MessageTransparency(f, h, ev, m);
    DecimalRoundTrip(WireTime(ev.send.ts));
  }

  lemma {:induction false} AcceptedLength(f: T.Features, xs: seq<T.Slot>, max: nat)
    ensures |T.SlotsText(f, AcceptedSlots(f, xs, max))| <= |T.SlotsText(f, xs)|
    decreases |xs|
  {
    hide T.SlotText, Accepted;
    if xs != [] && max > 0 {
      if Accepted(f, xs[0]) {
        AcceptedLength(f, xs[1..], max - 1);
        SlotsTextCons(f, xs[0], AcceptedSlots(f, xs[1..], max - 1));
      } else {
        AcceptedLength(f, xs[1..], max);
      }
    }
  }

  lemma RebuiltLength(f: T.Features, m: T.Msg, ts: nat)
    requires ts < 0x1_0000_0000_0000
    ensures |T.MsgText(f, m.(ts := Decimal(ts), sensors := AcceptedSlots(f, m.sensors, FT.MAX_SENSORS)))|
         <= |T.MsgText(f, m)| + 15
  {
    hide T.SlotsText, AcceptedSlots, Decimal;
    AcceptedLength(f, m.sensors, FT.MAX_SENSORS);
    DecimalTimeClean(ts);
  }

  /** Node, state, sensors, units and values arrive unchanged after a DIFF or HEART exactly
      when the fusion layer accepts every slot. */
  lemma TransparentIff(f: T.Features, h: History, ev: Event, m: T.Msg)
    requires Faithful(h) && Sendable(f, m) && ev.send.body == T.MsgText(f, m)
    requires EncodeSend(TxAfter(h), ev.send).packet.Some? && EncodeSend(TxAfter(h), ev.send).cmd != DATA_FULL
    requires ev.outCap >= |T.MsgText(f, m)| + 16
    ensures var r := Received(f, RxAfter(h), EncodeSend(TxAfter(h), ev.send).packet.value, ev.outCap);
            && r.Some? && r.value.nodeId == m.nodeId && r.value.nodeState == m.nodeState
            && (r.value.sensors == m.sensors <==> forall i :: 0 <= i < |m.sensors| ==> Accepted(f, m.sensors[i]))
  {
    hide Encode, Decode, T.MsgText, Accepted, AcceptedSlots, Received, Decimal;
    MessageTransparency(f, h, ev, m);
    AllAcceptedIff(f, m.sensors, FT.MAX_SENSORS);
  }

  // ---- One sensor --------------------------------------------------------

  /** The message that osfx_core_encode_sensor_packet_auto prints for a scaled value. */
  function SensorMsg(aid: uint32, ts: uint64, id: Text, unit: Text, scaled: int): T.Msg {
    T.Msg(Decimal(aid), [UPPER_U], TsToken(ts), [T.Slot(id, [UPPER_U], unit, Text62(scaled), [], [], [])])
  }

  ghost predicate SensorInput(id: Text, unit: Text, scaled: int) {
    && |id| < T.ID_MAX && Free(id, GT) && Free(id, BAR)
    && |unit| < T.UNIT_MAX && Free(unit, COLON) && Free(unit, BAR)
    && Free(id, NUL) && Free(unit, NUL)
    && -TWO63 < scaled < TWO63
  }

  lemma SensorMsgSendable(f: T.Features, aid: uint32, ts: uint64, id: Text, unit: Text, scaled: int)
    requires SensorInput(id, unit, scaled)
    ensures Sendable(f, SensorMsg(aid, ts, id, unit, scaled))
    ensures |T.MsgText(f, SensorMsg(aid, ts, id, unit, scaled))| <= 95
  {
    hide Decimal, TsToken, Text62, T.MsgText;
    DecimalU32Length(aid);
    FT.DecimalClear(aid);
    TsTokenRoundTrip(ts);
    Text62Clean(scaled);
    SensorMsgFree(f, aid, ts, id, unit, scaled);
    SensorMsgText(f, aid, ts, id, unit, scaled);
  }

  /** The fields that osfx_core_decode_sensor_packet_auto hands out. */
  function FirstSensor(m: Option<T.Msg>): Option<(Text, Text, int)> {
    if m.None? || m.value.sensors == [] then None
    else
      var x := m.value.sensors[0];
      match Decode62(x.value)
      case None => None
      case Some(v) => Some((x.id, x.unit, v))
  }

  lemma SingleAccepted(f: T.Features, m: T.Msg)
    requires Sendable(f, m) && |m.sensors| == 1 && FT.ParseBody(T.MsgText(f, m)).Some?
    ensures AcceptedSlots(f, m.sensors, FT.MAX_SENSORS) == m.sensors
  {
    hide First, FT.ParseBody, FT.ParseSegment, T.SlotText, T.CleanSlot, T.MsgText;
    var x := m.sensors[0];
    var seg := T.SlotText(f, x);
    ParsedMsg(f, m);
    FT.ParsedWellFormed(T.MsgText(f, m));
    T.SlotRoundTrip(f, x);
    assert m.sensors[1..] == [];
    assert T.SlotsText(f, m.sensors) == seg + [BAR] + [];
    FirstAfter(seg, BAR, []);
    FT.SegmentsStep(seg + [BAR] + [], FT.MAX_SENSORS);
    assert FT.After(seg + [BAR] + [], |seg|) == [];
  }

  /** One sensor, end to end: after any faithful run, sensor id, unit and scaled value come
      back exactly, whichever packet kind was sent and however long the fields are. */
  lemma SensorTransparency(f: T.Features, h: History, ev: Event, id: Text, unit: Text, scaled: int)
    requires Faithful(h) && SensorInput(id, unit, scaled)
    requires ev.send.body == T.MsgText(f, SensorMsg(ev.send.aid, ev.send.ts, id, unit, scaled))
    requires EncodeSend(TxAfter(h), ev.send).packet.Some? && ev.outCap >= 111
    ensures FirstSensor(Received(f, RxAfter(h), EncodeSend(TxAfter(h), ev.send).packet.value, ev.outCap))
         == Some((id, unit, scaled))
  {
    hide Encode, Decode, FT.ParseBody, T.MsgText, AcceptedSlots, Received, Decimal, Text62, Decode62, TsToken, Sendable;
    var m := SensorMsg(ev.send.aid, ev.send.ts, id, unit, scaled);
    SensorMsgSendable(f, ev.send.aid, ev.send.ts, id, unit, scaled);
    MessageTransparency(f, h, ev, m);
    Text62RoundTrip(scaled);
    if EncodeSend(TxAfter(h), ev.send).cmd != DATA_FULL {
      NotFullParses(TxAfter(h), ev.send);
      SingleAccepted(f, m);
    }
  }

  /** The other fields of such a body: its node is the sender's address, its time the low 48 bits
      of the time of the send. */
  lemma SensorHeadReadsBack(f: T.Features, aid: uint32, ts: uint64, id: Text, unit: Text, scaled: int)
    requires SensorInput(id, unit, scaled)
    ensures var r := T.ReadMsg(f, SensorText(aid, ts, id, unit, scaled));
            && r.Some? && (forall k :: 0 <= k < |r.value.nodeId| ==> 48 <= r.value.nodeId[k] <= 57)
            && DecimalValue(r.value.nodeId) == aid && r.value.nodeState == [85]
            && TsOfToken(r.value.ts) == ts % 0x1_0000_0000_0000
            && |r.value.sensors| == 1 && r.value.sensors[0].state == [85]
  {
    hide Decimal, TsToken, Text62, T.MsgText, T.ReadMsg, SensorText, DecimalValue, TsOfToken;
    var m := SensorMsg(aid, ts, id, unit, scaled);
    SensorMsgSendable(f, aid, ts, id, unit, scaled);
    SensorMsgText(f, aid, ts, id, unit, scaled);
    T.CleanRoundTrip(f, m);
    DecimalRoundTrip(aid);
    TsTokenRoundTrip(ts);
  }

  lemma NotFullParses(t: Table, s: Send)
    requires GoodTable(t) && EncodeSend(t, s).packet.Some? && EncodeSend(t, s).cmd != DATA_FULL
    ensures FT.ParseBody(s.body).Some?
  {
    hide FT.ParseBody, Place;
  }

  // ---- Several sensors ---------------------------------------------------

  datatype Reading = Reading(id: Text, state: Text, unit: Text, scaled: int, geohash: Text, message: Text, url: Text)

  /** The payload switches of include/osfx_build_config.h; those of the optional extensions
      belong to the template grammar. */
  datatype Build = Build(
    extensions: T.Features,
    deviceId: bool,
    deviceStatus: bool,
    timestamp: bool,
    subTemplateId: bool,
    sensorId: bool,
    sensorStatus: bool,
    units: bool,
    values: bool)

  /** The shipped settings: units, geohash and URL are off. */
  const DEFAULT_BUILD: Build := Build(T.Features(false, true, false), true, true, true, true, true, true, false, true)

  /** The constants that stand in for a field whose switch is off: "NODE", "NA" and "S". */
  const NODE_TEXT: Text := [78, 79, 68, 69]
  const NA_TEXT: Text := [78, 65]
  const SENSOR_TEXT: Text := [83]

  function SlotFor(b: Build, x: Reading): T.Slot {
    var f := b.extensions;
    T.Slot(
      if b.sensorId then x.id else SENSOR_TEXT,
      if b.sensorStatus then x.state else NA_TEXT,
      if b.units then x.unit else NA_TEXT,
      Text62(if b.values then x.scaled else 0),
      if f.geohash then x.geohash else [], if f.message then x.message else [], if f.url then x.url else [])
  }

  /** What copy_text can store: the string widths of osfx_sensor_slot. */
  predicate Storable(b: Build, x: Reading) {
    && (b.sensorId ==> |x.id| < T.ID_MAX) && (b.sensorStatus ==> |x.state| < T.STATE_MAX)
    && (b.units ==> |x.unit| < T.UNIT_MAX)
    && (b.extensions.geohash ==> |x.geohash| < T.GEOHASH_MAX)
    && (b.extensions.message ==> |x.message| < T.MSG_MAX)
    && (b.extensions.url ==> |x.url| < T.URL_MAX)
  }

  function SlotsFor(b: Build, xs: seq<Reading>): (ys: seq<T.Slot>)
    ensures |ys| == |xs|
  {
    seq(|xs|, i requires 0 <= i < |xs| => SlotFor(b, xs[i]))
  }

  /** The message that osfx_core_encode_multi_sensor_packet_auto prints. */
  function MultiMsg(b: Build, nodeId: Text, nodeState: Text, ts: uint64, xs: seq<Reading>): T.Msg {
    T.Msg(if b.deviceId then nodeId else NODE_TEXT, if b.deviceStatus then nodeState else NA_TEXT,
          Decimal(if b.timestamp then ts else 0), SlotsFor(b, xs))
  }

  function EffectiveTid(b: Build, tid: byte): byte {
    if b.subTemplateId then tid else 0
  }

  /** The values of the decoded slots, None if one is not a Base62 text. */
  function Values(xs: seq<T.Slot>): (r: Option<seq<int>>)
    ensures r.Some? ==> |r.value| == |xs|
  {
    if xs == [] then Some([])
    else
      match (Values(xs[..|xs| - 1]), Decode62(xs[|xs| - 1].value))
      case (Some(vs), Some(v)) => Some(vs + [v])
      case _ => None
  }

  function Scaleds(xs: seq<Reading>): (vs: seq<int>)
    ensures |vs| == |xs| && forall i :: 0 <= i < |xs| ==> vs[i] == xs[i].scaled
  {
    if xs == [] then [] else Scaleds(xs[..|xs| - 1]) + [xs[|xs| - 1].scaled]
  }

  lemma {:induction false} ValuesOfReadings(b: Build, xs: seq<Reading>)
    requires b.values && forall i :: 0 <= i < |xs| ==> -TWO63 < xs[i].scaled < TWO63
    ensures Values(SlotsFor(b, xs)) == Some(Scaleds(xs))
    decreases |xs|
  {
    hide Decode62, Text62;
    if xs == [] {
      assert SlotsFor(b, xs) == [];
    } else {
      var front, x := xs[..|xs| - 1], xs[|xs| - 1];
      ValuesOfReadings(b, front);
      Text62RoundTrip(x.scaled);
      assert SlotsFor(b, xs)[..|xs| - 1] == SlotsFor(b, front);
    }
  }

  /** Several sensors, end to end: if the message is clean and the fusion layer accepts every
      slot, what was printed comes back after any faithful run, whichever packet kind was
      sent: the node fields and slots that the build sends, and, if it sends values, the
      scaled values. */
  lemma MultiTransparency(b: Build, h: History, ev: Event, nodeId: Text, nodeState: Text, xs: seq<Reading>)
    requires Faithful(h)
    requires Sendable(b.extensions, MultiMsg(b, nodeId, nodeState, ev.send.ts, xs))
    requires forall i :: 0 <= i < |xs| ==>
               Accepted(b.extensions, SlotFor(b, xs[i])) && -TWO63 < xs[i].scaled < TWO63
    requires ev.send.body == T.MsgText(b.extensions, MultiMsg(b, nodeId, nodeState, ev.send.ts, xs))
    requires EncodeSend(TxAfter(h), ev.send).packet.Some?
    requires ev.outCap >= |ev.send.body| + Headroom(EncodeSend(TxAfter(h), ev.send).cmd)
    ensures var r := Received(b.extensions, RxAfter(h), EncodeSend(TxAfter(h), ev.send).packet.value, ev.outCap);
            var m := MultiMsg(b, nodeId, nodeState, ev.send.ts, xs);
            && r.Some? && r.value.nodeId == m.nodeId && r.value.nodeState == m.nodeState
            && r.value.sensors == SlotsFor(b, xs)
            && (b.values ==> Values(r.value.sensors) == Some(Scaleds(xs)))
  {
    hide Encode, Decode, T.MsgText, Accepted, AcceptedSlots, Received, Decimal, SlotFor, T.CleanSlot, Values;
    var f, m := b.extensions, MultiMsg(b, nodeId, nodeState, ev.send.ts, xs);
    MessageTransparency(f, h, ev, m);
    AllAcceptedIff(f, m.sensors, FT.MAX_SENSORS);
    if b.values {
      ValuesOfReadings(b, xs);
    }
  }

  /** Which fields of a reading its slot gives back: each one if and only if its switch is on
      or the field is the constant that stands in for it. */
  lemma SlotGivesBackIff(b: Build, x: Reading)
    requires -TWO63 < x.scaled < TWO63
    ensures var y, f := SlotFor(b, x), b.extensions;
            && (y.id == x.id <==> b.sensorId || x.id == SENSOR_TEXT)
            && (y.state == x.state <==> b.sensorStatus || x.state == NA_TEXT)
            && (y.unit == x.unit <==> b.units || x.unit == NA_TEXT)
            && (Decode62(y.value) == Some(x.scaled) <==> b.values || x.scaled == 0)
            && (y.geohash == x.geohash <==> f.geohash || x.geohash == [])
            && (y.message == x.message <==> f.message || x.message == [])
            && (y.url == x.url <==> f.url || x.url == [])
  {
    hide Decode62, Text62;
    Text62RoundTrip(x.scaled);
    Text62RoundTrip(0);
  }

  /** End to end, field by field: under the same conditions the node id, the node state and
      every field of every reading arrive as given if and only if the build sends them or they
      equal their stand-in. In particular no unit but "NA" arrives while units are off. */
  lemma FieldsArriveIff(b: Build, h: History, ev: Event, nodeId: Text, nodeState: Text, xs: seq<Reading>)
    requires Faithful(h)
    requires Sendable(b.extensions, MultiMsg(b, nodeId, nodeState, ev.send.ts, xs))
    requires forall i :: 0 <= i < |xs| ==>
               Accepted(b.extensions, SlotFor(b, xs[i])) && -TWO63 < xs[i].scaled < TWO63
    requires ev.send.body == T.MsgText(b.extensions, MultiMsg(b, nodeId, nodeState, ev.send.ts, xs))
    requires EncodeSend(TxAfter(h), ev.send).packet.Some?
    requires ev.outCap >= |ev.send.body| + Headroom(EncodeSend(TxAfter(h), ev.send).cmd)
    ensures var r := Received(b.extensions, RxAfter(h), EncodeSend(TxAfter(h), ev.send).packet.value, ev.outCap);
            && r.Some? && |r.value.sensors| == |xs|
            && (r.value.nodeId == nodeId <==> b.deviceId || nodeId == NODE_TEXT)
            && (r.value.nodeState == nodeState <==> b.deviceStatus || nodeState == NA_TEXT)
            && (forall i :: 0 <= i < |xs| ==>
                  var x, y, f := xs[i], r.value.sensors[i], b.extensions;
                  && (y.id == x.id <==> b.sensorId || x.id == SENSOR_TEXT)
                  && (y.state == x.state <==> b.sensorStatus || x.state == NA_TEXT)
                  && (y.unit == x.unit <==> b.units || x.unit == NA_TEXT)
                  && (Decode62(y.value) == Some(x.scaled) <==> b.values || x.scaled == 0)
                  && (y.geohash == x.geohash <==> f.geohash || x.geohash == [])
                  && (y.message == x.message <==> f.message || x.message == [])
                  && (y.url == x.url <==> f.url || x.url == []))
  {
    hide Encode, Decode, T.MsgText, Accepted, Received, Decimal, SlotFor, Decode62, Values, Sendable, EncodeSend;
    MultiTransparency(b, h, ev, nodeId, nodeState, xs);
    forall i | 0 <= i < |xs| {
      SlotGivesBackIff(b, xs[i]);
    }
  }

  /** The message was read and its time is the decimal numeral of t. */
  predicate TimeRead(r: Option<T.Msg>, t: nat) {
    && r.Some? && (forall k :: 0 <= k < |r.value.ts| ==> 48 <= r.value.ts[k] <= 57)
    && DecimalValue(r.value.ts) == t
  }

  /** The time that a receiver of several sensors reads: from a FULL the time of the send, if the
      build prints it, and 0 otherwise; from a DIFF or HEART, whatever the switch says, its low 48
      bits. */
  lemma TimeArrivesIff(b: Build, h: History, ev: Event, nodeId: Text, nodeState: Text, xs: seq<Reading>)
    requires Faithful(h)
    requires Sendable(b.extensions, MultiMsg(b, nodeId, nodeState, ev.send.ts, xs))
    requires ev.send.body == T.MsgText(b.extensions, MultiMsg(b, nodeId, nodeState, ev.send.ts, xs))
    requires EncodeSend(TxAfter(h), ev.send).packet.Some?
    requires ev.outCap >= |ev.send.body| + Headroom(EncodeSend(TxAfter(h), ev.send).cmd)
    ensures var sent, ts := EncodeSend(TxAfter(h), ev.send), ev.send.ts;
            var r := Received(b.extensions, RxAfter(h), sent.packet.value, ev.outCap);
            && TimeRead(r, if sent.cmd != DATA_FULL then ts % 0x1_0000_0000_0000 else if b.timestamp then ts else 0)
            && (TimeRead(r, ts) <==>
                  if sent.cmd == DATA_FULL then b.timestamp || ts == 0 else ts < 0x1_0000_0000_0000)
  {
    hide Encode, Decode, T.MsgText, Accepted, AcceptedSlots, Received, SlotFor, Sendable, DecimalValue, EncodeSend;
    MessageTransparency(b.extensions, h, ev, MultiMsg(b, nodeId, nodeState, ev.send.ts, xs));
    DecimalRoundTrip(ev.send.ts);
    DecimalRoundTrip(0);
    DecimalRoundTrip(WireTime(ev.send.ts));
  }

  /** The metadata that comes with what is received: the sender's address and time, and its template
      number if the build sends it. */
  lemma MultiMeta(b: Build, t: Table, rx: Table, aid: uint32, tid: byte, ts: uint64, body: Text, cap: nat, outCap: nat)
    requires ValidTable(t) && ValidTable(rx) && Encode(t, aid, EffectiveTid(b, tid), ts, body, cap).packet.Some?
    ensures var g := Decode(rx, Encode(t, aid, EffectiveTid(b, tid), ts, body, cap).packet.value, outCap);
            g.body.Some? ==>
              && g.meta.Some? && g.meta.value.aid == aid && g.meta.value.ts == ts % 0x1_0000_0000_0000
              && g.meta.value.tid == (if b.subTemplateId then tid else 0)
  {
    hide Encode, Decode, ValidTable;
    FusionReceiver.DeliveredMeta(t, Send(aid, EffectiveTid(b, tid), ts, body, cap), rx, outCap);
  }

  /** In the shipped build a unit is lost: a reading in "kPa" yields a slot in "NA". */
  lemma DefaultBuildDropsUnit(x: Reading)
    requires x.unit == [107, 80, 97]
    ensures SlotFor(DEFAULT_BUILD, x).unit == NA_TEXT != x.unit
  {
    assert |x.unit| == 3 && |NA_TEXT| == 2;
  }

  // ---- The facade's buffers ----------------------------------------------

  const SENSOR_BODY_CAP: nat := 256
  const MULTI_BODY_CAP: nat := 512

  /** osfx_core_encode_sensor_packet_auto, from the scaled value and standard unit on. */
  method EncodeSensorAuto(st: FusionState, f: T.Features, aid: uint32, tid: byte, ts: uint64, id: Text, unit: Text,
                          scaled: int, out: array<byte>)
    returns (ok: bool, packetLen: nat, cmd: byte)
    requires st.Valid() && |unit| < T.UNIT_MAX && -TWO63 < scaled < TWO63
    requires Free(id, NUL) && Free(unit, NUL)
    modifies st.entries, out
    ensures st.Valid()
    ensures var t := old(st.entries[..]);
            var m := SensorMsg(aid, ts, id, unit, scaled);
            if |id| < T.ID_MAX && |T.MsgText(f, m)| < SENSOR_BODY_CAP then
              var r := Encode(t, aid, tid, ts, T.MsgText(f, m), out.Length);
              && st.entries[..] == r.table && ok == r.packet.Some?
              && (ok ==> cmd == r.cmd && packetLen == |r.packet.value| <= out.Length)
              && (ok ==> out[..packetLen] == r.packet.value)
            else !ok && st.entries[..] == t
  {
    hide Text62, Decimal, TsToken, T.MsgText, Encode, ValidTable;
    ok, packetLen, cmd := false, 0, 0;
    var aidStr, tsToken, valueB62 := PrintFields(aid, ts, scaled);
    if |id| + 1 > T.ID_MAX {
      return;
    }
    var slot := T.Slot(id, [UPPER_U], unit, valueB62, [], [], []);
    var body := new byte[SENSOR_BODY_CAP];
    SensorMsgFree(f, aid, ts, id, unit, scaled);
    var printed := T.EncodeMsg(f, aidStr, [UPPER_U], tsToken, [slot], body);
    if !printed {
      return;
    }
    CStrIn(body[..], T.MsgText(f, SensorMsg(aid, ts, id, unit, scaled)));
    ok, packetLen, cmd := st.Encode(aid, tid, ts, CStr(body[..]), out);
  }

  lemma SensorMsgFree(f: T.Features, aid: uint32, ts: uint64, id: Text, unit: Text, scaled: int)
    requires Free(id, NUL) && Free(unit, NUL) && -TWO63 < scaled < TWO63
    ensures Free(T.MsgText(f, SensorMsg(aid, ts, id, unit, scaled)), NUL)
  {
    hide Decimal, TsToken, Text62, T.MsgText;
    FT.DecimalClear(aid);
    TsTokenRoundTrip(ts);
    Text62Clean(scaled);
    SensorMsgText(f, aid, ts, id, unit, scaled);
  }

  /** The template printer and the hand-written encoders produce the same body. */
  lemma SensorMsgText(f: T.Features, aid: uint32, ts: uint64, id: Text, unit: Text, scaled: int)
    ensures T.MsgText(f, SensorMsg(aid, ts, id, unit, scaled)) == SensorText(aid, ts, id, unit, scaled)
  {
    hide Decimal, TsToken, Text62, T.SlotText, T.SlotsText;
    var x, v := T.Slot(id, [UPPER_U], unit, Text62(scaled), [], [], []), Text62(scaled);
    BareSlotText(f, id, unit, v);
    assert [x] + [] == [x];
    SlotsTextCons(f, x, []);
    SlotsTextNone(f);
    var head := Decimal(aid) + [DOT, UPPER_U, DOT] + TsToken(ts) + [BAR];
    var seg := id + [GT, UPPER_U, DOT] + unit + [COLON] + v;
    assert T.HeaderText(Decimal(aid), [UPPER_U], TsToken(ts)) + [BAR] == head;
    assert T.MsgText(f, SensorMsg(aid, ts, id, unit, scaled)) == head + (seg + [BAR] + []);
    Rejoin(head, id, [GT, UPPER_U, DOT], unit, [COLON], v, [BAR]);
  }

  lemma BareSlotText(f: T.Features, id: Text, unit: Text, v: Text)
    ensures T.SlotText(f, T.Slot(id, [UPPER_U], unit, v, [], [], [])) == id + [GT, UPPER_U, DOT] + unit + [COLON] + v
  {
    var x := T.Slot(id, [UPPER_U], unit, v, [], [], []);
    assert T.Extensions(f, x) == [];
    assert id + [GT] + [UPPER_U] + [DOT] == id + [GT, UPPER_U, DOT];
  }

  lemma SlotsTextNone(f: T.Features)
    ensures T.SlotsText(f, []) == []
  {
  }

  lemma Rejoin(a: Text, b: Text, c: Text, d: Text, e: Text, g: Text, h: Text)
    ensures a + (b + c + d + e + g + h + []) == a + b + c + d + e + g + h
  {
  }

  /** copy_text of an output parameter: skipped without a buffer, refused if too small. */
  predicate Copies(cap: nat, text: Text) {
    cap == 0 || |text| + 1 <= cap
  }

  function SensorOut(m: Option<T.Msg>, idCap: nat, unitCap: nat): Option<(Text, Text, int)> {
    match FirstSensor(m)
    case None => None
    case Some((id, unit, v)) => if Copies(idCap, id) && Copies(unitCap, unit) then Some((id, unit, v)) else None
  }

  /** End to end through the caller's buffers: the decoder hands out id, unit and value of the one
      sensor exactly if they fit the buffers that the caller gave. */
  lemma SensorOutIff(f: T.Features, h: History, ev: Event, id: Text, unit: Text, scaled: int, idCap: nat, unitCap: nat)
    requires Faithful(h) && SensorInput(id, unit, scaled)
    requires ev.send.body == T.MsgText(f, SensorMsg(ev.send.aid, ev.send.ts, id, unit, scaled))
    requires EncodeSend(TxAfter(h), ev.send).packet.Some? && ev.outCap >= 111
    ensures SensorOut(Received(f, RxAfter(h), EncodeSend(TxAfter(h), ev.send).packet.value, ev.outCap), idCap, unitCap)
         == if (idCap == 0 || |id| < idCap) && (unitCap == 0 || |unit| < unitCap) then Some((id, unit, scaled))
            else None
  {
    hide Encode, Decode, T.MsgText, Received, FirstSensor, SensorMsg, SensorInput;
    SensorTransparency(f, h, ev, id, unit, scaled);
  }

  /** osfx_core_decode_sensor_packet_auto. */
  method DecodeSensorAuto(st: FusionState, f: T.Features, packet: Text, idCap: nat, unitCap: nat)
    returns (r: Option<(Text, Text, int)>, meta: Option<P.Meta>)
    requires st.Valid()
    modifies st.entries
    ensures st.Valid()
    ensures var t := old(st.entries[..]);
            && st.entries[..] == Decode(t, packet, SENSOR_BODY_CAP).table
            && r == SensorOut(Received(f, t, packet, SENSOR_BODY_CAP), idCap, unitCap)
            && (r.Some? ==> meta == Decode(t, packet, SENSOR_BODY_CAP).meta)
  {
    hide Decode, T.ReadMsg, ValidTable, Decode62, Copies, First;
    var body := new byte[SENSOR_BODY_CAP];
    var ok, len;
    ok, len, meta := st.DecodeApply(packet, body);
    if !ok || len + 1 > body.Length {
      return None, meta;
    }
    ghost var text := body[..len];
    body[len] := NUL;
    assert body[..len] == text;
    CStrCut(body[..], text);
    var msg := T.DecodeMsg(f, CStr(body[..]));
    if msg.None? || msg.value.sensors == [] {
      return None, meta;
    }
    var x := msg.value.sensors[0];
    if !Copies(idCap, x.id) || !Copies(unitCap, x.unit) {
      return None, meta;
    }
    T.ReadMsgFree(f, CStr(body[..]));
    var scaled, good := DecodeI64(x.value);
    if !good {
      return None, meta;
    }
    return Some((x.id, x.unit, scaled)), meta;
  }

  /** The building loop of osfx_core_encode_multi_sensor_packet_auto. */
  method BuildSlots(b: Build, xs: seq<Reading>) returns (ok: bool, slots: seq<T.Slot>)
    requires forall i :: 0 <= i < |xs| ==> -TWO63 < xs[i].scaled < TWO63
    ensures ok <==> forall i :: 0 <= i < |xs| ==> Storable(b, xs[i])
    ensures ok ==> slots == SlotsFor(b, xs)
  {
    hide SlotFor;
    slots := [];
    for i := 0 to |xs|
      invariant forall k :: 0 <= k < i ==> Storable(b, xs[k])
      invariant slots == SlotsFor(b, xs)[..i]
    {
      var stored, slot := BuildSlot(b, xs[i]);
      if !stored {
        return false, [];
      }
      slots := slots + [slot];
    }
    assert SlotsFor(b, xs)[..|xs|] == SlotsFor(b, xs);
    ok := true;
  }

  /** One turn of that loop: each field copied in turn, or its stand-in. */
  method BuildSlot(b: Build, x: Reading) returns (ok: bool, slot: T.Slot)
    requires -TWO63 < x.scaled < TWO63
    ensures ok <==> Storable(b, x)
    ensures ok ==> slot == SlotFor(b, x)
  {
    hide Text62;
    slot := T.Slot([], [], [], [], [], [], []);
    if b.sensorId && |x.id| + 1 > T.ID_MAX {
      return false, slot;
    }
    slot := slot.(id := if b.sensorId then x.id else SENSOR_TEXT);
    if b.sensorStatus && |x.state| + 1 > T.STATE_MAX {
      return false, slot;
    }
    slot := slot.(state := if b.sensorStatus then x.state else NA_TEXT);
    if b.units && |x.unit| + 1 > T.UNIT_MAX {
      return false, slot;
    }
    slot := slot.(unit := if b.units then x.unit else NA_TEXT);
    if b.values {
      var valB62 := PrintValue(x.scaled);
      slot := slot.(value := valB62);
    } else {
      ZeroIsZero();
      slot := slot.(value := [ZERO]);
    }
    if b.extensions.geohash {
      if |x.geohash| + 1 > T.GEOHASH_MAX {
        return false, slot;
      }
      slot := slot.(geohash := x.geohash);
    }
    if b.extensions.message {
      if |x.message| + 1 > T.MSG_MAX {
        return false, slot;
      }
      slot := slot.(message := x.message);
    }
    if b.extensions.url {
      if |x.url| + 1 > T.URL_MAX {
        return false, slot;
      }
      slot := slot.(url := x.url);
    }
    ok := true;
  }

  method PrintValue(scaled: int) returns (text: Text)
    requires -TWO63 < scaled < TWO63
    ensures text == Text62(scaled)
  {
    hide Text62, First;
    var valB62 := new byte[T.VALUE_MAX];
    Text62Clean(scaled);
    var done := EncodeI64(scaled, valB62);
    CStrIn(valB62[..], Text62(scaled));
    return CStr(valB62[..]);
  }

  lemma ZeroIsZero()
    ensures Text62(0) == [ZERO]
  {
    ZeroText();
  }

  /** osfx_core_encode_multi_sensor_packet_auto, from the scaled values on. */
  method EncodeMultiAuto(st: FusionState, b: Build, aid: uint32, tid: byte, ts: uint64, nodeId: Text,
                         nodeState: Text, xs: seq<Reading>, out: array<byte>)
    returns (ok: bool, packetLen: nat, cmd: byte)
    requires st.Valid() && forall i :: 0 <= i < |xs| ==> -TWO63 < xs[i].scaled < TWO63
    requires Free(T.MsgText(b.extensions, MultiMsg(b, nodeId, nodeState, ts, xs)), NUL)
    modifies st.entries, out
    ensures st.Valid()
    ensures var t := old(st.entries[..]);
            var text := T.MsgText(b.extensions, MultiMsg(b, nodeId, nodeState, ts, xs));
            if 0 < |xs| <= T.MAX_SENSORS && (forall i :: 0 <= i < |xs| ==> Storable(b, xs[i]))
               && |text| < MULTI_BODY_CAP then
              var r := Encode(t, aid, EffectiveTid(b, tid), ts, text, out.Length);
              && st.entries[..] == r.table && ok == r.packet.Some?
              && (ok ==> cmd == r.cmd && packetLen == |r.packet.value| <= out.Length)
              && (ok ==> out[..packetLen] == r.packet.value)
            else !ok && st.entries[..] == t
  {
    hide Decimal, T.MsgText, Encode, ValidTable, Storable, SlotFor;
    ok, packetLen, cmd := false, 0, 0;
    if |xs| == 0 || |xs| > T.MAX_SENSORS {
      return;
    }
    var effectiveTid := if b.subTemplateId then tid else 0;
    var effectiveNodeId := if b.deviceId then nodeId else NODE_TEXT;
    var effectiveNodeState := if b.deviceStatus then nodeState else NA_TEXT;
    var built, slots := BuildSlots(b, xs);
    if !built {
      return;
    }
    var tsToken := Decimal(if b.timestamp then ts else 0);
    var body := new byte[MULTI_BODY_CAP];
    var printed := T.EncodeMsg(b.extensions, effectiveNodeId, effectiveNodeState, tsToken, slots, body);
    if !printed {
      return;
    }
    CStrIn(body[..], T.MsgText(b.extensions, MultiMsg(b, nodeId, nodeState, ts, xs)));
    ok, packetLen, cmd := st.Encode(aid, effectiveTid, ts, CStr(body[..]), out);
  }

  function MultiOut(m: Option<T.Msg>, nodeCap: nat, stateCap: nat, sensorsCap: nat): Option<(T.Msg, seq<int>)> {
    if m.None? || |m.value.nodeId| + 1 > nodeCap || |m.value.nodeState| + 1 > stateCap
       || |m.value.sensors| > sensorsCap then None
    else
      match Values(m.value.sensors)
      case None => None
      case Some(vs) => Some((m.value, vs))
  }

  /** End to end through the caller's buffers: if every value is sent, the decoder hands out all the
      readings' values exactly if node, state and the number of sensors fit what the caller gave. */
  lemma MultiOutIff(b: Build, h: History, ev: Event, nodeId: Text, nodeState: Text, xs: seq<Reading>,
                    nodeCap: nat, stateCap: nat, sensorsCap: nat)
    requires Faithful(h) && b.deviceId && b.deviceStatus && b.values
    requires Sendable(b.extensions, MultiMsg(b, nodeId, nodeState, ev.send.ts, xs))
    requires forall i :: 0 <= i < |xs| ==>
               Accepted(b.extensions, SlotFor(b, xs[i])) && -TWO63 < xs[i].scaled < TWO63
    requires ev.send.body == T.MsgText(b.extensions, MultiMsg(b, nodeId, nodeState, ev.send.ts, xs))
    requires EncodeSend(TxAfter(h), ev.send).packet.Some?
    requires ev.outCap >= |ev.send.body| + Headroom(EncodeSend(TxAfter(h), ev.send).cmd)
    ensures var m := Received(b.extensions, RxAfter(h), EncodeSend(TxAfter(h), ev.send).packet.value, ev.outCap);
            var r := MultiOut(m, nodeCap, stateCap, sensorsCap);
            && (r.Some? <==> |nodeId| < nodeCap && |nodeState| < stateCap && |xs| <= sensorsCap)
            && (r.Some? ==> m.Some? && r.value.0 == m.value && r.value.1 == Scaleds(xs))
  {
    hide Encode, Decode, T.MsgText, Accepted, Received, SlotFor, Sendable, Values, EncodeSend, Decimal;
    MultiTransparency(b, h, ev, nodeId, nodeState, xs);
  }

  /** osfx_core_decode_multi_sensor_packet_auto. */
  method DecodeMultiAuto(st: FusionState, f: T.Features, packet: Text, nodeCap: nat, stateCap: nat, sensorsCap: nat)
    returns (r: Option<(T.Msg, seq<int>)>, meta: Option<P.Meta>)
    requires st.Valid()
    modifies st.entries
    ensures st.Valid()
    ensures var t := old(st.entries[..]);
            && st.entries[..] == Decode(t, packet, MULTI_BODY_CAP).table
            && r == MultiOut(Received(f, t, packet, MULTI_BODY_CAP), nodeCap, stateCap, sensorsCap)
            && (r.Some? ==> meta == Decode(t, packet, MULTI_BODY_CAP).meta)
  {
    hide Decode, T.ReadMsg, ValidTable, Decode62, First;
    var body := new byte[MULTI_BODY_CAP];
    var ok, len;
    ok, len, meta := st.DecodeApply(packet, body);
    if !ok || len + 1 > body.Length {
      return None, meta;
    }
    ghost var text := body[..len];
    body[len] := NUL;
    assert body[..len] == text;
    CStrCut(body[..], text);
    var msg := T.DecodeMsg(f, CStr(body[..]));
    if msg.None? {
      return None, meta;
    }
    T.ReadMsgFree(f, CStr(body[..]));
    var m := msg.value;
    if |m.nodeId| + 1 > nodeCap || |m.nodeState| + 1 > stateCap || |m.sensors| > sensorsCap {
      return None, meta;
    }
    var vs: seq<int> := [];
    for i := 0 to |m.sensors|
      invariant Values(m.sensors[..i]) == Some(vs)
      modifies {}
    {
      ValuesStep(m.sensors, i);
      var scaled, good := DecodeI64(m.sensors[i].value);
      if !good {
        return None, meta;
      }
      vs := vs + [scaled];
    }
    assert m.sensors[..|m.sensors|] == m.sensors;
    return Some((m, vs)), meta;
  }

  lemma {:induction false} ValuesStep(xs: seq<T.Slot>, i: nat)
    requires i < |xs|
    ensures Values(xs[..i + 1]) ==
            match (Values(xs[..i]), Decode62(xs[i].value))
            case (Some(vs), Some(v)) => Some(vs + [v])
            case _ => None
    ensures Values(xs[..i + 1]).None? ==> Values(xs).None?
    decreases |xs| - i
  {
    hide Decode62;
    assert xs[..i + 1][..i] == xs[..i];
    if i + 1 == |xs| {
      assert xs[..i + 1] == xs;
    } else {
      ValuesStep(xs, i + 1);
    }
  }
}
