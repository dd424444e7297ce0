/** The single-sensor body of src/osfx_core_facade.c, written and scanned by hand there:
    aid.U.ts|id>U.unit:value| */
module SensorBody {
  import opened Bytes
  import opened Numerals
  import opened Solidity
  import FT = FusionText

  const BODY_CAP: nat := 256
  const VALUE_TMP: nat := 64

  function SensorText(aid: uint32, ts: uint64, id: Text, unit: Text, scaled: int): Text {
    Decimal(aid) + [DOT, UPPER_U, DOT] + TsToken(ts) + [BAR] + id + [GT, UPPER_U, DOT] + unit + [COLON]
    + Text62(scaled) + [BAR]
  }

  // ---- Reading -----------------------------------------------------------

  /** The value between ':' and the next '|', through a terminated 64-byte copy. */
  function ReadValue(val: Text): Option<int> {
    var end := First(val, BAR);
    if end == 0 || end >= VALUE_TMP then None else Decode62(CStr(val[..end]))
  }

  function ReadUnit(rest: Text, unitCap: nat): Option<(Text, int)> {
    var dot := First(rest, DOT);
    if dot == |rest| then None
    else
      var tail := rest[dot + 1..];
      var col := First(tail, COLON);
      if col == |tail| || col == 0 || col + 1 > unitCap then None
      else
        match ReadValue(tail[col + 1..])
        case None => None
        case Some(v) => Some((tail[..col], v))
  }

  /** osfx_core_decode_sensor_body: sensor id, unit and scaled value of the first sensor. */
  function ReadBody(body: Text, idCap: nat, unitCap: nat): Option<(Text, Text, int)> {
    var bar := First(body, BAR);
    if bar == |body| then None
    else
      var seg := body[bar + 1..];
      var gt := First(seg, GT);
      if gt == |seg| || gt == 0 || gt + 1 > idCap then None
      else
        match ReadUnit(seg[gt + 1..], unitCap)
        case None => None
        case Some((unit, v)) => Some((seg[..gt], unit, v))
  }

  lemma ReadValueBack(scaled: int)
    requires -TWO63 < scaled < TWO63
    ensures ReadValue(Text62(scaled) + [BAR]) == Some(scaled)
  {
    hide First, Text62, Decode62;
    Text62Clean(scaled);
    FirstAfter(Text62(scaled), BAR, []);
    assert Text62(scaled) + [BAR] + [] == Text62(scaled) + [BAR];
    Text62RoundTrip(scaled);
  }

  lemma ReadUnitBack(unit: Text, scaled: int, unitCap: nat)
    requires -TWO63 < scaled < TWO63
    ensures var rest := [UPPER_U, DOT] + unit + [COLON] + (Text62(scaled) + [BAR]);
            if Free(unit, COLON) && unit != [] && |unit| + 1 <= unitCap then
              ReadUnit(rest, unitCap) == Some((unit, scaled))
            else ReadUnit(rest, unitCap).None? || ReadUnit(rest, unitCap).value.0 != unit
  {
    hide First, Text62, ReadValue;
    var val := Text62(scaled) + [BAR];
    var rest := [UPPER_U, DOT] + unit + [COLON] + val;
    FirstAfter([UPPER_U], DOT, unit + [COLON] + val);
    assert rest == [UPPER_U] + [DOT] + (unit + [COLON] + val);
    ReadValueBack(scaled);
    var tail := unit + [COLON] + val;
    if Free(unit, COLON) {
      FirstAfter(unit, COLON, val);
    } else {
      assert COLON in tail;
      assert COLON !in tail[..First(tail, COLON)];
    }
  }

  /** The reader returns exactly what was printed if and only if the id has no '>', the unit
      has no ':', neither is empty and both fit the caller's buffers. */
  lemma SensorTextReadIff(aid: uint32, ts: uint64, id: Text, unit: Text, scaled: int, idCap: nat, unitCap: nat)
    requires -TWO63 < scaled < TWO63
    ensures ReadBody(SensorText(aid, ts, id, unit, scaled), idCap, unitCap) == Some((id, unit, scaled)) <==>
            && Free(id, GT) && id != [] && |id| + 1 <= idCap
            && Free(unit, COLON) && unit != [] && |unit| + 1 <= unitCap
  {
    hide First, Text62, ReadUnit, Decimal, TsToken;
    var head := Decimal(aid) + [DOT, UPPER_U, DOT] + TsToken(ts);
    var rest := [UPPER_U, DOT] + unit + [COLON] + (Text62(scaled) + [BAR]);
    var seg := id + [GT] + rest;
    FT.DecimalClear(aid);
    TsTokenRoundTrip(ts);
    FirstAfter(head, BAR, seg);
    assert SensorText(aid, ts, id, unit, scaled) == head + [BAR] + seg;
    ReadUnitBack(unit, scaled, unitCap);
    if Free(id, GT) {
      FirstAfter(id, GT, rest);
    } else {
      assert GT !in seg[..First(seg, GT)];
    }
  }

  // ---- The buffers of the sources ----------------------------------------

  method WriteHead(aidText: Text, tsText: Text, body: array<byte>) returns (len: nat)
    requires |aidText| + |tsText| + 4 <= body.Length
    modifies body
    ensures len == |aidText| + |tsText| + 4 && body[..len] == aidText + [DOT, UPPER_U, DOT] + tsText + [BAR]
  {
    len := Append(aidText, body, 0, []);
    assert body[..len] == aidText;
    len := Append([DOT, UPPER_U, DOT], body, len, aidText);
    len := Append(tsText, body, len, aidText + [DOT, UPPER_U, DOT]);
    len := Append([BAR], body, len, aidText + [DOT, UPPER_U, DOT] + tsText);
  }

  method WriteSensor(id: Text, unit: Text, b62: Text, body: array<byte>, at: nat, ghost head: Text) returns (len: nat)
    requires at + |id| + |unit| + |b62| + 5 <= body.Length && body[..at] == head
    modifies body
    ensures len == at + |id| + |unit| + |b62| + 5
    ensures body[..len] == head + id + [GT, UPPER_U, DOT] + unit + [COLON] + b62 + [BAR]
  {
    ghost var text := head;
    len := Append(id, body, at, text);
    text := text + id;
    len := Append([GT, UPPER_U, DOT], body, len, text);
    text := text + [GT, UPPER_U, DOT];
    len := Append(unit, body, len, text);
    text := text + unit;
    len := Append([COLON], body, len, text);
    text := text + [COLON];
    len := Append(b62, body, len, text);
    text := text + b62;
    len := Append([BAR], body, len, text);
  }

  /** The scaled value, the aid and the timestamp as text. */
  method PrintFields(aid: uint32, ts: uint64, scaled: int) returns (aidText: Text, tsText: Text, b62: Text)
    requires -TWO63 < scaled < TWO63
    ensures aidText == Decimal(aid) && tsText == TsToken(ts) && b62 == Text62(scaled)
  {
    hide Text62, Decimal, TsToken, First;
    var valueB62 := new byte[64];
    Text62Clean(scaled);
    var done := EncodeI64(scaled, valueB62);
    CStrIn(valueB62[..], Text62(scaled));
    b62 := CStr(valueB62[..]);
    var aidStr := new byte[11];
    DecimalU32Length(aid);
    var wlen := U32ToA(aid, aidStr);
    FT.DecimalClear(aid);
    aidText := aidStr[..wlen];
    var tsB64 := new byte[9];
    B64UrlTs6(ts, tsB64);
    tsText := tsB64[..8];
  }

  /** The common part of the two hand-written encoders. */
  method WriteSensorText(aid: uint32, ts: uint64, id: Text, unit: Text, scaled: int, body: array<byte>)
    returns (ok: bool, len: nat)
    requires body.Length == BODY_CAP && -TWO63 < scaled < TWO63
    modifies body
    ensures ok <==> |SensorText(aid, ts, id, unit, scaled)| + 1 <= BODY_CAP
    ensures ok ==> len == |SensorText(aid, ts, id, unit, scaled)|
    ensures ok ==> body[..len] == SensorText(aid, ts, id, unit, scaled)
  {
    hide Text62, Decimal, TsToken;
    var aidText, tsText, b62 := PrintFields(aid, ts, scaled);
    var bodyLen := |aidText| + 3 + 8 + 1 + |id| + 3 + |unit| + 1 + |b62| + 1;
    if bodyLen + 1 > body.Length {
      return false, 0;
    }
    len := WriteHead(aidText, tsText, body);
    len := WriteSensor(id, unit, b62, body, len, body[..len]);
    return true, len;
  }

  method ScanValue(body: Text, at: nat) returns (r: Option<int>)
    requires at <= |body|
    ensures r == ReadValue(body[at..])
  {
    hide First, Decode62;
    var endPos := FT.ScanFirst(body, at, |body|, BAR);
    var segLen := endPos - at;
    assert body[at..|body|] == body[at..];
    if segLen == 0 || segLen >= VALUE_TMP {
      return None;
    }
    var tmp := body[at..endPos];
    assert body[at..][..segLen] == tmp;
    var scaled, ok := DecodeI64(CStr(tmp));
    return if ok then Some(scaled) else None;
  }

  method ScanUnit(body: Text, at: nat, unitCap: nat) returns (r: Option<(Text, int)>)
    requires at <= |body|
    ensures r == ReadUnit(body[at..], unitCap)
  {
    hide First, ReadValue;
    ghost var rest := body[at..];
    var dotPos := FT.ScanFirst(body, at, |body|, DOT);
    assert body[at..|body|] == rest;
    if dotPos >= |body| {
      return None;
    }
    var colPos := FT.ScanFirst(body, dotPos + 1, |body|, COLON);
    ghost var tail := body[dotPos + 1..];
    assert body[dotPos + 1..|body|] == tail == rest[dotPos - at + 1..];
    if colPos >= |body| {
      return None;
    }
    var segLen := colPos - (dotPos + 1);
    if segLen == 0 || segLen + 1 > unitCap {
      return None;
    }
    var unit := body[dotPos + 1..colPos];
    assert tail[..segLen] == unit && tail[segLen + 1..] == body[colPos + 1..];
    var v := ScanValue(body, colPos + 1);
    return if v.None? then None else Some((unit, v.value));
  }

  method DecodeSensorBody(body: Text, idCap: nat, unitCap: nat) returns (r: Option<(Text, Text, int)>)
    ensures r == ReadBody(body, idCap, unitCap)
  {
    hide First, ReadUnit;
    var p := FT.ScanFirst(body, 0, |body|, BAR);
    assert body[0..|body|] == body;
    if p >= |body| {
      return None;
    }
    var sidStart := p + 1;
    ghost var seg := body[sidStart..];
    var gtPos := FT.ScanFirst(body, sidStart, |body|, GT);
    assert body[sidStart..|body|] == seg;
    if gtPos >= |body| || gtPos <= sidStart {
      return None;
    }
    var segLen := gtPos - sidStart;
    if segLen + 1 > idCap {
      return None;
    }
    var id := body[sidStart..gtPos];
    assert seg[..segLen] == id && seg[segLen + 1..] == body[gtPos + 1..];
    var u := ScanUnit(body, gtPos + 1, unitCap);
    return if u.None? then None else Some((id, u.value.0, u.value.1));
  }
}
