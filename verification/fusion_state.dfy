/** The mutable tables of src/osfx_fusion_state.c: entries overwritten in place, bodies
    and packets written into the caller's buffers. Each method is proved to do what
    the functions of FusionTable say. */
module FusionState {
  import opened Bytes
  import opened Bits
  import opened Numerals
  import opened Commands
  import opened Packet
  import opened FusionText
  import opened FusionDiff
  import opened FusionTable
  import opened FusionRuns
  import opened FusionHistory

  /** The first k cells already replaced. */
  ghost function Refreshed(cells: seq<Text>, news: seq<Text>, k: nat): (r: seq<Text>)
    requires k <= |news| <= |cells|
    ensures |r| == |cells|
  {
    news[..k] + cells[k..]
  }

  lemma Refreshing(cells: seq<Text>, news: seq<Text>, k: nat)
    requires k <= |news| <= |cells|
    ensures Refreshed(cells, news, 0) == cells
    ensures Refreshed(cells, news, |news|) == Overwrite(cells, news)
    ensures k < |news| ==> Refreshed(cells, news, k)[k := news[k]] == Refreshed(cells, news, k + 1)
  {
  }

  class FusionState {
    const entries: array<FusionEntry>

    ghost predicate Valid()
      reads entries
    {
      GoodTable(entries[..])
    }

    constructor ()
      ensures Valid() && fresh(entries) && entries[..] == EmptyTable()
    {
      entries := new FusionEntry[MAX_ENTRIES](i => Zeroed);
      new;
      EmptyIsGood();
      assert entries[..] == EmptyTable();
    }

    method Reset()
      requires entries.Length == MAX_ENTRIES
      modifies entries
      ensures Valid() && entries[..] == EmptyTable()
    {
      for i := 0 to entries.Length
        invariant entries[..i] == EmptyTable()[..i]
      {
        entries[i] := Zeroed;
      }
      EmptyIsGood();
      assert entries[..] == EmptyTable();
    }

    /** find_entry: the index, or the table size for a null pointer. */
    method FindEntry(aid: uint32, tid: byte) returns (i: nat)
      ensures i == Find(entries[..], aid, tid)
    {
      hide Find;
      i := 0;
      while i < entries.Length
        invariant i <= entries.Length
        invariant forall k :: 0 <= k < i ==> !Matches(entries[k], aid, tid)
      {
        if Matches(entries[i], aid, tid) {
          break;
        }
        i := i + 1;
      }
      ghost var t := entries[..];
      assert forall k :: 0 <= k < i ==> !Matches(t[k], aid, tid);
      assert i < |t| ==> Matches(t[i], aid, tid);
    }

    /** alloc_entry: claims the first unused entry, zeroed. */
    method AllocEntry(aid: uint32, tid: byte) returns (i: nat)
      requires entries.Length == MAX_ENTRIES
      modifies entries
      ensures i == FreeSlot(old(entries[..]))
      ensures entries[..] == if i == entries.Length then old(entries[..])
                             else old(entries[..])[i := Zeroed.(used := true, aid := aid, tid := tid)]
    {
      hide FreeSlot;
      i := 0;
      ghost var t := entries[..];
      while i < entries.Length
        invariant i <= entries.Length && entries[..] == t
        invariant forall k :: 0 <= k < i ==> t[k].used
      {
        if !entries[i].used {
          entries[i] := Zeroed.(used := true, aid := aid, tid := tid);
          return;
        }
        i := i + 1;
      }
    }

    /** find_entry, then alloc_entry if there is none. */
    method FindOrAlloc(aid: uint32, tid: byte) returns (i: nat)
      requires Valid()
      modifies entries
      ensures i == Place(old(entries[..]), aid, tid)
      ensures entries[..] == if i == entries.Length then old(entries[..])
                             else old(entries[..])[i := Claimed(old(entries[..]), aid, tid)]
    {
      hide Find, FreeSlot;
      i := FindEntry(aid, tid);
      if i == entries.Length {
        i := AllocEntry(aid, tid);
      }
    }

    /** The two copying loops that refresh an entry from parsed slots. */
    method StoreParsed(i: nat, sig: Text, tagNames: array<Text>, slots: array<Text>, count: nat, ghost p: Parsed)
      requires i < entries.Length && Fitting(entries[i], p)
      requires sig == p.sig && count == |p.sensors| && Stored(p.sensors, tagNames[..], slots[..])
      modifies entries
      ensures entries[..] == old(entries[..])[i := StoreFull(old(entries[i]), p)]
    {
      hide SlotsOf, TagsOf, CStr, InBounds;
      ghost var t, e := entries[..], entries[i];
      ghost var tags, news := TagsOf(p.sensors), SlotsOf(p.sensors);
      entries[i] := entries[i].(sigBase := CStr(sig), sensorCount := count, valCount := count * 2);
      ghost var head := entries[i];
      assert entries[..] == t[i := head];
      CopyTags(i, tagNames, count, tags);
      CopySlots(i, slots, count * 2, news);
    }

    /** The tag loop of both refreshes. */
    method CopyTags(i: nat, tagNames: array<Text>, count: nat, ghost tags: seq<Text>)
      requires i < entries.Length && count == |tags| <= |entries[i].tagNames| && tags <= tagNames[..]
      modifies entries
      ensures var e := old(entries[i]);
              entries[..] == old(entries[..])[i := e.(tagNames := Overwrite(e.tagNames, tags))]
    {
      hide Refreshed, Overwrite;
      ghost var t, e := entries[..], entries[i];
      Refreshing(e.tagNames, tags, 0);
      for k := 0 to count
        invariant entries[..] == t[i := e.(tagNames := Refreshed(e.tagNames, tags, k))]
      {
        Refreshing(e.tagNames, tags, k);
        entries[i] := entries[i].(tagNames := entries[i].tagNames[k := tagNames[k]]);
      }
    }

    /** The value loop of both refreshes. */
    method CopySlots(i: nat, slots: array<Text>, n: nat, ghost news: seq<Text>)
      requires i < entries.Length && n == |news| <= |entries[i].lastVals| && news <= slots[..]
      modifies entries
      ensures var e := old(entries[i]);
              entries[..] == old(entries[..])[i := e.(lastVals := Overwrite(e.lastVals, news))]
    {
      hide Refreshed, Overwrite;
      ghost var t, e := entries[..], entries[i];
      Refreshing(e.lastVals, news, 0);
      for k := 0 to n
        invariant entries[..] == t[i := e.(lastVals := Refreshed(e.lastVals, news, k))]
      {
        Refreshing(e.lastVals, news, k);
        entries[i] := entries[i].(lastVals := entries[i].lastVals[k := slots[k]]);
      }
    }

    /** The comparison loops of osfx_fusion_encode. */
    method CompareStructure(i: nat, sig: Text, tagNames: array<Text>, count: nat, ghost p: Parsed)
      returns (changed: bool)
      requires i < entries.Length && Fitting(entries[i], p)
      requires sig == p.sig && count == |p.sensors| && TagsOf(p.sensors) <= tagNames[..]
      ensures changed == StructChanged(entries[i], p)
    {
      hide TagsOf, InBounds;
      var e := entries[i];
      changed := e.sigBase == [] || e.valCount != count * 2 || e.sigBase != sig;
      if !changed {
        var k := 0;
        while k < count && !changed
          invariant k <= count
          invariant changed ==> e.tagNames[..count] != TagsOf(p.sensors)
          invariant !changed ==> e.tagNames[..k] == TagsOf(p.sensors)[..k]
        {
          if e.tagNames[k] != tagNames[k] {
            assert e.tagNames[..count][k] != TagsOf(p.sensors)[k];
            changed := true;
          }
          k := k + 1;
        }
        assert TagsOf(p.sensors)[..count] == TagsOf(p.sensors);
      }
    }

    method AnySlotChanged(i: nat, slots: array<Text>, n: nat, ghost news: seq<Text>) returns (changed: bool)
      requires i < entries.Length && n == |news| <= |entries[i].lastVals| && news <= slots[..]
      ensures changed <==> entries[i].lastVals[..n] != news
    {
      var e := entries[i];
      changed := false;
      for k := 0 to n
        invariant e.lastVals[..k] == news[..k]
      {
        if e.lastVals[k] != slots[k] {
          assert e.lastVals[..n][k] != news[k];
          changed := true;
          break;
        }
      }
    }

    /** The DIFF branch of osfx_fusion_encode: lengths and values behind the mask bytes,
        each changed slot copied into the cache, the mask written last. */
    method BuildDiff(i: nat, slots: array<Text>, n: nat, diffBody: array<byte>, ghost p: Parsed) returns (off: nat)
      requires i < entries.Length && Fitting(entries[i], p) && Choose(entries[i], p) == Diff
      requires n == 2 * |p.sensors| && SlotsOf(p.sensors) <= slots[..]
      requires diffBody.Length >= 2 + MAX_VALS * (1 + MAX_VAL_LEN)
      modifies entries, diffBody
      ensures entries[..] == old(entries[..])[i := StoreChanged(old(entries[i]), p)]
      ensures off <= diffBody.Length && diffBody[..off] == WireBody(old(entries[i]), p, [])
    {
      hide SlotsOf, BitsValue, InBounds, StructChanged, Merged, Payload, BE, DiffBody, ChangedBits, Fitting;
      ghost var t, e, news := entries[..], entries[i], SlotsOf(p.sensors);
      DiffReady(e, p);
      var maskLen := (n + 7) / 8;
      off := maskLen;
      var mask: nat := 0;
      DiffTurn(e.lastVals, news, 0, n);
      for k := 0 to n
        invariant entries[..] == t[i := e.(lastVals := Merged(e.lastVals, e.lastVals, news, k))]
        invariant mask == BitsValue(ChangedBits(e.lastVals, news, k))
        invariant off == maskLen + |Payload(e.lastVals, news, k)|
        invariant |Payload(e.lastVals, news, k)| <= k * (1 + MAX_VAL_LEN)
        invariant diffBody[maskLen..off] == Payload(e.lastVals, news, k)
      {
        DiffTurn(e.lastVals, news, k, n);
        var v := slots[k];
        if entries[i].lastVals[k] != v {
          mask := mask + P2(k);
          off := PutPiece(v, diffBody, maskLen, off);
          entries[i] := entries[i].(lastVals := entries[i].lastVals[k := v]);
        }
      }
      WriteMask(mask, maskLen, diffBody);
      assert diffBody[..off] == diffBody[..maskLen] + diffBody[maskLen..off];
      DiffDone(e, p);
    }

    /** The DIFF branch of osfx_fusion_decode_apply on the entry at i. */
    method ApplyMask(i: nat, body: Text) returns (ok: bool)
      requires i < entries.Length && ValidEntry(entries[i])
      modifies entries
      ensures var a := ApplyDiff(old(entries[i]).lastVals, old(entries[i]).valCount, body);
              ok == a.ok && entries[..] == old(entries[..])[i := old(entries[i]).(lastVals := a.vals)]
    {
      hide BitAt, FromBE, ApplyTo, ValidEntry;
      ghost var t, e := entries[..], entries[i];
      EntrySizes(e);
      var count := entries[i].valCount;
      if count == 0 || |body| == 0 {
        return false;
      }
      var maskLen := (count + 7) / 8;
      if |body| < maskLen {
        return false;
      }
      var mask := ReadMask(body, maskLen);
      var off := maskLen;
      ghost var a := Applied(e.lastVals, maskLen, true);
      ApplyNext(e.lastVals, mask, body, maskLen, 0);
      for j := 0 to count
        invariant a == ApplyTo(e.lastVals, mask, body, maskLen, j)
        invariant a.ok && off == a.off && entries[..] == t[i := e.(lastVals := a.vals)]
      {
        ApplyNext(e.lastVals, mask, body, maskLen, j);
        ApplyStuck(e.lastVals, mask, body, maskLen, j + 1, count);
        a := ApplySlot(a, mask, body, j);
        if BitAt(mask, j) {
          if off >= |body| {
            return false;
          }
          var len := body[off] as nat;
          off := off + 1;
          if off + len > |body| || len >= MAX_VAL_LEN {
            return false;
          }
          entries[i] := entries[i].(lastVals := entries[i].lastVals[j := body[off..off + len]]);
          off := off + len;
        }
      }
      return true;
    }

    /** osfx_fusion_encode on a body that parsed: the chosen wire body, the cache updated. */
    method EncodeParsed(i: nat, body: Text, sig: Text, tagNames: array<Text>, slots: array<Text>, count: nat,
                        ghost p: Parsed)
      returns (cmd: byte, wire: Text)
      requires i < entries.Length && Fitting(entries[i], p)
      requires sig == p.sig && count == |p.sensors| && Stored(p.sensors, tagNames[..], slots[..])
      modifies entries
      ensures cmd == CmdOf(Choose(old(entries[i]), p)) && wire == WireBody(old(entries[i]), p, body)
      ensures entries[..] == old(entries[..])[i := Cached(old(entries[i]), p)]
    {
      hide SlotsOf, TagsOf, StructChanged, StoreFull, StoreChanged, InBounds, DiffBody;
      ghost var t, e := entries[..], entries[i];
      var changed := CompareStructure(i, sig, tagNames, count, p);
      if changed {
        cmd := DATA_FULL;
        wire := body;
        StoreParsed(i, sig, tagNames, slots, count, p);
      } else {
        var anyChanged := AnySlotChanged(i, slots, count * 2, SlotsOf(p.sensors));
        if !anyChanged {
          cmd := DATA_HEART;
          wire := [];
        } else {
          var diffBody := new byte[2 + MAX_VALS * (1 + MAX_VAL_LEN)];
          var off := BuildDiff(i, slots, count * 2, diffBody, p);
          cmd := DATA_DIFF;
          wire := diffBody[..off];
        }
      }
    }

    /** osfx_fusion_encode: 0 is returned without undoing the cache when framing fails. */
    method Encode(aid: uint32, tid: byte, ts: uint64, body: Text, out: array<byte>)
      returns (ok: bool, packetLen: nat, cmd: byte)
      requires Valid()
      modifies entries, out
      ensures Valid()
      ensures var r := FusionTable.Encode(old(entries[..]), aid, tid, ts, body, out.Length);
              && entries[..] == r.table
              && ok == r.packet.Some?
              && (ok ==> cmd == r.cmd && packetLen == |r.packet.value| <= out.Length)
              && (ok ==> out[..packetLen] == r.packet.value)
    {
      hide ParseBody, Place, Claimed, Choose, Cached, WireBody, Frame, Stored, Fitting;
      ghost var t := entries[..];
      EncodeKeepsGood(t, aid, tid, ts, body, out.Length);
      ok, packetLen, cmd := false, 0, 0;
      if |body| == 0 {
        return;
      }
      var tagNames := new Text[MAX_SENSORS](k => []);
      var slots := new Text[MAX_VALS](k => []);
      var count, sig := ParseBodySlots(body, tagNames, slots, MAX_SENSORS);
      if count == 0 {
        ParsedNotEmpty(body);
        packetLen := EncodeFull(DATA_FULL, aid, tid, ts, body, out);
        if packetLen > 0 {
          ok, cmd := true, DATA_FULL;
        }
        return;
      }
      ghost var p := ParseBody(body).value;
      var i := FindOrAlloc(aid, tid);
      if i == entries.Length {
        return;
      }
      ClaimedFits(t, aid, tid, body);
      ghost var claimed := entries[..];
      var wire: Text;
      cmd, wire := EncodeParsed(i, body, sig, tagNames, slots, count, p);
      assert claimed[i := Cached(claimed[i], p)] == t[i := Cached(claimed[i], p)];
      packetLen := EncodeFull(cmd, aid, tid, ts, wire, out);
      if packetLen > 0 {
        ok := true;
      }
    }

    /** The FULL branch of osfx_fusion_decode_apply: the cache is refreshed if it can be. */
    method Refresh(aid: uint32, tid: byte, body: Text)
      requires Valid()
      modifies entries
      ensures entries[..] ==
              match ParseBody(body)
              case None => old(entries[..])
              case Some(p) =>
                var i := Place(old(entries[..]), aid, tid);
                if i == MAX_ENTRIES then old(entries[..])
                else (ClaimedFits(old(entries[..]), aid, tid, body);
                      old(entries[..])[i := StoreFull(Claimed(old(entries[..]), aid, tid), p)])
    {
      hide ParseBody, Place, Claimed, StoreFull, Stored, Fitting;
      ghost var t := entries[..];
      var tagNames := new Text[MAX_SENSORS](k => []);
      var slots := new Text[MAX_VALS](k => []);
      var count, sig := ParseBodySlots(body, tagNames, slots, MAX_SENSORS);
      ParsedNotEmpty(body);
      if count > 0 {
        ghost var p := ParseBody(body).value;
        var i := FindOrAlloc(aid, tid);
        if i < entries.Length {
          ClaimedFits(t, aid, tid, body);
          ghost var claimed := entries[..];
          StoreParsed(i, sig, tagNames, slots, count, p);
          ghost var full := entries[i];
          assert claimed[i := full] == t[i := full];
        }
      }
    }

    /** osfx_fusion_decode_apply: checksum flags are not consulted, and a DIFF that turns out
        malformed has already changed the slots before the fault. */
    method DecodeApply(packet: Text, out: array<byte>) returns (ok: bool, bodyLen: nat, meta: Option<Meta>)
      requires Valid()
      modifies entries, out
      ensures Valid()
      ensures var r := FusionTable.Decode(old(entries[..]), packet, out.Length);
              && entries[..] == r.table
              && ok == r.body.Some?
              && (ok ==> meta == r.meta && bodyLen == |r.body.value| <= out.Length && out[..bodyLen] == r.body.value)
    {
      hide DecodeMeta, ParseBody, Place, Claimed, StoreFull, Find, BodyOf, ApplyDiff, Reconstruct, ValidEntry;
      ok, bodyLen, meta := false, 0, None;
      ghost var t := entries[..];
      DecodeKeepsGood(t, packet, out.Length);
      var m := DecodeMeta(packet);
      if m.None? {
        return;
      }
      var body := BodyOf(packet, m.value);
      var i := FindEntry(m.value.aid, m.value.tid);
      if m.value.cmd == DATA_FULL {
        Refresh(m.value.aid, m.value.tid, body);
        if |body| > out.Length {
          return;
        }
        CopyInto(body, out, 0);
        assert out[..|body|] == out[0..|body|];
        return true, |body|, m;
      } else if i == entries.Length {
        return;
      } else if m.value.cmd == DATA_DIFF {
        CountIsZero(entries[i], body);
        var applied := ApplyMask(i, body);
        assert t[i := t[i]] == t;
        if !applied {
          return;
        }
        AppliedIsValid(t[i], body);
        bodyLen := ReconstructBody(entries[i], m.value.ts, out);
        if bodyLen == 0 {
          return;
        }
        return true, bodyLen, m;
      } else if m.value.cmd == DATA_HEART {
        if entries[i].valCount == 0 {
          return;
        }
        bodyLen := ReconstructBody(entries[i], m.value.ts, out);
        if bodyLen == 0 {
          return;
        }
        return true, bodyLen, m;
      }
    }
  }

  lemma DecodeKeepsGood(t: Table, packet: Text, cap: nat)
    requires GoodTable(t)
    ensures GoodTable(FusionTable.Decode(t, packet, cap).table)
  {
    hide DecodeMeta, ParseBody, Place, Claimed, ApplyDiff, Reconstruct, BodyOf, ValidEntry;
    hide Fitting, Find, CStr, SensorsIn;
    DecodeKeepsValid(t, packet, cap);
    match DecodeMeta(packet)
    case None =>
    case Some(m) =>
      var body := BodyOf(packet, m);
      if m.cmd == DATA_FULL && ParseBody(body).Some? && Place(t, m.aid, m.tid) < |t| {
        ClaimedFits(t, m.aid, m.tid, body);
        StoreFullSig(Claimed(t, m.aid, m.tid), ParseBody(body).value);
      }
  }

  lemma ParsedNotEmpty(body: Text)
    ensures ParseBody(body).Some? ==> |ParseBody(body).value.sensors| > 0
  {
  }

  lemma CountIsZero(e: FusionEntry, body: Text)
    requires ValidEntry(e)
    ensures e.valCount <= |e.lastVals|
    ensures e.valCount == 0 ==> ApplyDiff(e.lastVals, e.valCount, body) == Applied(e.lastVals, 0, false)
  {
  }

  lemma EntrySizes(e: FusionEntry)
    requires ValidEntry(e)
    ensures |e.lastVals| == MAX_VALS && e.valCount <= MAX_VALS
  {
  }

  lemma ApplyNext(vals: seq<Text>, mask: nat, body: Text, off: nat, j: nat)
    requires j <= |vals|
    ensures ApplyTo(vals, mask, body, off, 0) == Applied(vals, off, true)
    ensures j < |vals| ==>
              ApplyTo(vals, mask, body, off, j + 1) == ApplySlot(ApplyTo(vals, mask, body, off, j), mask, body, j)
  {
    hide ApplySlot;
  }

  lemma DiffReady(e: FusionEntry, p: Parsed)
    requires Fitting(e, p)
    ensures |e.lastVals| == MAX_VALS && 0 < |p.sensors| <= MAX_SENSORS
    ensures Comparable(e.lastVals, SlotsOf(p.sensors), 2 * |p.sensors|)
  {
    hide SlotsOf;
    SlotsInBounds(p.sensors);
  }

  lemma DiffDone(e: FusionEntry, p: Parsed)
    requires Fitting(e, p) && Choose(e, p) == Diff
    ensures Comparable(e.lastVals, SlotsOf(p.sensors), 2 * |p.sensors|)
    ensures WireBody(e, p, []) ==
            BE(BitsValue(ChangedBits(e.lastVals, SlotsOf(p.sensors), 2 * |p.sensors|)), MaskLen(2 * |p.sensors|))
            + Payload(e.lastVals, SlotsOf(p.sensors), 2 * |p.sensors|)
    ensures StoreChanged(e, p) == e.(lastVals := Merged(e.lastVals, e.lastVals, SlotsOf(p.sensors), 2 * |p.sensors|))
  {
    hide SlotsOf, BitsValue, Merged, Payload, BE;
    SlotsInBounds(p.sensors);
  }

  /** The length byte and the value, behind what is already there. */
  method PutPiece(v: Text, out: array<byte>, start: nat, at: nat) returns (off: nat)
    requires |v| < 256 && start <= at && at + 1 + |v| <= out.Length
    modifies out
    ensures off == at + 1 + |v|
    ensures out[start..off] == old(out[start..at]) + ([|v| as byte] + v)
  {
    out[at] := |v|;
    off := at + 1;
    assert out[start..off] == old(out[start..at]) + [|v| as byte];
    CopyAfter(v, out, start, off);
    off := off + |v|;
  }

  /** What one turn of the DIFF loop adds. */
  lemma DiffTurn(old_: seq<Text>, news: seq<Text>, k: nat, n: nat)
    requires k <= n && Comparable(old_, news, n)
    ensures k == 0 ==> Merged(old_, old_, news, 0) == old_ && Payload(old_, news, 0) == []
    ensures k == 0 ==> BitsValue(ChangedBits(old_, news, 0)) == 0
    ensures k < n ==>
              && Merged(old_, old_, news, k)[k] == old_[k]
              && Merged(old_, old_, news, k + 1) ==
                 (if old_[k] != news[k] then Merged(old_, old_, news, k)[k := news[k]] else Merged(old_, old_, news, k))
              && Payload(old_, news, k + 1) ==
                 Payload(old_, news, k) + (if old_[k] != news[k] then [|news[k]| as byte] + news[k] else [])
              && BitsValue(ChangedBits(old_, news, k + 1)) ==
                 BitsValue(ChangedBits(old_, news, k)) + (if old_[k] != news[k] then P2(k) else 0)
  {
    hide Merged, Payload, BitsValue, ChangedBits, Piece;
    MergedNone(old_, old_, news);
    MergedKeeps(old_, news, k);
    NoBits(old_, news);
    PayloadStep(old_, news, 0);
    if k < n {
      MergedNext(old_, old_, news, k);
      PayloadStep(old_, news, k + 1);
      PieceIs(news[k]);
      BitsNext(old_, news, k);
    }
  }

  lemma MergedKeeps(old_: seq<Text>, news: seq<Text>, k: nat)
    requires k <= |old_| && k <= |news|
    ensures k < |old_| ==> Merged(old_, old_, news, k)[k] == old_[k]
  {
  }

  lemma NoBits(old_: seq<Text>, news: seq<Text>)
    ensures BitsValue(ChangedBits(old_, news, 0)) == 0
  {
  }

  lemma PieceIs(v: Text)
    requires |v| < 256
    ensures Piece(v) == [|v| as byte] + v
  {
  }

  lemma BitsNext(old_: seq<Text>, news: seq<Text>, k: nat)
    requires k < |old_| && k < |news|
    ensures BitsValue(ChangedBits(old_, news, k + 1)) ==
            BitsValue(ChangedBits(old_, news, k)) + (if old_[k] != news[k] then P2(k) else 0)
  {
    hide P2;
    var bits := ChangedBits(old_, news, k + 1);
    assert bits[..k] == ChangedBits(old_, news, k);
  }

  /** A copy behind what is already in the buffer. */
  method CopyAfter(v: Text, out: array<byte>, start: nat, off: nat)
    requires start <= off && off + |v| <= out.Length
    modifies out
    ensures out[start..off + |v|] == old(out[start..off]) + v
    ensures out[..start] == old(out[..start])
    ensures forall k :: off + |v| <= k < out.Length ==> out[k] == old(out[k])
  {
    CopyInto(v, out, off);
    assert out[start..off] == out[..off][start..] == old(out[..off])[start..];
    assert out[..start] == out[..off][..start];
    assert out[start..off + |v|] == out[start..off] + out[off..off + |v|];
  }

  /** Writes the mask big-endian, its low byte first. */
  method WriteMask(mask: nat, maskLen: nat, out: array<byte>)
    requires maskLen <= out.Length
    modifies out
    ensures out[..maskLen] == BE(mask, maskLen)
    ensures forall k :: maskLen <= k < out.Length ==> out[k] == old(out[k])
  {
    hide Digits;
    var m := mask;
    MaskByte(mask, 0);
    for k := 0 to maskLen
      invariant m == mask / Pow(256, k)
      invariant out[maskLen - k..maskLen] == BE(mask, k)
      invariant forall j :: maskLen <= j < out.Length ==> out[j] == old(out[j])
    {
      MaskByte(mask, k);
      out[maskLen - 1 - k] := m % 256;
      m := m / 256;
      assert out[maskLen - k - 1..maskLen] == [out[maskLen - 1 - k]] + out[maskLen - k..maskLen];
    }
  }

  lemma MaskByte(mask: nat, k: nat)
    ensures k == 0 ==> mask / Pow(256, 0) == mask && BE(mask, 0) == []
    ensures mask / Pow(256, k + 1) == mask / Pow(256, k) / 256
    ensures BE(mask, k + 1) == [mask / Pow(256, k) % 256] + BE(mask, k)
  {
    var p := Pow(256, k);
    ModStep(mask, p, 256);
    assert Pow(256, k + 1) == p * 256;
    DigitsSplit(mask, 256, 1, k);
    assert Digits(mask / p, 256, 1) == Digits(mask / p / 256, 256, 0) + [mask / p % 256];
  }

  method ReadMask(body: Text, maskLen: nat) returns (mask: nat)
    requires maskLen <= |body|
    ensures mask == FromBE(body[..maskLen])
  {
    mask := 0;
    for j := 0 to maskLen
      invariant mask == FromBE(body[..j])
    {
      assert body[..j + 1][..j] == body[..j];
      mask := mask * 256 + body[j];
    }
  }

  /** A failed application stays as it was at the failure. */
  lemma {:induction false} ApplyStuck(vals: seq<Text>, mask: nat, body: Text, off: nat, j: nat, n: nat)
    requires j <= n <= |vals|
    ensures !ApplyTo(vals, mask, body, off, j).ok ==>
              ApplyTo(vals, mask, body, off, n).vals == ApplyTo(vals, mask, body, off, j).vals &&
              !ApplyTo(vals, mask, body, off, n).ok
    decreases n
  {
    hide BitAt;
    if j < n {
      ApplyStuck(vals, mask, body, off, j, n - 1);
    }
  }

  lemma {:induction false} SensorsTextSnoc(xs: seq<Sensor>, k: nat)
    requires k < |xs|
    ensures SensorsText(xs[..k + 1]) == SensorsText(xs[..k]) + SegmentText(xs[k]) + [BAR]
    decreases k
  {
    hide SegmentText;
    if k == 0 {
      assert xs[..1] == [xs[0]] && xs[..1][1..] == [];
    } else {
      SensorsTextSnoc(xs[1..], k - 1);
      assert xs[..k + 1][1..] == xs[1..][..k] && xs[..k][1..] == xs[1..][..k - 1];
    }
  }

  lemma {:induction false} SensorsTextGrows(xs: seq<Sensor>, k: nat)
    requires k <= |xs|
    ensures |SensorsText(xs[..k])| <= |SensorsText(xs)|
    decreases |xs| - k
  {
    if k == |xs| {
      assert xs[..k] == xs;
    } else {
      SensorsTextSnoc(xs, k);
      SensorsTextGrows(xs, k + 1);
    }
  }

  /** reconstruct_body: the bytes written, 0 if the text does not fit. */
  method ReconstructBody(e: FusionEntry, ts: nat, out: array<byte>) returns (n: nat)
    requires ValidEntry(e)
    modifies out
    ensures match Reconstruct(e, ts, out.Length)
            case None => n == 0
            case Some(text) => n == |text| <= out.Length && out[..n] == text
  {
    hide Decimal, SegmentText, SensorsText;
    if out.Length == 0 || e.sigBase == [] || e.sensorCount == 0 {
      return 0;
    }
    ghost var xs := SensorsIn(e);
    if |e.sigBase| + 1 > out.Length {
      return 0;
    }
    var off := Put(e.sigBase, out, 0);
    var tsText := Decimal(ts);
    if off + |tsText| + 1 > out.Length {
      return 0;
    }
    off := Put(tsText, out, off);
    off := Put([BAR], out, off);
    ghost var head := e.sigBase + tsText + [BAR];
    SensorsTextEmpty();
    assert xs[..0] == [];
    for i := 0 to e.sensorCount
      invariant 0 <= off <= out.Length
      invariant out[..off] == head + SensorsText(xs[..i])
    {
      var tag, meta, val := e.tagNames[i], e.lastVals[i * 2], e.lastVals[i * 2 + 1];
      assert xs[i] == Sensor(tag, meta, val);
      SegmentLength(xs[i]);
      SensorsTextSnoc(xs, i);
      SensorsTextGrows(xs, i + 1);
      if off + |tag| + 1 + |meta| + 1 + |val| + 1 > out.Length {
        return 0;
      }
      off := WriteSegment(xs[i], tag, meta, val, out, off);
    }
    assert xs[..e.sensorCount] == xs;
    return off;
  }

  lemma SegmentLength(x: Sensor)
    ensures |SegmentText(x)| == |x.tag| + 1 + |x.meta| + 1 + |x.val|
  {
  }

  /** Writes v behind the first at bytes. */
  method Put(v: Text, out: array<byte>, at: nat) returns (off: nat)
    requires at + |v| <= out.Length
    modifies out
    ensures off == at + |v| && out[..off] == old(out[..at]) + v
  {
    CopyAfter(v, out, 0, at);
    assert out[..at + |v|] == out[0..at + |v|];
    return at + |v|;
  }

  method WriteSegment(ghost x: Sensor, tag: Text, meta: Text, val: Text, out: array<byte>, at: nat) returns (off: nat)
    requires x == Sensor(tag, meta, val)
    requires at + |SegmentText(x)| + 1 <= out.Length
    modifies out
    ensures off == at + |SegmentText(x)| + 1
    ensures out[..off] == old(out[..at]) + (SegmentText(x) + [BAR])
  {
    ghost var head := out[..at];
    off := Put(tag, out, at);
    off := Put([GT], out, off);
    off := Put(meta, out, off);
    off := Put([COLON], out, off);
    off := Put(val, out, off);
    off := Put([BAR], out, off);
    assert head + tag + [GT] + meta + [COLON] + val + [BAR] == head + (SegmentText(x) + [BAR]);
  }
}
