/** What the receiving side of src/osfx_fusion_state.c does with any packet at all: whose
    it is, what it changes, what it is refused for, and the metadata handed out with it. */
module FusionReceiver {
  import opened Bytes
  import opened Numerals
  import opened Commands
  import opened Packet
  import opened FusionText
  import opened FusionDiff
  import opened FusionTable
  import opened FusionRuns
  import opened FusionHistory

  // ---- Metadata ----------------------------------------------------------

  /** Whatever arrives: a body comes with the metadata read from the packet, and nothing else does. */
  lemma MetaOfPacket(t: Table, packet: Text, cap: nat)
    requires ValidTable(t)
    ensures var g := Decode(t, packet, cap);
            (g.body.Some? <==> g.meta.Some?) && (g.meta.Some? ==> g.meta == DecodeMeta(packet))
  {
    hide DecodeMeta, ParseBody, Place, Find, Claimed, StoreFull, ApplyDiff, Reconstruct, BodyOf, ValidTable;
  }

  /** The packet of any send carries its sender's fields: kind, key, 48-bit time and body length. */
  lemma SentMeta(t: Table, s: Send)
    requires ValidTable(t) && EncodeSend(t, s).packet.Some?
    ensures var sent := EncodeSend(t, s);
            var packet := sent.packet.value;
            && |packet| >= OVERHEAD
            && DecodeMeta(packet) ==
               Some(Meta(sent.cmd, 1, s.aid, s.tid, s.ts % 0x1_0000_0000_0000, 13, |packet| - 16, true, true))
            && (sent.cmd == DATA_FULL ==> BodyOf(packet, DecodeMeta(packet).value) == s.body)
            && (sent.cmd == DATA_HEART ==> |packet| == OVERHEAD)
  {
    hide DecodeMeta, ParseBody, Place, Claimed, Choose, DiffBody, Cached, Frame, ValidTable, BodyOf;
    var sent := EncodeSend(t, s);
    if ParseBody(s.body).None? {
      FrameDecodes(DATA_FULL, s.aid, s.tid, s.ts, s.body);
    } else {
      ClaimedFits(t, s.aid, s.tid, s.body);
      var e, p := Claimed(t, s.aid, s.tid), ParseBody(s.body).value;
      FrameDecodes(sent.cmd, s.aid, s.tid, s.ts, WireBody(e, p, s.body));
    }
  }

  /** What is handed on for a sender's packet, by any receiver, is handed on as that sender's. */
  lemma DeliveredMeta(t: Table, s: Send, rx: Table, cap: nat)
    requires ValidTable(t) && ValidTable(rx) && EncodeSend(t, s).packet.Some?
    ensures var sent := EncodeSend(t, s);
            var g := Decode(rx, sent.packet.value, cap);
            && (g.body.Some? <==> g.meta.Some?)
            && (g.meta.Some? ==>
                  g.meta.value == Meta(sent.cmd, 1, s.aid, s.tid, s.ts % 0x1_0000_0000_0000, 13,
                                       |sent.packet.value| - 16, true, true))
  {
    hide Decode, EncodeSend, DecodeMeta, ValidTable;
    SentMeta(t, s);
    MetaOfPacket(rx, EncodeSend(t, s).packet.value, cap);
  }

  // ---- Whose entry a packet may change -----------------------------------

  /** A packet changes no entry but the one of its own aid and template. */
  lemma OnlyItsOwnEntry(t: Table, packet: Text, cap: nat, aid: uint32, tid: byte)
    requires ValidTable(t)
    requires DecodeMeta(packet).Some? ==> (DecodeMeta(packet).value.aid, DecodeMeta(packet).value.tid) != (aid, tid)
    ensures Lookup(Decode(t, packet, cap).table, aid, tid) == Lookup(t, aid, tid)
  {
    hide DecodeMeta, ParseBody, Find, ReceiveFull, ReceiveDiff, ReceiveHeart, BodyOf, ValidTable, Lookup;
    if DecodeMeta(packet).Some? {
      var m := DecodeMeta(packet).value;
      FullOnlyItsOwn(t, m, BodyOf(packet, m), cap, aid, tid);
      if Find(t, m.aid, m.tid) < |t| {
        DiffOnlyItsOwn(t, m, BodyOf(packet, m), cap, aid, tid);
        HeartChangesNothing(t, m, cap);
      }
    }
  }

  lemma HeartChangesNothing(t: Table, m: Meta, cap: nat)
    requires ValidTable(t) && Find(t, m.aid, m.tid) < |t|
    ensures ReceiveHeart(t, Find(t, m.aid, m.tid), m, cap).table == t
  {
  }

  lemma FullOnlyItsOwn(t: Table, m: Meta, body: Text, cap: nat, aid: uint32, tid: byte)
    requires ValidTable(t) && (m.aid, m.tid) != (aid, tid)
    ensures Lookup(ReceiveFull(t, m, body, cap).table, aid, tid) == Lookup(t, aid, tid)
  {
    hide ParseBody, Find, FreeSlot, ValidTable, Lookup, CStr, Overwrite;
    if ParseBody(body).Some? && Place(t, m.aid, m.tid) < |t| {
      ClaimedFits(t, m.aid, m.tid, body);
      OthersUntouched(t, m.aid, m.tid, StoreFull(Claimed(t, m.aid, m.tid), ParseBody(body).value), aid, tid);
    }
  }

  lemma DiffOnlyItsOwn(t: Table, m: Meta, body: Text, cap: nat, aid: uint32, tid: byte)
    requires ValidTable(t) && (m.aid, m.tid) != (aid, tid) && Find(t, m.aid, m.tid) < |t|
    ensures Lookup(ReceiveDiff(t, Find(t, m.aid, m.tid), m, body, cap).table, aid, tid) == Lookup(t, aid, tid)
  {
    hide Find, ApplyDiff, Reconstruct, Lookup;
    var i := Find(t, m.aid, m.tid);
    assert ValidEntry(t[i]);
    OthersUntouched(t, m.aid, m.tid, t[i].(lastVals := ApplyDiff(t[i].lastVals, t[i].valCount, body).vals), aid, tid);
  }

  /** Both checksums are only reported: packets that differ in them alone do the same. */
  lemma ChecksumsOnlyReported(t: Table, p: Text, q: Text, cap: nat)
    requires ValidTable(t) && |p| == |q| >= 16 && p[..|p| - 3] == q[..|q| - 3]
    ensures Decode(t, p, cap).table == Decode(t, q, cap).table
    ensures Decode(t, p, cap).body == Decode(t, q, cap).body
  {
    hide ParseBody, Place, Find, Claimed, StoreFull, ApplyDiff, Reconstruct, ValidTable;
    SameButChecksums(p, q);
    hide DecodeMeta, BodyOf;
  }

  lemma SameButChecksums(p: Text, q: Text)
    requires |p| == |q| >= 16 && p[..|p| - 3] == q[..|q| - 3]
    ensures match DecodeMeta(p)
            case None => DecodeMeta(q).None?
            case Some(m) => DecodeMeta(q).Some? && BodyOf(p, m) == BodyOf(q, DecodeMeta(q).value) &&
                            DecodeMeta(q).value.(crc8Ok := m.crc8Ok, crc16Ok := m.crc16Ok) == m
  {
    hide FromBE, Crc8Body, Crc16Frame;
    var n := |p| - 3;
    assert forall k :: 0 <= k < n ==> p[..n][k] == q[..n][k];
    var at := 2 + p[1] as nat * 4;
    SamePart(p, q, n, 2, 6);
    if at + 10 <= |p| {
      SamePart(p, q, n, at + 1, at + 7);
      SamePart(p, q, n, at + 7, n);
    }
  }

  lemma SamePart(p: Text, q: Text, n: nat, lo: nat, hi: nat)
    requires lo <= hi <= n <= |p| && n <= |q| && p[..n] == q[..n]
    ensures p[lo..hi] == q[lo..hi]
  {
    assert p[lo..hi] == p[..n][lo..hi] && q[lo..hi] == q[..n][lo..hi];
  }

  /** What leaves the receiver as it is and hands nothing on: a packet too short, a command that is
      not one of the three clear data commands, and a DIFF or HEART whose key has no filled entry. */
  lemma Ignored(t: Table, packet: Text, cap: nat)
    requires ValidTable(t)
    requires DecodeMeta(packet).Some? ==>
               var m := DecodeMeta(packet).value;
               && m.cmd != DATA_FULL
               && ((m.cmd == DATA_DIFF || m.cmd == DATA_HEART) ==>
                     Lookup(t, m.aid, m.tid).None? || Lookup(t, m.aid, m.tid).value.valCount == 0)
    ensures Decode(t, packet, cap) == Got(t, None, None)
  {
    hide DecodeMeta, Find, ApplyDiff, Reconstruct, BodyOf, ValidTable;
  }

  /** A HEART says with its time alone that nothing changed; a body it carries is not looked at. */
  lemma AnyHeart(t: Table, packet: Text, cap: nat)
    requires ValidTable(t) && DecodeMeta(packet).Some? && DecodeMeta(packet).value.cmd == DATA_HEART
    requires var m := DecodeMeta(packet).value;
             Lookup(t, m.aid, m.tid).Some? && Lookup(t, m.aid, m.tid).value.valCount > 0
    ensures var m, g := DecodeMeta(packet).value, Decode(t, packet, cap);
            var e := Lookup(t, m.aid, m.tid).value;
            && g.table == t && ValidEntry(e)
            && var text := BodyText(e.sigBase, m.ts, SensorsIn(e));
               g.body == if e.sigBase != [] && |text| <= cap then Some(text) else None
  {
    hide DecodeMeta, Find, BodyOf, BodyText, SensorsIn;
    assert ValidEntry(t[Find(t, DecodeMeta(packet).value.aid, DecodeMeta(packet).value.tid)]);
  }

  /** A FULL hands its body on whatever it says, and its key's entry afterwards holds the slots if
      the body parses and there is an entry or room for one; otherwise the table is as it was. */
  lemma AnyFull(t: Table, packet: Text, cap: nat)
    requires ValidTable(t) && DecodeMeta(packet).Some? && DecodeMeta(packet).value.cmd == DATA_FULL
    ensures var m, g := DecodeMeta(packet).value, Decode(t, packet, cap);
            var body := BodyOf(packet, m);
            && g.body == (if |body| <= cap then Some(body) else None)
            && if ParseBody(body).Some? && Place(t, m.aid, m.tid) < |t| then
                 Lookup(g.table, m.aid, m.tid).Some? &&
                 Holds(Lookup(g.table, m.aid, m.tid).value, ParseBody(body).value)
               else g.table == t
  {
    hide DecodeMeta, BodyOf, ParseBody, Place, Claimed, Find, SensorsIn, StoreFull, Fitting, ValidEntry, CStr;
    var m := DecodeMeta(packet).value;
    var body := BodyOf(packet, m);
    if ParseBody(body).Some? && Place(t, m.aid, m.tid) < |t| {
      ClaimedFits(t, m.aid, m.tid, body);
      var e, p := Claimed(t, m.aid, m.tid), ParseBody(body).value;
      StoreFullHolds(e, p);
      StoreFullSig(e, p);
      ClaimedMatches(t, m.aid, m.tid);
      StillMatches(e, p, m.aid, m.tid);
      FoundAfterUpdate(t, m.aid, m.tid, StoreFull(e, p));
    }
  }

  lemma StillMatches(e: FusionEntry, p: Parsed, aid: uint32, tid: byte)
    requires Fitting(e, p) && Matches(e, aid, tid)
    ensures |p.sensors| <= |e.tagNames| && 2 * |p.sensors| <= |e.lastVals| && Matches(StoreFull(e, p), aid, tid)
  {
  }

  // ---- Any DIFF body -----------------------------------------------------

  /** The pieces of the slots below j whose mask bit is set. */
  function Pieces(w: seq<Text>, mask: nat, j: nat): Text
    requires Short(w, mask, j)
  {
    if j == 0 then [] else Pieces(w, mask, j - 1) + if BitAt(mask, j - 1) then Piece(w[j - 1]) else []
  }

  ghost predicate Short(w: seq<Text>, mask: nat, j: nat) {
    j <= |w| && forall i :: 0 <= i < j && BitAt(mask, i) ==> |w[i]| < MAX_VAL_LEN
  }

  /** v with the slots below j whose bit is set taken from w. */
  function Patched(v: seq<Text>, w: seq<Text>, mask: nat, j: nat): (r: seq<Text>)
    requires |w| == |v|
    ensures |r| == |v|
  {
    seq(|v|, i requires 0 <= i < |v| => if i < j && BitAt(mask, i) then w[i] else v[i])
  }

  /** From off on, the body shows the pieces of w below j. */
  ghost predicate Shows(body: Text, off: nat, w: seq<Text>, mask: nat, j: nat) {
    Short(w, mask, j) && off <= |body| && Pieces(w, mask, j) <= body[off..]
  }

  /** Where the piece of slot j should be, the body ends, cuts it short or announces too long a value. */
  predicate Faulty(body: Text, at: nat) {
    at >= |body| || at + 1 + body[at] > |body| || body[at] >= MAX_VAL_LEN
  }

  lemma ShowsLess(body: Text, off: nat, w: seq<Text>, mask: nat, j: nat)
    requires j > 0 && Shows(body, off, w, mask, j)
    ensures j <= |w| && Short(w, mask, j) && Shows(body, off, w, mask, j - 1)
    ensures BitAt(mask, j - 1) ==>
              var at := off + |Pieces(w, mask, j - 1)|;
              && |w[j - 1]| < MAX_VAL_LEN && at + 1 + |w[j - 1]| <= |body|
              && body[at] == |w[j - 1]| && body[at + 1..at + 1 + |w[j - 1]|] == w[j - 1]
  {
    hide BitAt, Pieces, Piece, Short;
    PiecesNext(w, mask, j);
    PrefixOfSum(Pieces(w, mask, j - 1), Pieces(w, mask, j), body[off..]);
    if BitAt(mask, j - 1) {
      PieceInside(body[..off], Pieces(w, mask, j - 1), w[j - 1], body[off..]);
      assert body == body[..off] + body[off..];
    }
  }

  lemma PrefixOfSum(a: Text, b: Text, c: Text)
    requires a <= b <= c
    ensures a <= c
  {
  }

  /** Pieces that the body shows are read as they are written. */
  lemma {:induction false} PiecesRead(v: seq<Text>, body: Text, off: nat, w: seq<Text>, mask: nat, j: nat)
    requires |w| == |v| && Shows(body, off, w, mask, j)
    ensures ApplyTo(v, mask, body, off, j) == Applied(Patched(v, w, mask, j), off + |Pieces(w, mask, j)|, true)
  {
    hide BitAt, ApplySlot, Shows, Patched, Pieces;
    if j == 0 {
      NoPieces(w, mask);
      PatchedNone(v, w, mask);
    } else {
      ShowsLess(body, off, w, mask, j);
      PiecesRead(v, body, off, w, mask, j - 1);
      NextPieceRead(v, ApplyTo(v, mask, body, off, j - 1), body, off, w, mask, j);
    }
  }

  lemma NextPieceRead(v: seq<Text>, a: Applied, body: Text, off: nat, w: seq<Text>, mask: nat, j: nat)
    requires 0 < j <= |w| == |v| && Shows(body, off, w, mask, j) && Short(w, mask, j - 1) && Short(w, mask, j)
    requires a == Applied(Patched(v, w, mask, j - 1), off + |Pieces(w, mask, j - 1)|, true)
    ensures ApplySlot(a, mask, body, j - 1) == Applied(Patched(v, w, mask, j), off + |Pieces(w, mask, j)|, true)
  {
    hide BitAt, ApplySlot, Shows, Patched, Pieces, Short;
    ShowsLess(body, off, w, mask, j);
    PatchedNext(v, w, mask, j);
    PiecesNext(w, mask, j);
    if BitAt(mask, j - 1) {
      ApplyPiece(a, mask, body, j - 1, w[j - 1]);
    } else {
      ApplyNothing(a, mask, body, j - 1);
    }
  }

  lemma PiecesNext(w: seq<Text>, mask: nat, j: nat)
    requires j > 0 && Short(w, mask, j)
    ensures j <= |w| && Short(w, mask, j - 1)
    ensures BitAt(mask, j - 1) ==> |w[j - 1]| < MAX_VAL_LEN
    ensures Pieces(w, mask, j) == Pieces(w, mask, j - 1) + if BitAt(mask, j - 1) then Piece(w[j - 1]) else []
    ensures |Pieces(w, mask, j)| == |Pieces(w, mask, j - 1)| + if BitAt(mask, j - 1) then 1 + |w[j - 1]| else 0
  {
    hide BitAt;
  }

  lemma NoPieces(w: seq<Text>, mask: nat)
    ensures Short(w, mask, 0) && Pieces(w, mask, 0) == []
  {
  }

  lemma PatchedNone(v: seq<Text>, w: seq<Text>, mask: nat)
    requires |w| == |v|
    ensures Patched(v, w, mask, 0) == v
  {
  }

  lemma PatchedNext(v: seq<Text>, w: seq<Text>, mask: nat, j: nat)
    requires 0 < j <= |w| == |v|
    ensures Patched(v, w, mask, j) ==
            if BitAt(mask, j - 1) then Patched(v, w, mask, j - 1)[j - 1 := w[j - 1]] else Patched(v, w, mask, j - 1)
  {
    hide BitAt;
  }

  /** What was read is what the body shows, and only cells whose bit is set have changed. */
  lemma {:induction false} ReadIsShown(v: seq<Text>, body: Text, off: nat, mask: nat, j: nat)
    requires j <= |v| && off <= |body| && ApplyTo(v, mask, body, off, j).ok
    ensures Shows(body, off, ApplyTo(v, mask, body, off, j).vals, mask, j)
    ensures Patched(v, ApplyTo(v, mask, body, off, j).vals, mask, j) == ApplyTo(v, mask, body, off, j).vals
    ensures ApplyTo(v, mask, body, off, j).off == off + |Pieces(ApplyTo(v, mask, body, off, j).vals, mask, j)|
  {
    hide BitAt, ApplySlot, Shows;
    if j == 0 {
      ShowsNothing(body, off, v, mask);
    } else {
      var a, b := ApplyTo(v, mask, body, off, j - 1), ApplyTo(v, mask, body, off, j);
      SlotRead(a, mask, body, j - 1);
      ReadIsShown(v, body, off, mask, j - 1);
      ShownBelow(body, off, a.vals, b.vals, mask, j - 1);
      ShowsMore(body, off, b.vals, mask, j);
      PiecesNext(b.vals, mask, j);
    }
  }

  lemma ShowsNothing(body: Text, off: nat, w: seq<Text>, mask: nat)
    requires off <= |body|
    ensures Short(w, mask, 0) && Shows(body, off, w, mask, 0)
    ensures Pieces(w, mask, 0) == [] && Patched(w, w, mask, 0) == w
  {
  }

  /** One slot that was read without fault. */
  lemma SlotRead(a: Applied, mask: nat, body: Text, j: nat)
    requires j < |a.vals| && ApplySlot(a, mask, body, j).ok
    ensures a.ok
    ensures !BitAt(mask, j) ==> ApplySlot(a, mask, body, j) == a
    ensures BitAt(mask, j) ==>
              var b := ApplySlot(a, mask, body, j);
              && b.vals == a.vals[j := b.vals[j]] && |b.vals[j]| < MAX_VAL_LEN
              && a.off + 1 + |b.vals[j]| == b.off <= |body|
              && body[a.off] == |b.vals[j]| && body[a.off + 1..b.off] == b.vals[j]
  {
    hide BitAt;
  }

  /** The pieces below j depend on the cells below j alone. */
  lemma {:induction false} ShownBelow(body: Text, off: nat, w: seq<Text>, u: seq<Text>, mask: nat, j: nat)
    requires Shows(body, off, w, mask, j) && |u| == |w| && forall i :: 0 <= i < j ==> u[i] == w[i]
    ensures Shows(body, off, u, mask, j) && Pieces(u, mask, j) == Pieces(w, mask, j)
  {
    hide BitAt;
    SamePieces(w, u, mask, j);
  }

  lemma {:induction false} SamePieces(w: seq<Text>, u: seq<Text>, mask: nat, j: nat)
    requires Short(w, mask, j) && |u| == |w| && forall i :: 0 <= i < j ==> u[i] == w[i]
    ensures Short(u, mask, j) && Pieces(u, mask, j) == Pieces(w, mask, j)
  {
    hide BitAt, Piece;
    if j > 0 {
      SamePieces(w, u, mask, j - 1);
    }
  }

  lemma ShowsMore(body: Text, off: nat, w: seq<Text>, mask: nat, j: nat)
    requires 0 < j <= |w| && Shows(body, off, w, mask, j - 1)
    requires BitAt(mask, j - 1) ==>
               var at := off + |Pieces(w, mask, j - 1)|;
               && |w[j - 1]| < MAX_VAL_LEN && at + 1 + |w[j - 1]| <= |body|
               && body[at] == |w[j - 1]| && body[at + 1..at + 1 + |w[j - 1]|] == w[j - 1]
    ensures Short(w, mask, j) && Shows(body, off, w, mask, j)
  {
    hide BitAt;
    if BitAt(mask, j - 1) {
      var front := Pieces(w, mask, j - 1);
      var at := off + |front|;
      assert body[off..at + 1 + |w[j - 1]|] == front + Piece(w[j - 1]);
    }
  }

  /** The mask that a body opens with. */
  function MaskOf(body: Text, n: nat): nat
    requires |body| >= MaskLen(n)
  {
    FromBE(body[..MaskLen(n)])
  }

  /** The DIFF bodies that n slots accept: those whose mask is followed by the pieces of the new
      values, whatever comes after them; every other cell keeps its value. */
  lemma DiffReadIff(v: seq<Text>, n: nat, body: Text, w: seq<Text>)
    requires 0 < n <= |v| == |w|
    ensures (ApplyDiff(v, n, body).ok && ApplyDiff(v, n, body).vals == w) <==>
            |body| >= MaskLen(n) && Shows(body, MaskLen(n), w, MaskOf(body, n), n) &&
            Patched(v, w, MaskOf(body, n), n) == w
  {
    hide BitAt, FromBE, ApplyTo, Shows, Patched;
    if |body| >= MaskLen(n) {
      var mask := MaskOf(body, n);
      if ApplyDiff(v, n, body).ok {
        ReadIsShown(v, body, MaskLen(n), mask, n);
      }
      if Shows(body, MaskLen(n), w, mask, n) {
        PiecesRead(v, body, MaskLen(n), w, mask, n);
      }
    }
  }

  /** The first fault: the pieces below j are there, that of slot j is not. */
  ghost predicate FaultAt(body: Text, n: nat, w: seq<Text>, j: nat)
    requires |body| >= MaskLen(n)
  {
    var mask := MaskOf(body, n);
    && j < n && BitAt(mask, j)
    && Shows(body, MaskLen(n), w, mask, j)
    && Faulty(body, MaskLen(n) + |Pieces(w, mask, j)|)
  }

  /** A DIFF is refused at its first faulty piece, and the slots before it keep their new values. */
  lemma DiffRefusedIff(v: seq<Text>, n: nat, body: Text, u: seq<Text>)
    requires 0 < n <= |v| == |u| && |body| >= MaskLen(n)
    ensures (!ApplyDiff(v, n, body).ok && ApplyDiff(v, n, body).vals == u) <==>
            exists w: seq<Text>, j: nat ::
              |w| == |v| && FaultAt(body, n, w, j) && u == Patched(v, w, MaskOf(body, n), j)
  {
    hide BitAt, FromBE, ApplyTo, Patched, Shows, Faulty;
    var mask := MaskOf(body, n);
    if !ApplyDiff(v, n, body).ok {
      var w, j := FirstFault(v, body, MaskLen(n), mask, n);
      assert FaultAt(body, n, w, j);
    }
    forall w: seq<Text>, j: nat | |w| == |v| && FaultAt(body, n, w, j)
      ensures !ApplyDiff(v, n, body).ok && ApplyDiff(v, n, body).vals == Patched(v, w, mask, j)
    {
      PiecesRead(v, body, MaskLen(n), w, mask, j);
      StopsAt(v, body, MaskLen(n), mask, j, n);
    }
  }

  lemma {:induction false} FirstFault(v: seq<Text>, body: Text, off: nat, mask: nat, n: nat)
    returns (w: seq<Text>, j: nat)
    requires n <= |v| && off <= |body| && !ApplyTo(v, mask, body, off, n).ok
    ensures |w| == |v| && j < n && BitAt(mask, j) && Shows(body, off, w, mask, j)
    ensures Faulty(body, off + |Pieces(w, mask, j)|)
    ensures ApplyTo(v, mask, body, off, n).vals == Patched(v, w, mask, j)
  {
    hide BitAt, Shows, Patched;
    if ApplyTo(v, mask, body, off, n - 1).ok {
      j := n - 1;
      w := ApplyTo(v, mask, body, off, j).vals;
      ReadIsShown(v, body, off, mask, j);
    } else {
      w, j := FirstFault(v, body, off, mask, n - 1);
    }
  }

  /** After a fault nothing more is read. */
  lemma {:induction false} StopsAt(v: seq<Text>, body: Text, off: nat, mask: nat, j: nat, n: nat)
    requires j < n <= |v| && BitAt(mask, j)
    requires ApplyTo(v, mask, body, off, j).ok && Faulty(body, ApplyTo(v, mask, body, off, j).off)
    ensures !ApplyTo(v, mask, body, off, n).ok
    ensures ApplyTo(v, mask, body, off, n).vals == ApplyTo(v, mask, body, off, j).vals
    decreases n
  {
    hide BitAt;
    if j < n - 1 {
      StopsAt(v, body, off, mask, j, n - 1);
    }
  }

  /** What any DIFF packet does to the entry of its key: the cells become what could be read of it,
      and a body is handed on exactly if all of it could be read and the text fits. */
  lemma AnyDiff(t: Table, packet: Text, cap: nat)
    requires ValidTable(t) && DecodeMeta(packet).Some? && DecodeMeta(packet).value.cmd == DATA_DIFF
    requires var m := DecodeMeta(packet).value;
             Lookup(t, m.aid, m.tid).Some? && Lookup(t, m.aid, m.tid).value.valCount > 0
    ensures var m, g := DecodeMeta(packet).value, Decode(t, packet, cap);
            var e := Lookup(t, m.aid, m.tid).value;
            && ValidEntry(e)
            && var a := ApplyDiff(e.lastVals, e.valCount, BodyOf(packet, m));
               && Lookup(g.table, m.aid, m.tid) == Some(e.(lastVals := a.vals))
               && ValidEntry(e.(lastVals := a.vals))
               && g.body == if a.ok then Reconstruct(e.(lastVals := a.vals), m.ts, cap) else None
  {
    hide DecodeMeta, Find, ApplyDiff, BodyOf, ValidEntry, Reconstruct;
    var m := DecodeMeta(packet).value;
    var i, body := Find(t, m.aid, m.tid), BodyOf(packet, m);
    assert ValidEntry(t[i]);
    AppliedIsValid(t[i], body);
    FoundAfterUpdate(t, m.aid, m.tid, t[i].(lastVals := ApplyDiff(t[i].lastVals, t[i].valCount, body).vals));
  }
}
