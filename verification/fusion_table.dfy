/** The tables that sender and receiver of src/osfx_fusion_state.c keep, and what
    one encode and one decode do to them, as functions. */
module FusionTable {
  import opened Bytes
  import opened Numerals
  import opened Commands
  import opened Packet
  import opened FusionText
  import opened FusionDiff

  const MAX_ENTRIES: nat := 32

  /** One osfx_fusion_entry. Cells beyond the counts keep what they held before.
      sigBase is the C string in the sig_base buffer: every read of that buffer
      stops at its first NUL. */
  datatype FusionEntry = FusionEntry(
    used: bool,
    aid: uint32,
    tid: byte,
    sensorCount: nat,
    valCount: nat,
    sigBase: Text,
    tagNames: seq<Text>,
    lastVals: seq<Text>)

  type Table = seq<FusionEntry>

  function NoTexts(n: nat): (s: seq<Text>)
    ensures |s| == n
  {
    seq(n, i => [])
  }

  const Zeroed: FusionEntry := FusionEntry(false, 0, 0, 0, 0, [], NoTexts(MAX_SENSORS), NoTexts(MAX_VALS))

  function EmptyTable(): (t: Table)
    ensures |t| == MAX_ENTRIES
  {
    seq(MAX_ENTRIES, i => Zeroed)
  }

  ghost predicate ValidEntry(e: FusionEntry) {
    && |e.tagNames| == MAX_SENSORS && |e.lastVals| == MAX_VALS
    && e.sensorCount <= MAX_SENSORS && e.valCount == 2 * e.sensorCount
    && forall i :: 0 <= i < MAX_VALS ==> |e.lastVals[i]| < MAX_VAL_LEN
  }

  ghost predicate ValidTable(t: Table) {
    |t| == MAX_ENTRIES && forall i :: 0 <= i < |t| ==> ValidEntry(t[i])
  }

  // ---- Search ------------------------------------------------------------

  predicate Matches(e: FusionEntry, aid: uint32, tid: byte) {
    e.used && e.aid == aid && e.tid == tid
  }

  /** The first entry for the key, or |t|. */
  function Find(t: Table, aid: uint32, tid: byte): (i: nat)
    ensures i <= |t|
    ensures forall k :: 0 <= k < i ==> !Matches(t[k], aid, tid)
    ensures i < |t| ==> Matches(t[i], aid, tid)
  {
    FirstIndex(t, e => Matches(e, aid, tid))
  }

  /** The first unused entry, or |t|. */
  function FreeSlot(t: Table): (i: nat)
    ensures i <= |t|
    ensures forall k :: 0 <= k < i ==> t[k].used
    ensures i < |t| ==> !t[i].used
  {
    FirstIndex(t, (e: FusionEntry) => !e.used)
  }

  /** Where find_entry followed by alloc_entry ends up: |t| if the table is full. */
  function Place(t: Table, aid: uint32, tid: byte): (i: nat)
    ensures i <= |t|
  {
    var i := Find(t, aid, tid);
    if i < |t| then i else FreeSlot(t)
  }

  /** The entry at that place, zeroed and claimed if it was free. */
  function Claimed(t: Table, aid: uint32, tid: byte): FusionEntry
    requires Place(t, aid, tid) < |t|
  {
    var i := Find(t, aid, tid);
    if i < |t| then t[i] else Zeroed.(used := true, aid := aid, tid := tid)
  }

  // ---- Entries -----------------------------------------------------------

  /** The slots an entry holds, up to its counts. */
  function SensorsIn(e: FusionEntry): (xs: seq<Sensor>)
    requires e.sensorCount <= |e.tagNames| && 2 * e.sensorCount <= |e.lastVals|
    ensures |xs| == e.sensorCount
  {
    seq(e.sensorCount, i requires 0 <= i < e.sensorCount =>
      Sensor(e.tagNames[i], e.lastVals[2 * i], e.lastVals[2 * i + 1]))
  }

  /** The structural comparison of osfx_fusion_encode. */
  predicate StructChanged(e: FusionEntry, p: Parsed)
    requires |p.sensors| <= |e.tagNames|
  {
    || e.sigBase == []
    || e.valCount != 2 * |p.sensors|
    || e.sigBase != p.sig
    || e.tagNames[..|p.sensors|] != TagsOf(p.sensors)
  }

  /** The first cells overwritten, the others kept. */
  function Overwrite(cells: seq<Text>, news: seq<Text>): (r: seq<Text>)
    requires |news| <= |cells|
    ensures |r| == |cells|
  {
    news + cells[|news|..]
  }

  function StoreFull(e: FusionEntry, p: Parsed): FusionEntry
    requires |p.sensors| <= |e.tagNames| && 2 * |p.sensors| <= |e.lastVals|
  {
    e.(sigBase := CStr(p.sig),
       sensorCount := |p.sensors|,
       valCount := 2 * |p.sensors|,
       tagNames := Overwrite(e.tagNames, TagsOf(p.sensors)),
       lastVals := Overwrite(e.lastVals, SlotsOf(p.sensors)))
  }

  /** Only the slots that differ are copied into the cache. */
  function StoreChanged(e: FusionEntry, p: Parsed): FusionEntry
    requires 2 * |p.sensors| <= |e.lastVals|
  {
    e.(lastVals := Merged(e.lastVals, e.lastVals, SlotsOf(p.sensors), 2 * |p.sensors|))
  }

  /** reconstruct_body with out_cap bytes of room. */
  function Reconstruct(e: FusionEntry, ts: nat, cap: nat): (r: Option<Text>)
    requires e.sensorCount <= |e.tagNames| && 2 * e.sensorCount <= |e.lastVals|
    ensures r.Some? ==> 0 < |r.value| <= cap
  {
    if e.sigBase == [] || e.sensorCount == 0 then None
    else
      var text := BodyText(e.sigBase, ts, SensorsIn(e));
      if |text| <= cap then Some(text) else None
  }

  // ---- One encode --------------------------------------------------------

  datatype Kind = Full | Diff | Heart

  function CmdOf(k: Kind): byte {
    match k
    case Full => DATA_FULL
    case Diff => DATA_DIFF
    case Heart => DATA_HEART
  }

  ghost predicate Fitting(e: FusionEntry, p: Parsed) {
    && ValidEntry(e)
    && 0 < |p.sensors| <= MAX_SENSORS
    && forall i :: 0 <= i < |p.sensors| ==> InBounds(p.sensors[i])
  }

  function Choose(e: FusionEntry, p: Parsed): Kind
    requires |p.sensors| <= |e.tagNames| && 2 * |p.sensors| <= |e.lastVals|
  {
    if StructChanged(e, p) then Full
    else if e.lastVals[..2 * |p.sensors|] == SlotsOf(p.sensors) then Heart
    else Diff
  }

  lemma SlotsInBounds(xs: seq<Sensor>)
    requires forall i :: 0 <= i < |xs| ==> InBounds(xs[i])
    ensures forall i :: 0 <= i < 2 * |xs| ==> |SlotsOf(xs)[i]| < MAX_VAL_LEN
  {
    forall i | 0 <= i < 2 * |xs| ensures |SlotsOf(xs)[i]| < MAX_VAL_LEN {
      SlotsAt(xs, i / 2);
      assert InBounds(xs[i / 2]);
      assert i == 2 * (i / 2) || i == 2 * (i / 2) + 1;
    }
  }

  function WireBody(e: FusionEntry, p: Parsed, body: Text): Text
    requires Fitting(e, p)
  {
    match Choose(e, p)
    case Full => body
    case Diff =>
      SlotsInBounds(p.sensors);
      DiffBody(e.lastVals, SlotsOf(p.sensors), 2 * |p.sensors|)
    case Heart => []
  }

  function Cached(e: FusionEntry, p: Parsed): FusionEntry
    requires Fitting(e, p)
  {
    match Choose(e, p)
    case Full => StoreFull(e, p)
    case Diff => StoreChanged(e, p)
    case Heart => e
  }

  /** The table afterwards, and the packet and its command if one was produced. */
  datatype Sent = Sent(table: Table, packet: Option<Text>, cmd: byte)

  function Framed(cmd: byte, aid: uint32, tid: byte, ts: uint64, body: Text, cap: nat): Option<Text> {
    if cap < |body| + OVERHEAD then None else Some(Frame(cmd, aid, tid, ts, body))
  }

  /** osfx_fusion_encode: the cache is updated before framing can fail. */
  function Encode(t: Table, aid: uint32, tid: byte, ts: uint64, body: Text, cap: nat): Sent
    requires ValidTable(t)
  {
    if body == [] then Sent(t, None, 0)
    else
      match ParseBody(body)
      case None => Sent(t, Framed(DATA_FULL, aid, tid, ts, body, cap), DATA_FULL)
      case Some(p) =>
        var i := Place(t, aid, tid);
        if i == |t| then Sent(t, None, 0)
        else
          ClaimedFits(t, aid, tid, body);
          var e := Claimed(t, aid, tid);
          var cmd := CmdOf(Choose(e, p));
          Sent(t[i := Cached(e, p)], Framed(cmd, aid, tid, ts, WireBody(e, p, body), cap), cmd)
  }

  lemma ZeroedValid()
    ensures ValidEntry(Zeroed)
    ensures ValidTable(EmptyTable())
  {
  }

  lemma ClaimedFits(t: Table, aid: uint32, tid: byte, body: Text)
    requires ValidTable(t) && ParseBody(body).Some? && Place(t, aid, tid) < |t|
    ensures Fitting(Claimed(t, aid, tid), ParseBody(body).value)
  {
    hide Find, FreeSlot, First, Last;
    ZeroedValid();
    var bar := First(body, BAR);
    assert ParseBody(body).value.sensors == ParseSegments(body[bar + 1..], MAX_SENSORS);
  }

  // ---- One decode --------------------------------------------------------

  datatype Got = Got(table: Table, body: Option<Text>, meta: Option<Meta>)

  /** A FULL body is cached if it parses and the table has room, and handed on as it is. */
  function ReceiveFull(t: Table, m: Meta, body: Text, cap: nat): Got
    requires ValidTable(t)
  {
    var t' :=
      match ParseBody(body)
      case None => t
      case Some(p) =>
        var i := Place(t, m.aid, m.tid);
        if i == |t| then t else (ClaimedFits(t, m.aid, m.tid, body); t[i := StoreFull(Claimed(t, m.aid, m.tid), p)]);
    if |body| > cap then Got(t', None, None) else Got(t', Some(body), Some(m))
  }

  /** A DIFF body changes the cache as far as it can be read. */
  function ReceiveDiff(t: Table, i: nat, m: Meta, body: Text, cap: nat): Got
    requires ValidTable(t) && i < |t|
  {
    var e := t[i];
    if e.valCount == 0 then Got(t, None, None)
    else
      var a := ApplyDiff(e.lastVals, e.valCount, body);
      var e' := e.(lastVals := a.vals);
      var text := Reconstruct(e', m.ts, cap);
      if !a.ok || text.None? then Got(t[i := e'], None, None) else Got(t[i := e'], text, Some(m))
  }

  function ReceiveHeart(t: Table, i: nat, m: Meta, cap: nat): Got
    requires ValidTable(t) && i < |t|
  {
    var text := Reconstruct(t[i], m.ts, cap);
    if t[i].valCount == 0 || text.None? then Got(t, None, None) else Got(t, text, Some(m))
  }

  /** osfx_fusion_decode_apply. */
  function Decode(t: Table, packet: Text, cap: nat): Got
    requires ValidTable(t)
  {
    match DecodeMeta(packet)
    case None => Got(t, None, None)
    case Some(m) =>
      var i := Find(t, m.aid, m.tid);
      if m.cmd == DATA_FULL then ReceiveFull(t, m, BodyOf(packet, m), cap)
      else if i == |t| then Got(t, None, None)
      else if m.cmd == DATA_DIFF then ReceiveDiff(t, i, m, BodyOf(packet, m), cap)
      else if m.cmd == DATA_HEART then ReceiveHeart(t, i, m, cap)
      else Got(t, None, None)
  }
}
