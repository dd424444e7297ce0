/** The text layer of src/osfx_fusion_state.c: parse_body_slots and the body that
    reconstruct_body prints, "NodeID.State.TS|TAG>META:VAL|TAG>META:VAL|...". */
module FusionText {
  import opened Bytes
  import opened Numerals

  // Header defaults of include/osfx_fusion_state.h.
  const MAX_PREFIX: nat := 64
  const MAX_VALS: nat := 8
  const MAX_VAL_LEN: nat := 16
  const MAX_SENSORS: nat := 4
  const MAX_TAG_LEN: nat := 12

  datatype Sensor = Sensor(tag: Text, meta: Text, val: Text)
  datatype Parsed = Parsed(sig: Text, sensors: seq<Sensor>)

  // ---- Parsing -----------------------------------------------------------

  predicate InBounds(x: Sensor) {
    && 0 < |x.tag| < MAX_TAG_LEN
    && 0 < |x.meta| < MAX_VAL_LEN
    && 0 < |x.val| < MAX_VAL_LEN
  }

  /** One segment "TAG>META:VAL": tag up to the first '>', value after the last ':'. */
  function ParseSegment(seg: Text): (r: Option<Sensor>)
    ensures r.Some? ==> InBounds(r.value)
  {
    var gt := First(seg, GT);
    if gt == |seg| then None
    else
      var rest := seg[gt + 1..];
      var colon := Last(rest, COLON);
      if colon <= 0 || colon + 1 >= |rest| then None
      else
        var x := Sensor(seg[..gt], rest[..colon], rest[colon + 1..]);
        if InBounds(x) then Some(x) else None
  }

  /** What follows the separator at position e, if there is one. */
  function After(s: Text, e: nat): Text
    requires e <= |s|
  {
    if e < |s| then s[e + 1..] else []
  }

  /** The accepted segments in order, at most max of them; the others are skipped. */
  function ParseSegments(s: Text, max: nat): (xs: seq<Sensor>)
    ensures |xs| <= max
    ensures forall i :: 0 <= i < |xs| ==> InBounds(xs[i])
    decreases |s|
  {
    if s == [] || max == 0 then []
    else
      var e := First(s, BAR);
      match ParseSegment(s[..e])
      case None => ParseSegments(After(s, e), max)
      case Some(x) => [x] + ParseSegments(After(s, e), max - 1)
  }

  lemma SegmentsStep(s: Text, max: nat)
    ensures s == [] || max == 0 ==> ParseSegments(s, max) == []
    ensures s != [] && max > 0 ==>
              var e := First(s, BAR);
              ParseSegments(s, max) ==
              match ParseSegment(s[..e])
              case None => ParseSegments(After(s, e), max)
              case Some(x) => [x] + ParseSegments(After(s, e), max - 1)
  {
    hide ParseSegment, First;
  }

  /** parse_body_slots: None stands for the sensor count 0. */
  function ParseBody(body: Text): (r: Option<Parsed>)
    ensures r.Some? ==> 0 < |r.value.sensors| <= MAX_SENSORS
    ensures r.Some? ==> 0 < |r.value.sig| < MAX_PREFIX
  {
    var bar := First(body, BAR);
    if bar == |body| || bar == 0 then None
    else
      var dot := Last(body[..bar], DOT);
      if dot < 0 || dot + 2 > MAX_PREFIX then None
      else
        var xs := ParseSegments(body[bar + 1..], MAX_SENSORS);
        if xs == [] then None else Some(Parsed(body[..dot + 1], xs))
  }

  // ---- Printing ----------------------------------------------------------

  function SegmentText(x: Sensor): Text {
    x.tag + [GT] + x.meta + [COLON] + x.val
  }

  function SensorsText(xs: seq<Sensor>): Text {
    if xs == [] then [] else SegmentText(xs[0]) + [BAR] + SensorsText(xs[1..])
  }

  function BodyText(sig: Text, ts: nat, xs: seq<Sensor>): Text {
    sig + Decimal(ts) + [BAR] + SensorsText(xs)
  }

  // ---- Parsing what was printed ------------------------------------------

  ghost predicate WellFormed(x: Sensor) {
    && InBounds(x)
    && Free(x.tag, GT) && Free(x.tag, BAR) && Free(x.meta, BAR)
    && Free(x.val, COLON) && Free(x.val, BAR)
  }

  ghost predicate AllWellFormed(xs: seq<Sensor>) {
    forall i :: 0 <= i < |xs| ==> WellFormed(xs[i])
  }

  ghost predicate WellFormedBody(p: Parsed) {
    && 0 < |p.sig| < MAX_PREFIX && p.sig[|p.sig| - 1] == DOT && Free(p.sig, BAR)
    && 0 < |p.sensors| <= MAX_SENSORS && AllWellFormed(p.sensors)
  }

  lemma SegmentRoundTrip(x: Sensor)
    requires WellFormed(x)
    ensures ParseSegment(SegmentText(x)) == Some(x)
    ensures Free(SegmentText(x), BAR)
  {
    hide First, Last;
    var seg, rest := SegmentText(x), x.meta + [COLON] + x.val;
    assert seg == x.tag + [GT] + rest;
    FirstAfter(x.tag, GT, rest);
    LastBefore(x.meta, COLON, x.val);
    assert rest[..|x.meta|] == x.meta && rest[|x.meta| + 1..] == x.val;
  }

  lemma {:induction false} SegmentsRoundTrip(xs: seq<Sensor>, max: nat)
    requires AllWellFormed(xs) && |xs| <= max
    ensures ParseSegments(SensorsText(xs), max) == xs
    decreases |xs|
  {
    hide First, Last, ParseSegment, ParseSegments, SegmentText, WellFormed;
    SegmentsStep(SensorsText(xs), max);
    if xs != [] {
      var seg, rest := SegmentText(xs[0]), SensorsText(xs[1..]);
      SegmentRoundTrip(xs[0]);
      FirstAfter(seg, BAR, rest);
      SegmentsRoundTrip(xs[1..], max - 1);
    }
  }

  lemma DecimalClear(ts: nat)
    ensures Free(Decimal(ts), BAR) && Free(Decimal(ts), DOT) && Free(Decimal(ts), NUL)
  {
  }

  lemma HeaderSplit(sig: Text, token: Text, rest: Text)
    requires 0 < |sig| && sig[|sig| - 1] == DOT && Free(sig, BAR) && Free(token, BAR) && Free(token, DOT)
    ensures var body := sig + token + [BAR] + rest; var bar := First(body, BAR);
            && 0 < bar < |body| && bar == |sig| + |token|
            && Last(body[..bar], DOT) == |sig| - 1
            && body[..|sig|] == sig && body[bar + 1..] == rest
  {
    hide First, Last;
    var head := sig + token;
    FirstAfter(head, BAR, rest);
    var front := sig[..|sig| - 1];
    assert head == front + [DOT] + token;
    LastBefore(front, DOT, token);
  }

  /** Which bodies are parsed, and as what: the part up to the last '.' before the first '|' is the
      signature if it leaves room for a terminator, and some segment after that '|' must be good. */
  lemma BodyAcceptedIff(sig: Text, token: Text, rest: Text)
    requires 0 < |sig| && sig[|sig| - 1] == DOT && Free(sig, BAR) && Free(token, BAR) && Free(token, DOT)
    ensures ParseBody(sig + token + [BAR] + rest) ==
            if |sig| < 64 && ParseSegments(rest, 4) != [] then Some(Parsed(sig, ParseSegments(rest, 4))) else None
  {
    hide First, Last, ParseSegments;
    HeaderSplit(sig, token, rest);
  }

  /** A body without a '|', or without a '.' before its first one, is not parsed. */
  lemma HeadlessRefused(head: Text, rest: Text)
    requires Free(head, DOT) && Free(head, BAR)
    ensures ParseBody(head).None? && ParseBody(head + [BAR] + rest).None?
  {
    hide First, Last, ParseSegments;
    FirstAfter(head, BAR, rest);
    assert First(head, BAR) == |head|;
    assert Last(head, DOT) == -1;
  }

  /** Parsing the printed text of well-formed slots gives the slots back, whatever the time. */
  lemma BodyRoundTrip(p: Parsed, ts: nat)
    requires WellFormedBody(p)
    ensures ParseBody(BodyText(p.sig, ts, p.sensors)) == Some(p)
  {
    hide First, Last, ParseSegments, Decimal, SensorsText;
    DecimalClear(ts);
    HeaderSplit(p.sig, Decimal(ts), SensorsText(p.sensors));
    SegmentsRoundTrip(p.sensors, MAX_SENSORS);
  }

  // ---- What parsing yields -----------------------------------------------

  lemma SegmentParts(tag: Text, meta: Text, val: Text, seg: Text)
    requires seg == tag + [GT] + (meta + [COLON] + val) && Free(seg, BAR)
    ensures seg == tag + [GT] + meta + [COLON] + val
    ensures Free(tag, BAR) && Free(meta, BAR) && Free(val, BAR)
  {
    var rest := meta + [COLON] + val;
    FreeParts(tag, GT, rest, BAR);
    FreeParts(meta, COLON, val, BAR);
  }

  lemma FreeParts(a: Text, c: byte, b: Text, d: byte)
    requires Free(a + [c] + b, d)
    ensures Free(a, d) && Free(b, d)
  {
    var s := a + [c] + b;
    assert forall k :: 0 <= k < |a| ==> s[k] == a[k];
    assert forall k :: 0 <= k < |b| ==> s[|a| + 1 + k] == b[k];
  }

  lemma SegmentWellFormed(seg: Text)
    requires Free(seg, BAR) && ParseSegment(seg).Some?
    ensures WellFormed(ParseSegment(seg).value)
    ensures SegmentText(ParseSegment(seg).value) == seg
  {
    hide First, Last, InBounds;
    var x, gt := ParseSegment(seg).value, First(seg, GT);
    var rest := seg[gt + 1..];
    SplitFirst(seg, GT);
    SplitLast(rest, COLON);
    SegmentParts(x.tag, x.meta, x.val, seg);
  }

  lemma {:induction false} SegmentsWellFormed(s: Text, max: nat)
    ensures AllWellFormed(ParseSegments(s, max))
    decreases |s|
  {
    hide First, ParseSegment, ParseSegments, WellFormed, SegmentText;
    SegmentsStep(s, max);
    if s != [] && max > 0 {
      var e := First(s, BAR);
      if ParseSegment(s[..e]).Some? {
        SegmentWellFormed(s[..e]);
        SegmentsWellFormed(After(s, e), max - 1);
      } else {
        SegmentsWellFormed(After(s, e), max);
      }
    }
  }

  /** Whatever body is accepted, its slots could have been printed. */
  lemma ParsedWellFormed(body: Text)
    requires ParseBody(body).Some?
    ensures WellFormedBody(ParseBody(body).value)
  {
    hide First, Last, ParseSegments;
    var bar := First(body, BAR);
    SegmentsWellFormed(body[bar + 1..], MAX_SENSORS);
  }

  // ---- Printing what was parsed ------------------------------------------

  /** Every segment is accepted, closed by '|', and there is room for all of them. */
  predicate CanonicalTail(s: Text, max: nat)
    decreases |s|
  {
    s == [] ||
    (max > 0 && First(s, BAR) < |s| && ParseSegment(s[..First(s, BAR)]).Some?
     && CanonicalTail(s[First(s, BAR) + 1..], max - 1))
  }

  lemma {:induction false} CanonicalReprints(s: Text, max: nat)
    requires CanonicalTail(s, max)
    ensures SensorsText(ParseSegments(s, max)) == s
    decreases |s|
  {
    hide First, Last, ParseSegment, SegmentText, WellFormed;
    if s != [] {
      var e := First(s, BAR);
      SegmentWellFormed(s[..e]);
      CanonicalReprints(s[e + 1..], max - 1);
      SplitFirst(s, BAR);
      var xs := ParseSegments(s, max);
      assert xs[1..] == ParseSegments(s[e + 1..], max - 1);
    }
  }

  /** Of a text that ends in '|' printing keeps everything or becomes shorter. */
  lemma {:induction false} ReprintedLength(s: Text, max: nat)
    requires s == [] || s[|s| - 1] == BAR
    ensures |SensorsText(ParseSegments(s, max))| <= |s|
    ensures |SensorsText(ParseSegments(s, max))| == |s| ==> CanonicalTail(s, max)
    decreases |s|
  {
    hide First, Last, ParseSegment, ParseSegments, SegmentText, WellFormed;
    SegmentsStep(s, max);
    if s != [] && max > 0 {
      var e := First(s, BAR);
      assert e < |s| && After(s, e) == s[e + 1..];
      if ParseSegment(s[..e]).Some? {
        var x, xs := ParseSegment(s[..e]).value, ParseSegments(s[e + 1..], max - 1);
        SegmentWellFormed(s[..e]);
        ReprintedLength(s[e + 1..], max - 1);
        assert ([x] + xs)[1..] == xs;
      } else {
        ReprintedLength(s[e + 1..], max);
      }
    }
  }

  lemma {:induction false} SensorsTextEnd(xs: seq<Sensor>)
    ensures xs != [] ==> |SensorsText(xs)| > 0 && SensorsText(xs)[|SensorsText(xs)| - 1] == BAR
    decreases |xs|
  {
    hide SegmentText;
    if |xs| > 1 {
      SensorsTextEnd(xs[1..]);
    }
  }

  lemma SensorsTextEmpty()
    ensures SensorsText([]) == []
  {
  }

  /** Printing the parsed segments reproduces the text exactly when no segment is
      skipped, none is left over and each is closed. */
  lemma ReprintIff(s: Text, max: nat)
    ensures SensorsText(ParseSegments(s, max)) == s <==> CanonicalTail(s, max)
  {
    hide ParseSegments, SensorsText, CanonicalTail;
    if CanonicalTail(s, max) {
      CanonicalReprints(s, max);
    }
    if SensorsText(ParseSegments(s, max)) == s {
      assert ParseSegments(s, max) == [] ==> s == [] by {
        SensorsTextEmpty();
      }
      SensorsTextEnd(ParseSegments(s, max));
      ReprintedLength(s, max);
    }
  }

  /** The body with everything up to its first '|' after the structural part replaced. */
  function WithTimestamp(body: Text, ts: nat): Text
    requires ParseBody(body).Some?
  {
    var bar := First(body, BAR);
    body[..Last(body[..bar], DOT) + 1] + Decimal(ts) + body[bar..]
  }

  function TailOf(body: Text): Text {
    After(body, First(body, BAR))
  }

  /** Printing a parsed body changes nothing but the timestamp exactly for canonical bodies. */
  lemma BodyReprintIff(body: Text, ts: nat)
    requires ParseBody(body).Some?
    ensures var p := ParseBody(body).value;
            BodyText(p.sig, ts, p.sensors) == WithTimestamp(body, ts) <==> CanonicalTail(TailOf(body), MAX_SENSORS)
  {
    hide First, Last, ParseSegments, SensorsText, CanonicalTail, Decimal;
    var bar, p := First(body, BAR), ParseBody(body).value;
    var head, tail := p.sig + Decimal(ts) + [BAR], TailOf(body);
    assert body[bar..] == [BAR] + tail;
    assert WithTimestamp(body, ts) == head + tail;
    ReprintIff(tail, MAX_SENSORS);
    assert (head + SensorsText(p.sensors))[|head|..] == SensorsText(p.sensors);
    assert (head + tail)[|head|..] == tail;
  }

  // ---- The scanning loops ------------------------------------------------

  method ScanFirst(body: Text, lo: nat, hi: nat, c: byte) returns (pos: nat)
    requires lo <= hi <= |body|
    ensures pos == lo + First(body[lo..hi], c) <= hi
  {
    hide First;
    pos := lo;
    while pos < hi && body[pos] != c
      invariant lo <= pos <= hi
      invariant forall k :: lo <= k < pos ==> body[k] != c
    {
      pos := pos + 1;
    }
    var s := body[lo..hi];
    assert forall k :: 0 <= k < pos - lo ==> s[k] == body[lo + k];
    assert pos < hi ==> s[pos - lo] == c;
  }

  method ScanLast(body: Text, lo: nat, hi: nat, c: byte) returns (pos: int)
    requires lo <= hi <= |body|
    ensures var last := Last(body[lo..hi], c); pos == if last < 0 then -1 else lo + last
  {
    hide Last;
    pos := -1;
    ghost var s := body[lo..hi];
    for i := lo to hi
      invariant pos == -1 || lo <= pos < i
      invariant pos >= 0 ==> body[pos] == c
      invariant forall k :: (if pos < 0 then lo else pos + 1) <= k < i ==> body[k] != c
    {
      if body[i] == c {
        pos := i;
      }
    }
    assert pos >= 0 ==> s[pos - lo] == c;
    assert forall k :: (if pos < 0 then 0 else pos - lo + 1) <= k < |s| ==> s[k] == body[lo + k];
  }

  lemma ParseSegmentAt(body: Text, lo: nat, gt: nat, colon: int, hi: nat)
    requires lo <= gt <= hi <= |body|
    requires gt == lo + First(body[lo..hi], GT)
    requires gt < hi ==> var last := Last(body[gt + 1..hi], COLON); colon == if last < 0 then -1 else gt + 1 + last
    ensures var r := ParseSegment(body[lo..hi]);
            if gt == hi || colon < 0 || colon == gt + 1 || colon + 1 >= hi then r.None?
            else gt + 1 < colon < hi &&
                 var x := Sensor(body[lo..gt], body[gt + 1..colon], body[colon + 1..hi]);
                 r == if InBounds(x) then Some(x) else None
  {
    hide First, Last, InBounds;
    if gt < hi {
      Subslice(body, lo, hi, gt);
      if colon >= 0 {
        Subslice(body, gt + 1, hi, colon);
      }
    }
  }

  /** The interleaved slots META0, VAL0, META1, VAL1, ... */
  function SlotsOf(xs: seq<Sensor>): (slots: seq<Text>)
    ensures |slots| == 2 * |xs|
  {
    if xs == [] then []
    else SlotsOf(xs[..|xs| - 1]) + [xs[|xs| - 1].meta, xs[|xs| - 1].val]
  }

  lemma {:induction false} SlotsAt(xs: seq<Sensor>, i: nat)
    requires i < |xs|
    ensures SlotsOf(xs)[2 * i] == xs[i].meta && SlotsOf(xs)[2 * i + 1] == xs[i].val
    decreases |xs|
  {
    if i < |xs| - 1 {
      SlotsAt(xs[..|xs| - 1], i);
    }
  }

  function TagsOf(xs: seq<Sensor>): (tags: seq<Text>)
    ensures |tags| == |xs|
  {
    seq(|xs|, i requires 0 <= i < |xs| => xs[i].tag)
  }

  /** The first cells of the output arrays hold exactly these slots. */
  ghost predicate Stored(xs: seq<Sensor>, tagNames: seq<Text>, slots: seq<Text>) {
    TagsOf(xs) <= tagNames && SlotsOf(xs) <= slots
  }

  /** The body of the segment loop: None where the source goes on to the next segment. */
  method SplitSegment(body: Text, segStart: nat, segEnd: nat) returns (r: Option<Sensor>)
    requires segStart <= segEnd <= |body|
    ensures r == ParseSegment(body[segStart..segEnd])
  {
    hide First, Last, ParseSegment, InBounds;
    var gt := ScanFirst(body, segStart, segEnd, GT);
    if gt == segEnd {
      ParseSegmentAt(body, segStart, gt, -1, segEnd);
      return None;
    }
    var colon := ScanLast(body, gt + 1, segEnd, COLON);
    ParseSegmentAt(body, segStart, gt, colon, segEnd);
    if colon == -1 || colon == gt + 1 || colon + 1 >= segEnd {
      return None;
    }
    var x := Sensor(body[segStart..gt], body[gt + 1..colon], body[colon + 1..segEnd]);
    return if InBounds(x) then Some(x) else None;
  }

  function From(body: Text, i: nat): Text {
    if i < |body| then body[i..] else []
  }

  /** One turn of the segment loop, in positions of the body. */
  lemma SegmentsTurn(body: Text, lo: nat, hi: nat, max: nat)
    requires lo < |body| && hi == lo + First(body[lo..], BAR) && max > 0
    ensures ParseSegments(From(body, lo), max) ==
            match ParseSegment(body[lo..hi])
            case None => ParseSegments(From(body, hi + 1), max)
            case Some(x) => [x] + ParseSegments(From(body, hi + 1), max - 1)
  {
    hide First, ParseSegment, ParseSegments, After, From;
    SegmentsStep(body[lo..], max);
    FromPieces(body, lo, hi);
  }

  lemma FromPieces(body: Text, lo: nat, hi: nat)
    requires lo < |body| && lo <= hi <= |body|
    ensures From(body, lo) == body[lo..] && body[lo..][..hi - lo] == body[lo..hi]
    ensures After(body[lo..], hi - lo) == From(body, hi + 1)
  {
  }

  method ParseSensors(body: Text, start: nat, tagNames: array<Text>, slots: array<Text>, maxSensors: nat)
    returns (count: nat)
    requires maxSensors <= tagNames.Length && 2 * maxSensors <= slots.Length && tagNames != slots
    modifies tagNames, slots
    ensures var xs := ParseSegments(From(body, start), maxSensors);
            count == |xs| && Stored(xs, tagNames[..], slots[..])
  {
    hide First, ParseSegment, ParseSegments, Stored, From;
    ghost var all := ParseSegments(From(body, start), maxSensors);
    ghost var done: seq<Sensor> := [];
    StoredNone(tagNames[..], slots[..]);
    var segStart := start;
    count := 0;
    while segStart < |body| && count < maxSensors
      invariant count == |done| <= maxSensors
      invariant all == done + ParseSegments(From(body, segStart), maxSensors - count)
      invariant Stored(done, tagNames[..], slots[..])
    {
      var segEnd := ScanFirst(body, segStart, |body|, BAR);
      assert body[segStart..|body|] == body[segStart..];
      SegmentsTurn(body, segStart, segEnd, maxSensors - count);
      var r := SplitSegment(body, segStart, segEnd);
      if r.Some? {
        var x := r.value;
        ghost var oldTags, oldSlots := tagNames[..], slots[..];
        tagNames[count] := x.tag;
        slots[count * 2] := x.meta;
        slots[count * 2 + 1] := x.val;
        StoredNext(done, x, oldTags, oldSlots, tagNames[..], slots[..]);
        done := done + [x];
        count := count + 1;
      }
      segStart := segEnd + 1;
    }
    SegmentsEnd(body, segStart, maxSensors - count);
    assert all == done;
  }

  lemma SegmentsEnd(body: Text, i: nat, max: nat)
    requires i >= |body| || max == 0
    ensures ParseSegments(From(body, i), max) == []
  {
    SegmentsStep(From(body, i), max);
  }

  method ParseBodySlots(body: Text, tagNames: array<Text>, slots: array<Text>, maxSensors: nat)
    returns (count: nat, sig: Text)
    requires maxSensors == MAX_SENSORS <= tagNames.Length && 2 * maxSensors <= slots.Length && tagNames != slots
    modifies tagNames, slots
    ensures match ParseBody(body)
            case None => count == 0
            case Some(p) => count == |p.sensors| && sig == p.sig && Stored(p.sensors, tagNames[..], slots[..])
  {
    hide First, Last, ParseSegments, Stored;
    count, sig := 0, [];
    if |body| == 0 || maxSensors == 0 {
      return;
    }
    var bar1 := ScanFirst(body, 0, |body|, BAR);
    assert body[0..|body|] == body;
    if bar1 == |body| || bar1 == 0 {
      return;
    }
    var lastDot := ScanLast(body, 0, bar1, DOT);
    assert body[0..bar1] == body[..bar1];
    if lastDot == -1 || lastDot + 2 > MAX_PREFIX {
      return;
    }
    sig := body[..lastDot + 1];
    count := ParseSensors(body, bar1 + 1, tagNames, slots, maxSensors);
    assert From(body, bar1 + 1) == body[bar1 + 1..];
  }

  lemma StoredNone(tagNames: seq<Text>, slots: seq<Text>)
    ensures Stored([], tagNames, slots)
  {
  }

  lemma SlotsSnoc(xs: seq<Sensor>, x: Sensor)
    ensures SlotsOf(xs + [x]) == SlotsOf(xs) + [x.meta, x.val]
    ensures TagsOf(xs + [x]) == TagsOf(xs) + [x.tag]
  {
    assert (xs + [x])[..|xs|] == xs;
  }

  lemma StoredNext(done: seq<Sensor>, x: Sensor, tags: seq<Text>, slots: seq<Text>, tags': seq<Text>, slots': seq<Text>)
    requires var n := |done|; n < |tags| && 2 * n + 1 < |slots|
    requires Stored(done, tags, slots)
    requires tags' == tags[|done| := x.tag]
    requires slots' == slots[2 * |done| := x.meta][2 * |done| + 1 := x.val]
    ensures Stored(done + [x], tags', slots')
  {
    hide SlotsOf, TagsOf;
    SlotsSnoc(done, x);
  }
}
