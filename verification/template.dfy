/** The message grammar of src/osfx_template_grammar.c:
    "node.state.ts|id>state.unit:value#geohash!message@url|...". */
module Template {
  import opened Bytes

  // Sizes of include/osfx_user_config.h and include/osfx_template_grammar.h,
  // each with room for the terminator.
  const MAX_SENSORS: nat := 4
  const ID_MAX: nat := 32
  const STATE_MAX: nat := 16
  const UNIT_MAX: nat := 24
  const VALUE_MAX: nat := 48
  const TS_MAX: nat := 32
  const GEOHASH_MAX: nat := 32
  const MSG_MAX: nat := 128
  const URL_MAX: nat := 128

  /** Which optional fields a build carries. */
  datatype Features = Features(geohash: bool, message: bool, url: bool)

  datatype Slot = Slot(id: Text, state: Text, unit: Text, value: Text, geohash: Text, message: Text, url: Text)

  datatype Msg = Msg(nodeId: Text, nodeState: Text, ts: Text, sensors: seq<Slot>)

  // ---- Printing ----------------------------------------------------------

  function Extension(on: bool, mark: byte, v: Text): Text {
    if on && v != [] then [mark] + v else []
  }

  function Extensions(f: Features, x: Slot): Text {
    Extension(f.geohash, HASH, x.geohash) + Extension(f.message, BANG, x.message) + Extension(f.url, AT, x.url)
  }

  function BaseText(x: Slot): Text {
    x.id + [GT] + x.state + [DOT] + x.unit + [COLON] + x.value
  }

  function SlotText(f: Features, x: Slot): Text {
    BaseText(x) + Extensions(f, x)
  }

  function SlotsText(f: Features, xs: seq<Slot>): Text {
    if xs == [] then [] else SlotText(f, xs[0]) + [BAR] + SlotsText(f, xs[1..])
  }

  function HeaderText(nodeId: Text, nodeState: Text, ts: Text): Text {
    nodeId + [DOT] + nodeState + [DOT] + ts
  }

  function MsgText(f: Features, m: Msg): Text {
    HeaderText(m.nodeId, m.nodeState, m.ts) + [BAR] + SlotsText(f, m.sensors)
  }

  // ---- Reading -----------------------------------------------------------

  predicate IsMark(c: byte) {
    c == HASH || c == BANG || c == AT
  }

  /** find_next_ext_marker: the nearest of the three marks, or |s|. */
  function FirstMark(s: Text): (i: nat)
    ensures i <= |s|
    ensures forall k :: 0 <= k < i ==> !IsMark(s[k])
    ensures i < |s| ==> IsMark(s[i])
  {
    var m1, m2, m3 := First(s, HASH), First(s, BANG), First(s, AT);
    var m := if m2 < m1 then m2 else m1;
    if m3 < m then m3 else m
  }

  /** The fields behind the marks of s; a repeated mark overwrites, a disabled one is skipped. */
  function ReadExtensions(f: Features, s: Text, x: Slot): Option<Slot>
    requires s == [] || IsMark(s[0])
    decreases |s|
  {
    if s == [] then Some(x)
    else
      var v := s[1..];
      var e := FirstMark(v);
      var field := v[..e];
      if s[0] == HASH && f.geohash then
        if |field| + 1 > GEOHASH_MAX then None else ReadExtensions(f, v[e..], x.(geohash := field))
      else if s[0] == BANG && f.message then
        if |field| + 1 > MSG_MAX then None else ReadExtensions(f, v[e..], x.(message := field))
      else if s[0] == AT && f.url then
        if |field| + 1 > URL_MAX then None else ReadExtensions(f, v[e..], x.(url := field))
      else ReadExtensions(f, v[e..], x)
  }

  /** The parts around the first '>', the first '.' after it and the first ':' after that. */
  function SplitSlot(seg: Text): Option<(Text, Text, Text, Text)> {
    match Cut(seg, GT)
    case None => None
    case Some((id, afterGt)) =>
      match Cut(afterGt, DOT)
      case None => None
      case Some((state, afterDot)) =>
        match Cut(afterDot, COLON)
        case None => None
        case Some((unit, rest)) => Some((id, state, unit, rest))
  }

  function ReadFields(f: Features, id: Text, state: Text, unit: Text, rest: Text): Option<Slot> {
    var ext := FirstMark(rest);
    if |id| + 1 > ID_MAX || |state| + 1 > STATE_MAX || |unit| + 1 > UNIT_MAX || ext + 1 > VALUE_MAX then None
    else ReadExtensions(f, rest[ext..], Slot(id, state, unit, rest[..ext], [], [], []))
  }

  function ReadSlot(f: Features, seg: Text): Option<Slot> {
    match SplitSlot(seg)
    case None => None
    case Some((id, state, unit, rest)) => ReadFields(f, id, state, unit, rest)
  }

  /** Segments in order, at most max; text behind the last '|' is ignored. */
  function ReadSlots(f: Features, s: Text, max: nat): Option<seq<Slot>>
    decreases |s|
  {
    var e := First(s, BAR);
    if e == |s| then Some([])
    else if e == 0 then ReadSlots(f, s[1..], max)
    else if max == 0 then None
    else
      match ReadSlot(f, s[..e])
      case None => None
      case Some(x) =>
        match ReadSlots(f, s[e + 1..], max - 1)
        case None => None
        case Some(xs) => Some([x] + xs)
  }

  function ReadHeader(head: Text): Option<(Text, Text, Text)> {
    match Cut(head, DOT)
    case None => None
    case Some((nodeId, afterDot)) =>
      match Cut(afterDot, DOT)
      case None => None
      case Some((nodeState, ts)) =>
        if |nodeId| + 1 > ID_MAX || |nodeState| + 1 > STATE_MAX || |ts| + 1 > TS_MAX then None
        else Some((nodeId, nodeState, ts))
  }

  /** osfx_template_decode. */
  function ReadMsg(f: Features, text: Text): Option<Msg> {
    var e := First(text, BAR);
    if e == |text| then None
    else
      match ReadHeader(text[..e])
      case None => None
      case Some((nodeId, nodeState, ts)) =>
        match ReadSlots(f, text[e + 1..], MAX_SENSORS)
        case None => None
        case Some(xs) => Some(Msg(nodeId, nodeState, ts, xs))
  }

  // ---- The messages that survive -----------------------------------------

  ghost predicate CleanExtension(on: bool, v: Text, cap: nat) {
    |v| < cap && Free(v, BAR) && Free(v, HASH) && Free(v, BANG) && Free(v, AT) && (!on ==> v == [])
  }

  /** Every field avoids what ends it, fits its buffer and is carried by the build. */
  ghost predicate CleanSlot(f: Features, x: Slot) {
    && |x.id| < ID_MAX && Free(x.id, GT) && Free(x.id, BAR)
    && |x.state| < STATE_MAX && Free(x.state, DOT) && Free(x.state, BAR)
    && |x.unit| < UNIT_MAX && Free(x.unit, COLON) && Free(x.unit, BAR)
    && CleanExtension(true, x.value, VALUE_MAX)
    && CleanExtension(f.geohash, x.geohash, GEOHASH_MAX)
    && CleanExtension(f.message, x.message, MSG_MAX)
    && CleanExtension(f.url, x.url, URL_MAX)
  }

  ghost predicate CleanSlots(f: Features, xs: seq<Slot>) {
    forall i :: 0 <= i < |xs| ==> CleanSlot(f, xs[i])
  }

  ghost predicate CleanHeader(nodeId: Text, nodeState: Text, ts: Text) {
    && |nodeId| < ID_MAX && Free(nodeId, DOT) && Free(nodeId, BAR)
    && |nodeState| < STATE_MAX && Free(nodeState, DOT) && Free(nodeState, BAR)
    && |ts| < TS_MAX && Free(ts, BAR)
  }

  ghost predicate CleanMsg(f: Features, m: Msg) {
    CleanHeader(m.nodeId, m.nodeState, m.ts) && |m.sensors| <= MAX_SENSORS && CleanSlots(f, m.sensors)
  }

  lemma FirstMarkUnique(a: Text, b: Text)
    requires Free(a, HASH) && Free(a, BANG) && Free(a, AT)
    requires b == [] || IsMark(b[0])
    ensures FirstMark(a + b) == |a| && (a + b)[..|a|] == a && (a + b)[|a|..] == b
  {
    hide First;
    var s := a + b;
    assert forall k :: 0 <= k < |a| ==> s[k] == a[k] && !IsMark(s[k]);
    assert b != [] ==> s[|a|] == b[0];
  }

  lemma ReadOneExtension(f: Features, mark: byte, v: Text, rest: Text, x: Slot)
    requires IsMark(mark) && Free(v, HASH) && Free(v, BANG) && Free(v, AT)
    requires rest == [] || IsMark(rest[0])
    ensures var s := [mark] + v + rest;
            s != [] && IsMark(s[0]) &&
            ReadExtensions(f, s, x) ==
            if mark == HASH && f.geohash then
              if |v| + 1 > GEOHASH_MAX then None else ReadExtensions(f, rest, x.(geohash := v))
            else if mark == BANG && f.message then
              if |v| + 1 > MSG_MAX then None else ReadExtensions(f, rest, x.(message := v))
            else if mark == AT && f.url then
              if |v| + 1 > URL_MAX then None else ReadExtensions(f, rest, x.(url := v))
            else ReadExtensions(f, rest, x)
  {
    hide First, FirstMark;
    var s := [mark] + v + rest;
    assert s[1..] == v + rest;
    FirstMarkUnique(v, rest);
  }

  lemma ReadNothing(f: Features, x: Slot)
    ensures ReadExtensions(f, [], x) == Some(x)
  {
  }

  lemma SplitRoundTrip(id: Text, state: Text, unit: Text, rest: Text)
    requires Free(id, GT) && Free(state, DOT) && Free(unit, COLON)
    ensures SplitSlot(id + [GT] + state + [DOT] + unit + [COLON] + rest) == Some((id, state, unit, rest))
  {
    hide Cut;
    var afterDot := unit + [COLON] + rest;
    var afterGt := state + [DOT] + afterDot;
    assert id + [GT] + state + [DOT] + unit + [COLON] + rest == id + [GT] + afterGt;
    CutAt(id, GT, afterGt);
    CutAt(state, DOT, afterDot);
    CutAt(unit, COLON, rest);
  }

  lemma ExtensionsFree(f: Features, x: Slot)
    requires CleanSlot(f, x)
    ensures Free(Extensions(f, x), BAR)
  {
  }

  lemma HeaderRoundTrip(nodeId: Text, nodeState: Text, ts: Text)
    requires CleanHeader(nodeId, nodeState, ts)
    ensures ReadHeader(HeaderText(nodeId, nodeState, ts)) == Some((nodeId, nodeState, ts))
    ensures Free(HeaderText(nodeId, nodeState, ts), BAR)
  {
    hide Cut;
    var rest := nodeState + [DOT] + ts;
    assert HeaderText(nodeId, nodeState, ts) == nodeId + [DOT] + rest;
    CutAt(nodeId, DOT, rest);
    CutAt(nodeState, DOT, ts);
  }

  /** What a build that carries only g can hold of a slot. */
  function Narrowed(g: Features, x: Slot): Slot {
    x.(geohash := if g.geohash then x.geohash else [],
       message := if g.message then x.message else [],
       url := if g.url then x.url else [])
  }

  function AllNarrowed(g: Features, xs: seq<Slot>): (ys: seq<Slot>)
    ensures |ys| == |xs|
    ensures forall i :: 0 <= i < |xs| ==> ys[i] == Narrowed(g, xs[i])
  {
    if xs == [] then [] else [Narrowed(g, xs[0])] + AllNarrowed(g, xs[1..])
  }

  /** Extensions printed by one build and read by another: a mark that the reader does not carry
      is skipped with its field, the others fill in theirs. */
  lemma ExtensionsAcross(f: Features, g: Features, x: Slot)
    requires CleanSlot(f, x)
    ensures var s := Extensions(f, x);
            (s == [] || IsMark(s[0])) &&
            ReadExtensions(g, s, Slot(x.id, x.state, x.unit, x.value, [], [], [])) == Some(Narrowed(g, x))
  {
    hide ReadExtensions, FirstMark, First;
    var geo, mes := Extension(f.geohash, HASH, x.geohash), Extension(f.message, BANG, x.message);
    var url := Extension(f.url, AT, x.url);
    var y := Narrowed(g, x);
    var y0 := Slot(x.id, x.state, x.unit, x.value, [], [], []);
    assert Extensions(f, x) == geo + (mes + url);
    ReadNothing(g, y);
    if url != [] {
      ReadOneExtension(g, AT, x.url, [], y.(url := []));
      assert [AT] + x.url + [] == url;
    }
    if mes != [] {
      ReadOneExtension(g, BANG, x.message, url, y0.(geohash := y.geohash));
    } else {
      assert mes + url == url;
    }
    if geo != [] {
      ReadOneExtension(g, HASH, x.geohash, mes + url, y0);
    } else {
      assert geo + (mes + url) == mes + url;
    }
  }

  lemma SlotAcross(f: Features, g: Features, x: Slot)
    requires CleanSlot(f, x)
    ensures ReadSlot(g, SlotText(f, x)) == Some(Narrowed(g, x))
    ensures SlotText(f, x) != [] && Free(SlotText(f, x), BAR)
  {
    hide SplitSlot, FirstMark, ReadExtensions, Extensions, Narrowed;
    var exts := Extensions(f, x);
    ExtensionsAcross(f, g, x);
    ExtensionsFree(f, x);
    SplitRoundTrip(x.id, x.state, x.unit, x.value + exts);
    assert SlotText(f, x) == x.id + [GT] + x.state + [DOT] + x.unit + [COLON] + (x.value + exts);
    FirstMarkUnique(x.value, exts);
  }

  lemma ReadFirstSlot(g: Features, seg: Text, more: Text, max: nat)
    requires seg != [] && Free(seg, BAR)
    ensures ReadSlots(g, seg + [BAR] + more, max) ==
            if max == 0 then None
            else match (ReadSlot(g, seg), ReadSlots(g, more, max - 1))
                 case (Some(x), Some(xs)) => Some([x] + xs)
                 case _ => None
  {
    hide First, ReadSlot;
    FirstAfter(seg, BAR, more);
  }

  /** Printed slots are read one by one, and what follows them is read after them. */
  lemma {:induction false} SlotsAcross(f: Features, g: Features, xs: seq<Slot>, rest: Text, max: nat)
    requires CleanSlots(f, xs)
    ensures ReadSlots(g, SlotsText(f, xs) + rest, max) ==
            if |xs| > max then None
            else match ReadSlots(g, rest, max - |xs|)
                 case None => None
                 case Some(ys) => Some(AllNarrowed(g, xs) + ys)
    decreases |xs|
  {
    hide First, ReadSlot, ReadSlots, SlotText, CleanSlot, Narrowed;
    if xs == [] {
      assert SlotsText(f, xs) + rest == rest;
      NoneBefore(ReadSlots(g, rest, max), g);
    } else {
      var seg, more := SlotText(f, xs[0]), SlotsText(f, xs[1..]) + rest;
      SlotAcross(f, g, xs[0]);
      assert SlotsText(f, xs) + rest == seg + [BAR] + more;
      ReadFirstSlot(g, seg, more, max);
      if max > 0 {
        SlotsAcross(f, g, xs[1..], rest, max - 1);
        if |xs| <= max && ReadSlots(g, rest, max - |xs|).Some? {
          var ys := ReadSlots(g, rest, max - |xs|).value;
          assert [Narrowed(g, xs[0])] + (AllNarrowed(g, xs[1..]) + ys) == AllNarrowed(g, xs) + ys;
        }
      }
    }
  }

  lemma NoneBefore(r: Option<seq<Slot>>, g: Features)
    ensures r.Some? ==> AllNarrowed(g, []) + r.value == r.value
  {
  }

  lemma OnlyEmptySegments(f: Features, n: nat, tail: Text, max: nat)
    requires Free(tail, BAR)
    ensures ReadSlots(f, Bars(n) + tail, max) == Some([])
  {
    var s := Bars(n) + tail;
    if n == 0 {
      assert s == tail;
      assert First(tail, BAR) == |tail|;
    } else {
      assert s[1..] == Bars(n - 1) + tail;
      OnlyEmptySegments(f, n - 1, tail, max);
    }
  }

  function Bars(n: nat): (s: Text)
    ensures |s| == n
  {
    if n == 0 then [] else [BAR] + Bars(n - 1)
  }

  /** A reader and a message of another build, possibly with empty segments and an open one at the
      end: if the slots are no more than four it reads every field that both builds carry, and
      otherwise it refuses the message. */
  lemma ReadAcross(f: Features, g: Features, m: Msg, n: nat, tail: Text)
    requires CleanHeader(m.nodeId, m.nodeState, m.ts) && CleanSlots(f, m.sensors) && Free(tail, BAR)
    ensures ReadMsg(g, MsgText(f, m) + Bars(n) + tail) ==
            if |m.sensors| <= MAX_SENSORS then Some(m.(sensors := AllNarrowed(g, m.sensors))) else None
  {
    hide First, ReadHeader, ReadSlots, SlotsText, HeaderText, AllNarrowed, CleanSlots;
    var head, text := HeaderText(m.nodeId, m.nodeState, m.ts), SlotsText(f, m.sensors);
    HeaderRoundTrip(m.nodeId, m.nodeState, m.ts);
    assert MsgText(f, m) + Bars(n) + tail == head + [BAR] + (text + (Bars(n) + tail));
    FirstAfter(head, BAR, text + (Bars(n) + tail));
    SlotsAcross(f, g, m.sensors, Bars(n) + tail, MAX_SENSORS);
    if |m.sensors| <= MAX_SENSORS {
      OnlyEmptySegments(g, n, tail, MAX_SENSORS - |m.sensors|);
      assert AllNarrowed(g, m.sensors) + [] == AllNarrowed(g, m.sensors);
    }
  }

  lemma NarrowedToOwn(f: Features, xs: seq<Slot>)
    requires CleanSlots(f, xs)
    ensures AllNarrowed(f, xs) == xs
  {
    forall i | 0 <= i < |xs| ensures Narrowed(f, xs[i]) == xs[i] {
      assert CleanSlot(f, xs[i]);
    }
  }

  lemma SlotRoundTrip(f: Features, x: Slot)
    requires CleanSlot(f, x)
    ensures ReadSlot(f, SlotText(f, x)) == Some(x)
    ensures SlotText(f, x) != [] && Free(SlotText(f, x), BAR)
  {
    hide ReadSlot, SlotText;
    SlotAcross(f, f, x);
  }

  lemma CleanRoundTrip(f: Features, m: Msg)
    requires CleanMsg(f, m)
    ensures ReadMsg(f, MsgText(f, m)) == Some(m)
  {
    hide ReadMsg, MsgText, CleanSlots, CleanHeader;
    ReadAcross(f, f, m, 0, []);
    assert MsgText(f, m) + Bars(0) + [] == MsgText(f, m);
    NarrowedToOwn(f, m.sensors);
  }

  // ---- Whatever is read is clean -----------------------------------------

  lemma FreeBefore(s: Text, c: byte)
    ensures Free(s[..First(s, c)], c)
  {
    hide First;
  }

  lemma MarkFree(s: Text)
    ensures var v := s[..FirstMark(s)]; Free(v, HASH) && Free(v, BANG) && Free(v, AT)
  {
    hide FirstMark;
  }

  lemma {:induction false} ReadExtensionsClean(f: Features, s: Text, x: Slot)
    requires s == [] || IsMark(s[0])
    requires Free(s, BAR) && CleanSlot(f, x)
    ensures ReadExtensions(f, s, x).Some? ==> CleanSlot(f, ReadExtensions(f, s, x).value)
    decreases |s|
  {
    hide FirstMark;
    if s != [] {
      var v := s[1..];
      var e := FirstMark(v);
      var field := v[..e];
      MarkFree(v);
      if s[0] == HASH && f.geohash {
        if |field| < GEOHASH_MAX { ReadExtensionsClean(f, v[e..], x.(geohash := field)); }
      } else if s[0] == BANG && f.message {
        if |field| < MSG_MAX { ReadExtensionsClean(f, v[e..], x.(message := field)); }
      } else if s[0] == AT && f.url {
        if |field| < URL_MAX { ReadExtensionsClean(f, v[e..], x.(url := field)); }
      } else {
        ReadExtensionsClean(f, v[e..], x);
      }
    }
  }

  lemma SplitClean(seg: Text)
    requires Free(seg, BAR) && SplitSlot(seg).Some?
    ensures var (id, state, unit, rest) := SplitSlot(seg).value;
            && Free(id, GT) && Free(id, BAR) && Free(state, DOT) && Free(state, BAR)
            && Free(unit, COLON) && Free(unit, BAR) && Free(rest, BAR)
  {
    hide Cut;
    CutParts(seg, GT, BAR);
    var afterGt := Cut(seg, GT).value.1;
    CutParts(afterGt, DOT, BAR);
    CutParts(Cut(afterGt, DOT).value.1, COLON, BAR);
  }

  lemma ReadSlotClean(f: Features, seg: Text)
    requires Free(seg, BAR)
    ensures ReadSlot(f, seg).Some? ==> CleanSlot(f, ReadSlot(f, seg).value)
  {
    hide SplitSlot, FirstMark, ReadExtensions;
    if ReadSlot(f, seg).Some? {
      var (id, state, unit, rest) := SplitSlot(seg).value;
      var ext := FirstMark(rest);
      SplitClean(seg);
      MarkFree(rest);
      ReadExtensionsClean(f, rest[ext..], Slot(id, state, unit, rest[..ext], [], [], []));
    }
  }

  lemma {:induction false} ReadSlotsClean(f: Features, s: Text, max: nat)
    ensures ReadSlots(f, s, max).Some? ==>
              CleanSlots(f, ReadSlots(f, s, max).value) && |ReadSlots(f, s, max).value| <= max
    decreases |s|
  {
    hide First, ReadSlot, CleanSlot;
    var e := First(s, BAR);
    if e == |s| {
    } else if e == 0 {
      ReadSlotsClean(f, s[1..], max);
    } else if max > 0 {
      FreeBefore(s, BAR);
      ReadSlotClean(f, s[..e]);
      ReadSlotsClean(f, s[e + 1..], max - 1);
    }
  }

  lemma ReadHeaderClean(head: Text)
    requires Free(head, BAR) && ReadHeader(head).Some?
    ensures var h := ReadHeader(head).value; CleanHeader(h.0, h.1, h.2)
  {
    hide Cut;
    CutParts(head, DOT, BAR);
    CutParts(Cut(head, DOT).value.1, DOT, BAR);
  }

  lemma ReadMsgClean(f: Features, text: Text)
    requires ReadMsg(f, text).Some?
    ensures CleanMsg(f, ReadMsg(f, text).value)
  {
    hide First, ReadHeader, ReadSlots;
    var e := First(text, BAR);
    FreeBefore(text, BAR);
    ReadHeaderClean(text[..e]);
    ReadSlotsClean(f, text[e + 1..], MAX_SENSORS);
  }

  lemma {:induction false} ReadExtensionsKeep(f: Features, s: Text, x: Slot)
    requires s == [] || IsMark(s[0])
    ensures ReadExtensions(f, s, x).Some? ==> ReadExtensions(f, s, x).value.value == x.value
    decreases |s|
  {
    hide FirstMark;
    if s != [] {
      var v := s[1..];
      var e := FirstMark(v);
      var field := v[..e];
      ReadExtensionsKeep(f, v[e..], x);
      ReadExtensionsKeep(f, v[e..], x.(geohash := field));
      ReadExtensionsKeep(f, v[e..], x.(message := field));
      ReadExtensionsKeep(f, v[e..], x.(url := field));
    }
  }

  lemma ReadSlotFree(f: Features, seg: Text)
    requires Free(seg, NUL) && ReadSlot(f, seg).Some?
    ensures Free(ReadSlot(f, seg).value.value, NUL)
  {
    hide First, FirstMark, ReadExtensions;
    var (id, state, unit, rest) := SplitSlot(seg).value;
    var ext := FirstMark(rest);
    ReadExtensionsKeep(f, rest[ext..], Slot(id, state, unit, rest[..ext], [], [], []));
  }

  lemma {:induction false} ReadSlotsFree(f: Features, s: Text, max: nat)
    requires Free(s, NUL) && ReadSlots(f, s, max).Some?
    ensures forall i :: 0 <= i < |ReadSlots(f, s, max).value| ==> Free(ReadSlots(f, s, max).value[i].value, NUL)
    decreases |s|
  {
    hide First, ReadSlot;
    var e := First(s, BAR);
    if e == |s| {
    } else if e == 0 {
      ReadSlotsFree(f, s[1..], max);
    } else {
      ReadSlotFree(f, s[..e]);
      ReadSlotsFree(f, s[e + 1..], max - 1);
    }
  }

  /** The values read out of a C string are C strings. */
  lemma ReadMsgFree(f: Features, text: Text)
    requires Free(text, NUL)
    ensures ReadMsg(f, text).Some? ==>
              var xs := ReadMsg(f, text).value.sensors; forall i :: 0 <= i < |xs| ==> Free(xs[i].value, NUL)
  {
    hide First, ReadHeader, ReadSlots;
    if ReadMsg(f, text).Some? {
      ReadSlotsFree(f, text[First(text, BAR) + 1..], MAX_SENSORS);
    }
  }

  /** Template round trip: reading inverts printing exactly for the messages whose fields
      avoid their delimiters, fit their widths and belong to the build. */
  lemma RoundTripIff(f: Features, m: Msg)
    ensures ReadMsg(f, MsgText(f, m)) == Some(m) <==> CleanMsg(f, m)
  {
    if CleanMsg(f, m) {
      CleanRoundTrip(f, m);
    }
    if ReadMsg(f, MsgText(f, m)) == Some(m) {
      ReadMsgClean(f, MsgText(f, m));
    }
  }

  // ---- The buffers of the sources ----------------------------------------

  /** snprintf of one piece at a position: complete with its terminator, or cut off. */
  method Print(piece: Text, out: array<byte>, at: nat, ghost done: Text) returns (ok: bool, off: nat)
    requires at < out.Length && out[..at] == done
    modifies out
    ensures ok <==> at + |piece| < out.Length
    ensures ok ==> off == at + |piece| && out[..off] == done + piece && out[off] == NUL
  {
    var n := if at + |piece| < out.Length then |piece| else out.Length - at - 1;
    off := Append(piece[..n], out, at, done);
    ghost var text := out[..off];
    out[off] := NUL;
    assert out[..off] == text;
    ok := n == |piece|;
    assert ok ==> piece[..n] == piece;
  }

  /** One optional field of the segment being printed. */
  method AppendExtension(on: bool, mark: byte, v: Text, out: array<byte>, at: nat, ghost done: Text)
    returns (ok: bool, off: nat)
    requires at < out.Length && out[..at] == done
    modifies out
    ensures ok <==> at + |Extension(on, mark, v)| < out.Length
    ensures ok ==> off == at + |Extension(on, mark, v)| && out[..off] == done + Extension(on, mark, v)
  {
    ok, off := true, at;
    if on && v != [] {
      ok, off := Print([mark] + v, out, at, done);
    }
  }

  method AppendExtensions(f: Features, x: Slot, out: array<byte>, at: nat, ghost done: Text)
    returns (ok: bool, off: nat)
    requires at < out.Length && out[..at] == done
    modifies out
    ensures ok <==> at + |Extensions(f, x)| < out.Length
    ensures ok ==> off == at + |Extensions(f, x)| && out[..off] == done + Extensions(f, x)
  {
    hide Extension;
    ghost var g, m := Extension(f.geohash, HASH, x.geohash), Extension(f.message, BANG, x.message);
    ghost var u := Extension(f.url, AT, x.url);
    ok, off := AppendExtension(f.geohash, HASH, x.geohash, out, at, done);
    if !ok {
      return;
    }
    ok, off := AppendExtension(f.message, BANG, x.message, out, off, done + g);
    if !ok {
      return;
    }
    ok, off := AppendExtension(f.url, AT, x.url, out, off, done + g + m);
    assert done + g + m + u == done + (g + m + u);
  }

  method AppendSlot(f: Features, x: Slot, out: array<byte>, at: nat, ghost done: Text) returns (ok: bool, off: nat)
    requires at < out.Length && out[..at] == done
    modifies out
    ensures ok <==> at + |SlotText(f, x)| + 1 < out.Length
    ensures ok ==> off == at + |SlotText(f, x)| + 1 && out[..off] == done + (SlotText(f, x) + [BAR]) && out[off] == NUL
  {
    hide BaseText, Extensions;
    var base := x.id + [GT] + x.state + [DOT] + x.unit + [COLON] + x.value;
    BaseIs(x, base);
    ok, off := Print(base, out, at, done);
    if !ok {
      return;
    }
    ok, off := AppendExtensions(f, x, out, off, done + base);
    if !ok {
      return;
    }
    ok, off := Print([BAR], out, off, done + base + Extensions(f, x));
    assert done + base + Extensions(f, x) + [BAR] == done + (base + Extensions(f, x) + [BAR]);
  }

  lemma BaseIs(x: Slot, base: Text)
    requires base == x.id + [GT] + x.state + [DOT] + x.unit + [COLON] + x.value
    ensures BaseText(x) == base
  {
  }

  lemma SlotsTextNext(f: Features, xs: seq<Slot>, i: nat)
    requires i < |xs|
    ensures SlotsText(f, xs[i..]) == SlotText(f, xs[i]) + [BAR] + SlotsText(f, xs[i + 1..])
  {
    hide SlotText;
    assert xs[i..][1..] == xs[i + 1..];
  }

  /** osfx_template_encode: succeeds exactly when the whole text fits with its terminator. */
  method EncodeMsg(f: Features, nodeId: Text, nodeState: Text, ts: Text, sensors: seq<Slot>, out: array<byte>)
    returns (ok: bool)
    modifies out
    ensures var text := MsgText(f, Msg(nodeId, nodeState, ts, sensors));
            && (ok <==> |sensors| <= MAX_SENSORS && |text| < out.Length)
            && (ok ==> out[..|text|] == text && out[|text|] == NUL)
  {
    hide SlotText, HeaderText, BaseText;
    ghost var text := MsgText(f, Msg(nodeId, nodeState, ts, sensors));
    if out.Length == 0 || |sensors| > MAX_SENSORS {
      return false;
    }
    var off: nat;
    var head := HeaderText(nodeId, nodeState, ts) + [BAR];
    ok, off := Print(head, out, 0, []);
    assert sensors[0..] == sensors;
    if !ok {
      return;
    }
    for i := 0 to |sensors|
      invariant off < out.Length && out[off] == NUL
      invariant text == out[..off] + SlotsText(f, sensors[i..])
    {
      SlotsTextNext(f, sensors, i);
      ghost var done, rest := out[..off], SlotsText(f, sensors[i + 1..]);
      ok, off := AppendSlot(f, sensors[i], out, off, done);
      if !ok {
        assert text == done + (SlotText(f, sensors[i]) + [BAR]) + rest;
        return;
      }
      assert text == done + (SlotText(f, sensors[i]) + [BAR]) + rest;
    }
    assert sensors[|sensors|..] == [];
    assert text == out[..off];
    return true;
  }

  lemma ReadExtensionsStep(f: Features, s: Text, x: Slot)
    requires s != [] && IsMark(s[0])
    ensures var v := s[1..]; var e := FirstMark(v); var field := v[..e];
            ReadExtensions(f, s, x) ==
            if s[0] == HASH && f.geohash then
              if |field| + 1 > GEOHASH_MAX then None else ReadExtensions(f, v[e..], x.(geohash := field))
            else if s[0] == BANG && f.message then
              if |field| + 1 > MSG_MAX then None else ReadExtensions(f, v[e..], x.(message := field))
            else if s[0] == AT && f.url then
              if |field| + 1 > URL_MAX then None else ReadExtensions(f, v[e..], x.(url := field))
            else ReadExtensions(f, v[e..], x)
  {
    hide FirstMark;
  }

  // ---- Pointers into the text --------------------------------------------

  /** strchr: it runs on past any segment end; |s| stands for the null pointer. */
  method Strchr(s: Text, from: nat, c: byte) returns (pos: nat)
    requires from <= |s|
    ensures Reaches(s, from, c, pos)
  {
    pos := from;
    while pos < |s| && s[pos] != c
      invariant from <= pos <= |s|
      invariant forall k :: from <= k < pos ==> s[k] != c
    {
      pos := pos + 1;
    }
  }

  predicate Reaches(s: Text, from: nat, c: byte, pos: nat) {
    && from <= pos <= |s|
    && (forall k :: from <= k < pos ==> s[k] != c)
    && (pos < |s| ==> s[pos] == c)
  }

  /** What an unbounded search says about the part before end. */
  lemma ReachesFirst(s: Text, from: nat, end: nat, c: byte, pos: nat)
    requires from <= end <= |s| && Reaches(s, from, c, pos)
    ensures First(s[from..end], c) == (if pos < end then pos else end) - from
  {
    hide First;
    var part := s[from..end];
    assert forall k :: 0 <= k < |part| ==> part[k] == s[from + k];
  }

  lemma ReachesCut(s: Text, from: nat, end: nat, c: byte, pos: nat)
    requires from <= end <= |s| && Reaches(s, from, c, pos)
    ensures Cut(s[from..end], c) == if pos < end then Some((s[from..pos], s[pos + 1..end])) else None
  {
    hide First;
    ReachesFirst(s, from, end, c, pos);
    if pos < end {
      Subslice(s, from, end, pos);
    }
  }

  /** find_next_ext_marker: three unbounded searches, the nearest hit before end or |s|. */
  method FindNextExtMarker(s: Text, p: nat, end: nat) returns (m: nat)
    requires p <= end <= |s|
    ensures m == if p + FirstMark(s[p..end]) < end then p + FirstMark(s[p..end]) else |s|
  {
    hide First;
    if p >= end {
      return |s|;
    }
    var m1 := Strchr(s, p, HASH);
    var m2 := Strchr(s, p, BANG);
    var m3 := Strchr(s, p, AT);
    ReachesFirst(s, p, end, HASH, m1);
    ReachesFirst(s, p, end, BANG, m2);
    ReachesFirst(s, p, end, AT, m3);
    hide Reaches;
    m := |s|;
    if m1 < end {
      m := m1;
    }
    if m2 < end && m2 < m {
      m := m2;
    }
    if m3 < end && m3 < m {
      m := m3;
    }
  }

  /** The extension loop of osfx_template_decode, from the mark at ext on. */
  method DecodeExtensions(f: Features, s: Text, ext: nat, end: nat, start: Slot) returns (r: Option<Slot>)
    requires ext <= end <= |s| && (ext < end ==> IsMark(s[ext]))
    ensures r == ReadExtensions(f, s[ext..end], start)
  {
    hide FirstMark, ReadExtensions;
    var x, cursor := start, ext;
    while cursor < end
      invariant ext <= cursor <= end && (cursor < end ==> IsMark(s[cursor]))
      invariant ReadExtensions(f, s[cursor..end], x) == ReadExtensions(f, s[ext..end], start)
      decreases end - cursor
    {
      var mark, valStart := s[cursor], cursor + 1;
      var valEnd := FindNextExtMarker(s, valStart, end);
      if valEnd >= end {
        valEnd := end;
      }
      MarkAt(s, valStart, end, valEnd);
      ghost var here, v := s[cursor..end], s[valStart..end];
      assert here[1..] == v;
      assert v[..valEnd - valStart] == s[valStart..valEnd] && v[valEnd - valStart..] == s[valEnd..end];
      ReadExtensionsStep(f, here, x);
      var field := s[valStart..valEnd];
      if mark == HASH {
        if f.geohash {
          if |field| + 1 > GEOHASH_MAX {
            return None;
          }
          x := x.(geohash := field);
        }
      } else if mark == BANG {
        if f.message {
          if |field| + 1 > MSG_MAX {
            return None;
          }
          x := x.(message := field);
        }
      } else if mark == AT {
        if f.url {
          if |field| + 1 > URL_MAX {
            return None;
          }
          x := x.(url := field);
        }
      }
      cursor := valEnd;
    }
    assert s[end..end] == [];
    ReadNothing(f, x);
    return Some(x);
  }

  lemma MarkAt(s: Text, from: nat, end: nat, pos: nat)
    requires from <= end <= |s|
    requires pos == if from + FirstMark(s[from..end]) < end then from + FirstMark(s[from..end]) else end
    ensures from <= pos <= end && FirstMark(s[from..end]) == pos - from && (pos < end ==> IsMark(s[pos]))
  {
    var m := FirstMark(s[from..end]);
    assert m < end - from ==> s[from..end][m] == s[from + m];
  }

  /** The three chained searches, all compared with the segment end afterwards. */
  lemma SplitSlotAt(s: Text, p: nat, end: nat, gt: nat, dot: nat, colon: nat)
    requires p <= end < |s| && Reaches(s, p, GT, gt)
    requires gt < |s| ==> Reaches(s, gt + 1, DOT, dot)
    requires gt < |s| && dot < |s| ==> Reaches(s, dot + 1, COLON, colon)
    ensures SplitSlot(s[p..end]) ==
            if gt < end && dot < end && colon < end then
              Some((s[p..gt], s[gt + 1..dot], s[dot + 1..colon], s[colon + 1..end]))
            else None
  {
    hide Cut;
    ReachesCut(s, p, end, GT, gt);
    if gt < end {
      ReachesCut(s, gt + 1, end, DOT, dot);
      if dot < end {
        ReachesCut(s, dot + 1, end, COLON, colon);
      }
    }
  }

  method DecodeSlot(f: Features, s: Text, p: nat, end: nat) returns (r: Option<Slot>)
    requires p <= end < |s|
    ensures r == ReadSlot(f, s[p..end])
  {
    hide SplitSlot, ReadFields, Reaches;
    var gt := Strchr(s, p, GT);
    ReachesRange(s, p, GT, gt);
    var dot, colon := |s|, |s|;
    if gt < |s| {
      dot := Strchr(s, gt + 1, DOT);
      ReachesRange(s, gt + 1, DOT, dot);
      if dot < |s| {
        colon := Strchr(s, dot + 1, COLON);
        ReachesRange(s, dot + 1, COLON, colon);
      }
    }
    SplitSlotAt(s, p, end, gt, dot, colon);
    if gt >= end || dot >= end || colon >= end {
      return None;
    }
    r := DecodeFields(f, s, p, gt, dot, colon, end);
  }

  /** The copies of the fields that the three searches found, and the extensions behind them. */
  method DecodeFields(f: Features, s: Text, p: nat, gt: nat, dot: nat, colon: nat, end: nat) returns (r: Option<Slot>)
    requires p <= gt < dot < colon < end < |s|
    ensures r == ReadFields(f, s[p..gt], s[gt + 1..dot], s[dot + 1..colon], s[colon + 1..end])
  {
    hide FirstMark, ReadExtensions;
    if gt - p + 1 > ID_MAX || dot - (gt + 1) + 1 > STATE_MAX || colon - (dot + 1) + 1 > UNIT_MAX {
      return None;
    }
    var ext := FindNextExtMarker(s, colon + 1, end);
    if ext >= end {
      ext := end;
    }
    MarkAt(s, colon + 1, end, ext);
    if ext - (colon + 1) + 1 > VALUE_MAX {
      return None;
    }
    ghost var rest := s[colon + 1..end];
    assert rest[..ext - (colon + 1)] == s[colon + 1..ext] && rest[ext - (colon + 1)..] == s[ext..end];
    var x := Slot(s[p..gt], s[gt + 1..dot], s[dot + 1..colon], s[colon + 1..ext], [], [], []);
    r := DecodeExtensions(f, s, ext, end, x);
  }

  lemma ReachesRange(s: Text, from: nat, c: byte, pos: nat)
    requires Reaches(s, from, c, pos)
    ensures from <= pos <= |s|
  {
  }

  ghost function Behind(done: seq<Slot>, r: Option<seq<Slot>>): Option<seq<Slot>> {
    match r
    case None => None
    case Some(xs) => Some(done + xs)
  }

  lemma BehindUnits(done: seq<Slot>, r: Option<seq<Slot>>)
    ensures Behind([], r) == r && Behind(done, Some([])) == Some(done)
  {
    if r.Some? {
      assert [] + r.value == r.value;
    }
    assert done + [] == done;
  }

  lemma ReadSlotsStep(f: Features, s: Text, max: nat)
    ensures var e := First(s, BAR);
            ReadSlots(f, s, max) ==
            if e == |s| then Some([])
            else if e == 0 then ReadSlots(f, s[1..], max)
            else if max == 0 || ReadSlot(f, s[..e]).None? then None
            else Behind([ReadSlot(f, s[..e]).value], ReadSlots(f, s[e + 1..], max - 1))
  {
    hide First, ReadSlot;
  }

  lemma BehindTwice(done: seq<Slot>, x: Slot, r: Option<seq<Slot>>)
    ensures Behind(done, Behind([x], r)) == Behind(done + [x], r)
  {
    if r.Some? {
      assert done + ([x] + r.value) == done + [x] + r.value;
    }
  }

  /** The segment loop of osfx_template_decode. */
  method DecodeSlots(f: Features, text: Text, start: nat) returns (r: Option<seq<Slot>>)
    requires start <= |text|
    ensures r == ReadSlots(f, text[start..], MAX_SENSORS)
  {
    hide First, ReadSlot, ReadSlots, Behind, Reaches;
    var sensors: seq<Slot> := [];
    var p := start;
    ghost var all := ReadSlots(f, text[p..], MAX_SENSORS);
    BehindUnits(sensors, all);
    while p < |text|
      invariant p <= |text| && |sensors| <= MAX_SENSORS
      invariant all == Behind(sensors, ReadSlots(f, text[p..], MAX_SENSORS - |sensors|))
      decreases |text| - p
    {
      var end := Strchr(text, p, BAR);
      ghost var s := text[p..];
      ReachesFirst(text, p, |text|, BAR, end);
      assert text[p..|text|] == s;
      ReadSlotsStep(f, s, MAX_SENSORS - |sensors|);
      BehindNone(sensors);
      if end == |text| {
        break;
      }
      if end == p {
        assert s[1..] == text[p + 1..];
        p := end + 1;
        continue;
      }
      if |sensors| >= MAX_SENSORS {
        return None;
      }
      var x := DecodeSlot(f, text, p, end);
      assert s[..end - p] == text[p..end];
      if x.None? {
        return None;
      }
      assert s[end - p + 1..] == text[end + 1..];
      BehindTwice(sensors, x.value, ReadSlots(f, text[end + 1..], MAX_SENSORS - |sensors| - 1));
      sensors := sensors + [x.value];
      p := end + 1;
    }
    ReadSlotsStep(f, text[p..], MAX_SENSORS - |sensors|);
    BehindUnits(sensors, None);
    return Some(sensors);
  }

  lemma BehindNone(done: seq<Slot>)
    ensures Behind(done, None) == None
  {
  }

  /** The two dots, searched for without a bound and then compared with the header's end. */
  lemma ReadHeaderAt(s: Text, end: nat, dot1: nat, dot2: nat)
    requires dot1 < end < |s| && Reaches(s, 0, DOT, dot1) && Reaches(s, dot1 + 1, DOT, dot2)
    ensures ReadHeader(s[..end]) ==
            if dot2 >= end then None
            else if dot1 + 1 > ID_MAX || dot2 - (dot1 + 1) + 1 > STATE_MAX || end - (dot2 + 1) + 1 > TS_MAX then None
            else Some((s[..dot1], s[dot1 + 1..dot2], s[dot2 + 1..end]))
  {
    hide Cut;
    ReachesCut(s, 0, end, DOT, dot1);
    assert s[0..end] == s[..end] && s[0..dot1] == s[..dot1];
    ReachesCut(s, dot1 + 1, end, DOT, dot2);
  }

  method DecodeHeader(s: Text, segEnd: nat) returns (r: Option<(Text, Text, Text)>)
    requires segEnd < |s|
    ensures r == ReadHeader(s[..segEnd])
  {
    hide ReadHeader, Reaches;
    var dot1 := Strchr(s, 0, DOT);
    ReachesRange(s, 0, DOT, dot1);
    if dot1 >= segEnd {
      NoHeader(s, segEnd, dot1);
      return None;
    }
    var dot2 := Strchr(s, dot1 + 1, DOT);
    ReadHeaderAt(s, segEnd, dot1, dot2);
    ReachesRange(s, dot1 + 1, DOT, dot2);
    if dot2 >= segEnd {
      return None;
    }
    if dot1 + 1 > ID_MAX || dot2 - (dot1 + 1) + 1 > STATE_MAX || segEnd - (dot2 + 1) + 1 > TS_MAX {
      return None;
    }
    return Some((s[..dot1], s[dot1 + 1..dot2], s[dot2 + 1..segEnd]));
  }

  lemma NoHeader(s: Text, end: nat, dot1: nat)
    requires end <= dot1 && end < |s| && Reaches(s, 0, DOT, dot1)
    ensures ReadHeader(s[..end]).None?
  {
    hide Cut;
    ReachesCut(s, 0, end, DOT, dot1);
    assert s[0..end] == s[..end];
  }

  /** osfx_template_decode on a C string. */
  method DecodeMsg(f: Features, text: Text) returns (r: Option<Msg>)
    requires Free(text, NUL)
    ensures r == ReadMsg(f, text)
  {
    hide First, ReadHeader, ReadSlots;
    var segEnd := Strchr(text, 0, BAR);
    ReachesFirst(text, 0, |text|, BAR, segEnd);
    assert text[0..|text|] == text;
    if segEnd == |text| {
      return None;
    }
    var header := DecodeHeader(text, segEnd);
    if header.None? {
      return None;
    }
    var sensors := DecodeSlots(f, text, segEnd + 1);
    if sensors.None? {
      return None;
    }
    var (nodeId, nodeState, ts) := header.value;
    return Some(Msg(nodeId, nodeState, ts, sensors.value));
  }
}
