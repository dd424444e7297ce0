/** The session store of src/osfx_secure_session.c. */
module SecureSession {
  import opened Bytes
  import opened Bits

  const SESSION_MAX: nat := 64
  const KEY_LEN: nat := 32

  datatype SecState = Init | PlaintextSent | DictReadyState | Secure

  datatype Session = Session(
    used: bool,
    aid: uint32,
    lastSeen: uint64,
    lastDataTs: uint64,
    firstPlaintextTs: uint64,
    pendingTs: uint64,
    key: Text,
    pendingKey: Text,
    keySet: bool,
    pendingKeySet: bool,
    dictReady: bool,
    decryptConfirmed: bool,
    state: SecState)

  type Store = seq<Session>

  function NoKey(): Text {
    seq(KEY_LEN, i => 0)
  }

  const Cleared: Session := Session(false, 0, 0, 0, 0, 0, NoKey(), NoKey(), false, false, false, false, Init)

  function EmptyStore(): (s: Store)
    ensures |s| == SESSION_MAX
  {
    seq(SESSION_MAX, i => Cleared)
  }

  // ---- Key derivation ----------------------------------------------------

  function XorWord(a: uint32, b: uint32): uint32 {
    WordBound();
    XorBound(a, b, 32);
    Xor(a, b)
  }

  lemma WordBound()
    ensures P2(32) == 0x1_0000_0000
  {
    assert P2(8) == 256 by {
      assert P2(4) == 16 && P2(8) == 16 * P2(4);
    }
    assert P2(12) == 16 * P2(8) && P2(16) == 16 * P2(12);
    assert P2(20) == 16 * P2(16) && P2(24) == 16 * P2(20);
    assert P2(28) == 16 * P2(24) && P2(32) == 16 * P2(28);
  }

  function Seed(aid: uint32, ts: uint64): uint32 {
    XorWord(XorWord(aid, ts % 0x1_0000_0000), ts / 0x1_0000_0000 % 0x1_0000_0000)
  }

  /** The generator after i turns. */
  function Turned(x: uint32, i: nat): uint32 {
    if i == 0 then x else (Turned(x, i - 1) * 1664525 + 1013904223 + (i - 1)) % 0x1_0000_0000
  }

  function DeriveKey(aid: uint32, ts: uint64): (key: Text)
    ensures |key| == KEY_LEN
  {
    seq(KEY_LEN, i requires 0 <= i < KEY_LEN => Turned(Seed(aid, ts), i + 1) / 0x100_0000 % 256)
  }

  method ComputeKey(aid: uint32, ts: uint64) returns (key: Text)
    ensures key == DeriveKey(aid, ts)
  {
    hide Xor;
    var out := new byte[KEY_LEN];
    var x := XorWord(XorWord(aid, ts % 0x1_0000_0000), ts / 0x1_0000_0000 % 0x1_0000_0000);
    for i := 0 to KEY_LEN
      invariant x == Turned(Seed(aid, ts), i)
      invariant forall k :: 0 <= k < i ==> out[k] == DeriveKey(aid, ts)[k]
    {
      x := (x * 1664525 + 1013904223 + i) % 0x1_0000_0000;
      out[i] := x / 0x100_0000 % 256;
    }
    key := out[..];
  }

  // ---- Search ------------------------------------------------------------

  predicate IsFor(s: Session, aid: uint32) {
    s.used && s.aid == aid
  }

  /** The first session of the aid, or |st|. */
  function Find(st: Store, aid: uint32): (i: nat)
    ensures i <= |st|
    ensures forall k :: 0 <= k < i ==> !IsFor(st[k], aid)
    ensures i < |st| ==> IsFor(st[i], aid)
  {
    FirstIndex(st, s => IsFor(s, aid))
  }

  function FirstUnused(st: Store): (i: nat)
    ensures i <= |st|
    ensures forall k :: 0 <= k < i ==> st[k].used
    ensures i < |st| ==> !st[i].used
  {
    FirstIndex(st, (s: Session) => !s.used)
  }

  /** find_or_alloc: |st| stands for the null pointer of a full store. */
  function Place(st: Store, aid: uint32): (i: nat)
    ensures i <= |st|
  {
    if Find(st, aid) < |st| then Find(st, aid) else FirstUnused(st)
  }

  function Claimed(st: Store, aid: uint32): (s: Session)
    requires Place(st, aid) < |st|
    ensures IsFor(s, aid)
  {
    if Find(st, aid) < |st| then st[Find(st, aid)] else Cleared.(used := true, aid := aid)
  }

  function Lookup(st: Store, aid: uint32): (r: Option<Session>)
    ensures r.Some? ==> IsFor(r.value, aid)
  {
    if Find(st, aid) < |st| then Some(st[Find(st, aid)]) else None
  }

  /** The store after one session was changed; unchanged if there was no room for it. */
  function Put(st: Store, aid: uint32, s: Session): Store {
    if Place(st, aid) < |st| then st[Place(st, aid) := s] else st
  }

  // ---- Operations --------------------------------------------------------

  function Noted(s: Session, ts: uint64, now: uint64): Session {
    s.(lastSeen := now, pendingTs := ts, pendingKey := DeriveKey(s.aid, ts), pendingKeySet := true,
       state := PlaintextSent)
  }

  function Confirmed(s: Session, ts: uint64, now: uint64): Session {
    var derived := s.(pendingTs := ts, pendingKey := DeriveKey(s.aid, ts), pendingKeySet := true);
    var s' := if s.pendingKeySet then s else derived;
    s'.(lastSeen := now, key := s'.pendingKey, keySet := true, dictReady := true,
        firstPlaintextTs := s'.pendingTs, state := DictReadyState)
  }

  function Marked(s: Session, now: uint64): Session {
    s.(lastSeen := now, decryptConfirmed := true, state := Secure)
  }

  datatype TsVerdict = Accept | Replay | OutOfOrder

  function Verdict(s: Session, ts: uint64): TsVerdict {
    if s.lastDataTs == 0 || ts > s.lastDataTs then Accept
    else if ts == s.lastDataTs then Replay
    else OutOfOrder
  }

  function Stamped(s: Session, ts: uint64, now: uint64): Session {
    if Verdict(s, ts) == Accept then s.(lastSeen := now, lastDataTs := ts) else s.(lastSeen := now)
  }

  function Note(st: Store, aid: uint32, ts: uint64, now: uint64): Store {
    if Place(st, aid) < |st| then Put(st, aid, Noted(Claimed(st, aid), ts, now)) else st
  }

  function Confirm(st: Store, aid: uint32, ts: uint64, now: uint64): Store {
    if Place(st, aid) < |st| then Put(st, aid, Confirmed(Claimed(st, aid), ts, now)) else st
  }

  function Mark(st: Store, aid: uint32, now: uint64): Store {
    if Place(st, aid) < |st| then Put(st, aid, Marked(Claimed(st, aid), now)) else st
  }

  /** osfx_secure_check_and_update_timestamp; a full store refuses as out of order. */
  function Check(st: Store, aid: uint32, ts: uint64, now: uint64): (Store, TsVerdict) {
    if Place(st, aid) < |st| then
      var s := Claimed(st, aid);
      (Put(st, aid, Stamped(s, ts, now)), Verdict(s, ts))
    else (st, OutOfOrder)
  }

  predicate ShouldEncrypt(st: Store, aid: uint32) {
    var r := Lookup(st, aid);
    r.Some? && r.value.dictReady && r.value.keySet
  }

  function GetKey(st: Store, aid: uint32): Option<Text> {
    var r := Lookup(st, aid);
    if r.Some? && r.value.keySet then Some(r.value.key) else None
  }

  predicate ChannelConfirmed(st: Store, aid: uint32) {
    var r := Lookup(st, aid);
    r.Some? && r.value.decryptConfirmed
  }

  predicate Expired(s: Session, now: uint64, expire: uint64) {
    s.used && now > s.lastSeen && now - s.lastSeen > expire
  }

  function Cleanup(st: Store, now: uint64, expire: uint64): (r: Store)
    ensures |r| == |st|
  {
    seq(|st|, i requires 0 <= i < |st| => if Expired(st[i], now, expire) then Cleared else st[i])
  }

  // ---- What one change leaves --------------------------------------------

  /** Changing one aid's session shows at that aid and nowhere else. */
  lemma PutLookup(st: Store, aid: uint32, s: Session, other: uint32)
    requires Place(st, aid) < |st| && IsFor(s, aid)
    ensures |Put(st, aid, s)| == |st|
    ensures Lookup(Put(st, aid, s), aid) == Some(s)
    ensures other != aid ==> Lookup(Put(st, aid, s), other) == Lookup(st, other)
  {
    hide Find, FirstUnused;
    var i := Place(st, aid);
    var st' := st[i := s];
    assert forall k :: 0 <= k < i ==> !IsFor(st'[k], aid) by {
      assert forall k :: 0 <= k < i ==> !IsFor(st[k], aid);
    }
    assert IsFor(st'[i], aid);
    if other != aid {
      assert !IsFor(st[i], other) && !IsFor(st'[i], other);
      var j, j' := Find(st, other), Find(st', other);
      assert forall k :: 0 <= k < |st| && k != i ==> st'[k] == st[k];
      assert j < |st| ==> IsFor(st'[j], other);
      assert j' < |st| ==> IsFor(st[j'], other);
    }
  }

  lemma ClaimedIs(st: Store, aid: uint32)
    requires Place(st, aid) < |st|
    ensures Claimed(st, aid) == SessionOf(st, aid)
  {
  }

  lemma FoundHasPlace(st: Store, aid: uint32)
    requires Lookup(st, aid).Some?
    ensures Place(st, aid) < |st|
  {
  }

  // ---- The invariant -----------------------------------------------------

  /** What every session keeps: keys are derived from the time stored beside them. */
  ghost predicate SoundSession(s: Session) {
    && (s.keySet <==> s.dictReady)
    && (s.keySet ==> s.pendingKeySet && s.key == DeriveKey(s.aid, s.firstPlaintextTs))
    && (s.pendingKeySet ==> s.pendingKey == DeriveKey(s.aid, s.pendingTs))
  }

  ghost predicate SoundStore(st: Store) {
    && |st| == SESSION_MAX
    && (forall i :: 0 <= i < |st| && st[i].used ==> SoundSession(st[i]))
    && (forall i, k :: 0 <= i < k < |st| && st[i].used && st[k].used ==> st[i].aid != st[k].aid)
  }

  lemma PutKeepsSound(st: Store, aid: uint32, s: Session)
    requires SoundStore(st) && Place(st, aid) < |st| && IsFor(s, aid) && SoundSession(s)
    ensures SoundStore(Put(st, aid, s))
  {
    hide Find, FirstUnused, SoundSession;
    var i := Place(st, aid);
    forall k | 0 <= k < |st| && k != i && st[k].used ensures st[k].aid != aid {
      assert Find(st, aid) < |st| ==> IsFor(st[i], aid);
      assert !IsFor(st[k], aid);
    }
  }

  lemma ClaimedSound(st: Store, aid: uint32)
    requires SoundStore(st) && Place(st, aid) < |st|
    ensures SoundSession(Claimed(st, aid))
  {
    hide Find, FirstUnused;
  }

  lemma ChangesKeepSound(s: Session, ts: uint64, now: uint64)
    requires SoundSession(s)
    ensures SoundSession(Noted(s, ts, now)) && SoundSession(Confirmed(s, ts, now))
    ensures SoundSession(Marked(s, now)) && SoundSession(Stamped(s, ts, now))
    ensures forall aid: uint32 :: IsFor(s, aid) ==>
              IsFor(Noted(s, ts, now), aid) && IsFor(Confirmed(s, ts, now), aid) &&
              IsFor(Marked(s, now), aid) && IsFor(Stamped(s, ts, now), aid)
  {
    hide DeriveKey;
  }

  /** The calls that an application and the dispatcher make on a store. */
  datatype Op =
    | NoteOp(aid: uint32, ts: uint64, now: uint64)
    | ConfirmOp(aid: uint32, ts: uint64, now: uint64)
    | MarkOp(aid: uint32, now: uint64)
    | CheckOp(aid: uint32, ts: uint64, now: uint64)
    | CleanupOp(now: uint64, expire: uint64)

  function Apply(st: Store, op: Op): Store {
    match op
    case NoteOp(aid, ts, now) => Note(st, aid, ts, now)
    case ConfirmOp(aid, ts, now) => Confirm(st, aid, ts, now)
    case MarkOp(aid, now) => Mark(st, aid, now)
    case CheckOp(aid, ts, now) => Check(st, aid, ts, now).0
    case CleanupOp(now, expire) => Cleanup(st, now, expire)
  }

  lemma ApplyKeepsSound(st: Store, op: Op)
    requires SoundStore(st)
    ensures SoundStore(Apply(st, op))
  {
    hide Place, Claimed, SoundSession, Put, Noted, Confirmed, Marked, Stamped, Verdict;
    if op.CleanupOp? {
    } else if Place(st, op.aid) < |st| {
      var s := Claimed(st, op.aid);
      ClaimedSound(st, op.aid);
      var ts := if op.MarkOp? then 0 else op.ts;
      ChangesKeepSound(s, ts, op.now);
      PutKeepsSound(st, op.aid, Noted(s, ts, op.now));
      PutKeepsSound(st, op.aid, Confirmed(s, ts, op.now));
      PutKeepsSound(st, op.aid, Marked(s, op.now));
      PutKeepsSound(st, op.aid, Stamped(s, ts, op.now));
    }
  }

  /** What one call other than a cleanup does to the session it claims. */
  function Changed(s: Session, op: Op): Session {
    match op
    case NoteOp(_, ts, now) => Noted(s, ts, now)
    case ConfirmOp(_, ts, now) => Confirmed(s, ts, now)
    case MarkOp(_, now) => Marked(s, now)
    case CheckOp(_, ts, now) => Stamped(s, ts, now)
    case CleanupOp(_, _) => s
  }

  /** The session of an aid, or the blank one that a first claim would give it. */
  function SessionOf(st: Store, aid: uint32): (s: Session)
    ensures IsFor(s, aid)
  {
    var r := Lookup(st, aid);
    if r.Some? then r.value else Cleared.(used := true, aid := aid)
  }

  predicate HasRoom(st: Store, aid: uint32) {
    Place(st, aid) < |st|
  }

  /** Every call changes the session of its own aid, if there is room for it, and no other. */
  lemma ApplyLookup(st: Store, op: Op, other: uint32)
    requires !op.CleanupOp?
    ensures Lookup(Apply(st, op), other) ==
            if other == op.aid && HasRoom(st, other) then Some(Changed(SessionOf(st, other), op)) else Lookup(st, other)
    ensures HasRoom(st, op.aid) ==> HasRoom(Apply(st, op), op.aid)
  {
    hide Place, Claimed, Lookup, Put, DeriveKey, Verdict;
    if HasRoom(st, op.aid) {
      var s := Claimed(st, op.aid);
      ClaimedIs(st, op.aid);
      var s' := Changed(s, op);
      assert IsFor(s', op.aid);
      assert Apply(st, op) == Put(st, op.aid, s');
      PutLookup(st, op.aid, s', other);
      PutLookup(st, op.aid, s', op.aid);
      FoundHasPlace(Put(st, op.aid, s'), op.aid);
    }
  }

  /** Cleanup drops exactly the expired sessions. */
  lemma CleanupLookup(st: Store, now: uint64, expire: uint64, aid: uint32)
    requires SoundStore(st)
    ensures Lookup(Cleanup(st, now, expire), aid) ==
            if Lookup(st, aid).Some? && !Expired(Lookup(st, aid).value, now, expire) then Lookup(st, aid) else None
  {
    hide Find, SoundSession;
    var st' := Cleanup(st, now, expire);
    var i, j := Find(st, aid), Find(st', aid);
    assert j < |st| ==> IsFor(st'[j], aid) && st'[j] == st[j] && !Expired(st[j], now, expire);
    assert i < |st| ==> IsFor(st[i], aid);
    if i < |st| && !Expired(st[i], now, expire) {
      assert st'[i] == st[i];
    }
  }

  /** A dropped session frees its place. */
  lemma DroppedLeavesRoom(st: Store, now: uint64, expire: uint64, aid: uint32)
    requires Lookup(st, aid).Some? && Expired(Lookup(st, aid).value, now, expire)
    ensures HasRoom(Cleanup(st, now, expire), aid)
  {
    hide Find, FirstUnused;
    var i := Find(st, aid);
    assert !Cleanup(st, now, expire)[i].used;
  }

  function After(ops: seq<Op>): Store {
    if ops == [] then EmptyStore() else Apply(After(ops[..|ops| - 1]), ops[|ops| - 1])
  }

  /** Every reachable store is sound: one session per aid, a key exactly when the dictionary
      is ready, and each key derived from the time kept with it. */
  lemma {:induction false} ReachableStoresAreSound(ops: seq<Op>)
    ensures SoundStore(After(ops))
    decreases |ops|
  {
    hide Apply, SoundSession;
    if ops != [] {
      ReachableStoresAreSound(ops[..|ops| - 1]);
      ApplyKeepsSound(After(ops[..|ops| - 1]), ops[|ops| - 1]);
    }
  }

  // ---- The fixed array of the sources ------------------------------------

  class SecureStore {
    const sessions: array<Session>
    var expireSeconds: uint64

    ghost predicate Valid()
      reads sessions
    {
      SoundStore(sessions[..])
    }

    constructor (expire: uint64)
      ensures Valid() && fresh(sessions) && sessions[..] == EmptyStore()
      ensures expireSeconds == if expire > 0 then expire else 86400
    {
      sessions := new Session[SESSION_MAX](i => Cleared);
      expireSeconds := if expire > 0 then expire else 86400;
      new;
      assert sessions[..] == EmptyStore();
    }

    /** One pass: the session of the aid, or else the first unused one, claimed. */
    method FindOrAlloc(aid: uint32) returns (i: nat)
      modifies sessions
      ensures i == Place(old(sessions[..]), aid)
      ensures sessions[..] == if i < sessions.Length then old(sessions[..])[i := Claimed(old(sessions[..]), aid)]
                              else old(sessions[..])
    {
      hide Find, FirstUnused;
      ghost var st := sessions[..];
      var empty: nat := sessions.Length;
      i := 0;
      while i < sessions.Length
        invariant i <= sessions.Length && sessions[..] == st
        invariant forall k :: 0 <= k < i ==> !IsFor(st[k], aid)
        invariant empty < sessions.Length ==> empty < i && !st[empty].used
        invariant empty <= sessions.Length
        invariant forall k :: 0 <= k < i && k < empty ==> st[k].used
      {
        if IsFor(sessions[i], aid) {
          assert st[i := st[i]] == st;
          return;
        }
        if !sessions[i].used && empty == sessions.Length {
          empty := i;
        }
        i := i + 1;
      }
      i := empty;
      if empty < sessions.Length {
        sessions[empty] := Cleared.(used := true, aid := aid);
      }
    }

    /** find_const. */
    method FindConst(aid: uint32) returns (i: nat)
      ensures i == Find(sessions[..], aid)
    {
      hide Find;
      ghost var st := sessions[..];
      i := 0;
      while i < sessions.Length
        invariant i <= sessions.Length
        invariant forall k :: 0 <= k < i ==> !IsFor(st[k], aid)
      {
        if IsFor(sessions[i], aid) {
          return;
        }
        i := i + 1;
      }
    }

    method NotePlaintextSent(aid: uint32, ts: uint64, now: uint64) returns (ok: bool)
      requires Valid()
      modifies sessions
      ensures Valid() && sessions[..] == Note(old(sessions[..]), aid, ts, now)
      ensures ok <==> Place(old(sessions[..]), aid) < SESSION_MAX
    {
      hide Place, Claimed, SoundSession, DeriveKey;
      ghost var st := sessions[..];
      ApplyKeepsSound(st, NoteOp(aid, ts, now));
      var i := FindOrAlloc(aid);
      if i == sessions.Length {
        return false;
      }
      var key := ComputeKey(sessions[i].aid, ts);
      sessions[i] := sessions[i].(lastSeen := now, pendingTs := ts, pendingKey := key, pendingKeySet := true,
                                  state := PlaintextSent);
      assert sessions[..] == st[i := sessions[i]] == Note(st, aid, ts, now);
      return true;
    }

    method ConfirmDict(aid: uint32, ts: uint64, now: uint64) returns (ok: bool)
      requires Valid()
      modifies sessions
      ensures Valid() && sessions[..] == Confirm(old(sessions[..]), aid, ts, now)
      ensures ok <==> Place(old(sessions[..]), aid) < SESSION_MAX
    {
      hide Place, Claimed, SoundSession, DeriveKey;
      ghost var st := sessions[..];
      ApplyKeepsSound(st, ConfirmOp(aid, ts, now));
      var i := FindOrAlloc(aid);
      if i == sessions.Length {
        return false;
      }
      var s := sessions[i].(lastSeen := now);
      if !s.pendingKeySet {
        var key := ComputeKey(s.aid, ts);
        s := s.(pendingTs := ts, pendingKey := key, pendingKeySet := true);
      }
      s := s.(key := s.pendingKey, keySet := true, dictReady := true);
      s := s.(firstPlaintextTs := s.pendingTs, state := DictReadyState);
      sessions[i] := s;
      assert sessions[..] == st[i := sessions[i]] == Confirm(st, aid, ts, now);
      return true;
    }

    method MarkChannel(aid: uint32, now: uint64) returns (ok: bool)
      requires Valid()
      modifies sessions
      ensures Valid() && sessions[..] == Mark(old(sessions[..]), aid, now)
      ensures ok <==> Place(old(sessions[..]), aid) < SESSION_MAX
    {
      hide Place, Claimed, SoundSession;
      ghost var st := sessions[..];
      ApplyKeepsSound(st, MarkOp(aid, now));
      var i := FindOrAlloc(aid);
      if i == sessions.Length {
        return false;
      }
      sessions[i] := sessions[i].(lastSeen := now, decryptConfirmed := true, state := Secure);
      assert sessions[..] == st[i := sessions[i]] == Mark(st, aid, now);
      return true;
    }

    method EncryptionDue(aid: uint32) returns (yes: bool)
      ensures yes == ShouldEncrypt(sessions[..], aid)
    {
      hide Find;
      var i := FindConst(aid);
      return i < sessions.Length && sessions[i].dictReady && sessions[i].keySet;
    }

    method ReadKey(aid: uint32) returns (key: Option<Text>)
      ensures key == GetKey(sessions[..], aid)
    {
      hide Find;
      var i := FindConst(aid);
      if i == sessions.Length || !sessions[i].keySet {
        return None;
      }
      return Some(sessions[i].key);
    }

    method ChannelIsConfirmed(aid: uint32) returns (yes: bool)
      ensures yes == ChannelConfirmed(sessions[..], aid)
    {
      hide Find;
      var i := FindConst(aid);
      return i < sessions.Length && sessions[i].decryptConfirmed;
    }

    method CheckAndUpdateTimestamp(aid: uint32, ts: uint64, now: uint64) returns (v: TsVerdict)
      requires Valid()
      modifies sessions
      ensures Valid() && (sessions[..], v) == Check(old(sessions[..]), aid, ts, now)
    {
      hide Place, Claimed, SoundSession;
      ghost var st := sessions[..];
      ApplyKeepsSound(st, CheckOp(aid, ts, now));
      var i := FindOrAlloc(aid);
      if i == sessions.Length {
        return OutOfOrder;
      }
      sessions[i] := sessions[i].(lastSeen := now);
      assert sessions[..] == st[i := sessions[i]];
      if sessions[i].lastDataTs == 0 {
        sessions[i] := sessions[i].(lastDataTs := ts);
        assert sessions[..] == st[i := sessions[i]] == Check(st, aid, ts, now).0;
        return Accept;
      }
      if ts == sessions[i].lastDataTs {
        return Replay;
      }
      if ts < sessions[i].lastDataTs {
        return OutOfOrder;
      }
      sessions[i] := sessions[i].(lastDataTs := ts);
      assert sessions[..] == st[i := sessions[i]] == Check(st, aid, ts, now).0;
      return Accept;
    }

    /** osfx_secure_store_cleanup: the loop over the whole array. */
    method CleanupExpired(now: uint64)
      requires Valid()
      modifies sessions
      ensures Valid() && sessions[..] == Cleanup(old(sessions[..]), now, expireSeconds)
    {
      hide SoundStore, Cleared;
      ghost var st := sessions[..];
      ApplyKeepsSound(st, CleanupOp(now, expireSeconds));
      for i := 0 to sessions.Length
        invariant forall k :: 0 <= k < i ==> sessions[k] == Cleanup(st, now, expireSeconds)[k]
        invariant forall k :: i <= k < sessions.Length ==> sessions[k] == st[k]
      {
        if Expired(sessions[i], now, expireSeconds) {
          sessions[i] := Cleared;
        }
      }
      assert sessions[..] == Cleanup(st, now, expireSeconds);
    }
  }
}
