/** Bytes, C strings and their searches, as the firmware sources use them. */
module Bytes {
  type byte = b: int | 0 <= b < 256
  type uint16 = n: int | 0 <= n < 0x1_0000
  type uint32 = n: int | 0 <= n < 0x1_0000_0000
  type uint64 = n: int | 0 <= n < 0x1_0000_0000_0000_0000

  /** A buffer, or the characters of a C string before its terminator. */
  type Text = seq<byte>

  datatype Option<+T> = None | Some(value: T)

  const NUL: byte := 0
  const BANG: byte := 33
  const HASH: byte := 35
  const MINUS: byte := 45
  const DOT: byte := 46
  const ZERO: byte := 48
  const COLON: byte := 58
  const GT: byte := 62
  const AT: byte := 64
  const UPPER_U: byte := 85
  const BAR: byte := 124

  /** The first index whose element is wanted, or |s|. */
  function FirstIndex<T>(s: seq<T>, wanted: T -> bool): (i: nat)
    ensures i <= |s|
    ensures forall k :: 0 <= k < i ==> !wanted(s[k])
    ensures i < |s| ==> wanted(s[i])
  {
    if s == [] || wanted(s[0]) then 0 else 1 + FirstIndex(s[1..], wanted)
  }

  predicate Free(s: Text, c: byte) {
    c !in s
  }

  /** The first index of c in s, or |s|. */
  function First(s: Text, c: byte): (i: nat)
    ensures i <= |s|
    ensures forall k :: 0 <= k < i ==> s[k] != c
    ensures i < |s| ==> s[i] == c
  {
    if s == [] || s[0] == c then 0 else 1 + First(s[1..], c)
  }

  /** The last index of c in s, or -1. */
  function Last(s: Text, c: byte): (i: int)
    ensures -1 <= i < |s|
    ensures forall k :: i < k < |s| ==> s[k] != c
    ensures 0 <= i ==> s[i] == c
  {
    if s == [] then -1 else if s[|s| - 1] == c then |s| - 1 else Last(s[..|s| - 1], c)
  }

  /** What a C reader sees of a buffer: everything before the first NUL. */
  function CStr(s: Text): (r: Text)
    ensures r <= s
    ensures Free(r, NUL)
    ensures Free(s, NUL) ==> r == s
  {
    s[..First(s, NUL)]
  }

  lemma FirstAfter(a: Text, c: byte, b: Text)
    requires Free(a, c)
    ensures First(a + [c] + b, c) == |a|
    ensures (a + [c] + b)[..|a|] == a
    ensures (a + [c] + b)[|a| + 1..] == b
  {
    hide First;
    var s := a + [c] + b;
    assert s[|a|] == c;
    assert forall k :: 0 <= k < |a| ==> s[k] == a[k];
  }

  lemma {:induction false} LastBefore(a: Text, c: byte, b: Text)
    requires Free(b, c)
    ensures Last(a + [c] + b, c) == |a|
    decreases |b|
  {
    var s := a + [c] + b;
    if b == [] {
      assert s[|s| - 1] == c;
    } else {
      assert s[..|s| - 1] == a + [c] + b[..|b| - 1];
      assert s[|s| - 1] == b[|b| - 1];
      LastBefore(a, c, b[..|b| - 1]);
    }
  }

  /** Splitting at the first separator and joining again gives the text back. */
  lemma SplitFirst(s: Text, c: byte)
    requires First(s, c) < |s|
    ensures s == s[..First(s, c)] + [c] + s[First(s, c) + 1..]
    ensures Free(s[..First(s, c)], c)
  {
  }

  lemma SplitLast(s: Text, c: byte)
    requires 0 <= Last(s, c)
    ensures s == s[..Last(s, c)] + [c] + s[Last(s, c) + 1..]
    ensures Free(s[Last(s, c) + 1..], c)
  {
    hide Last;
    var i := Last(s, c);
    var tail := s[i + 1..];
    assert forall k :: 0 <= k < |tail| ==> tail[k] == s[i + 1 + k];
  }

  /** The text around the first separator. */
  function Cut(s: Text, c: byte): Option<(Text, Text)> {
    var i := First(s, c);
    if i == |s| then None else Some((s[..i], s[i + 1..]))
  }

  lemma CutAt(a: Text, c: byte, b: Text)
    requires Free(a, c)
    ensures Cut(a + [c] + b, c) == Some((a, b))
  {
    hide First;
    FirstAfter(a, c, b);
  }

  lemma CutParts(s: Text, c: byte, d: byte)
    requires Cut(s, c).Some?
    ensures var (a, b) := Cut(s, c).value;
            s == a + [c] + b && Free(a, c) && (Free(s, d) ==> Free(a, d) && Free(b, d))
  {
    hide First;
    SplitFirst(s, c);
  }

  /** The two parts of a piece of s around position at. */
  lemma Subslice(s: Text, lo: nat, hi: nat, at: nat)
    requires lo <= at < hi <= |s|
    ensures s[lo..hi][..at - lo] == s[lo..at] && s[lo..hi][at - lo + 1..] == s[at + 1..hi]
  {
  }

  /** A terminated text is what a C reader of the buffer sees. */
  lemma CStrIn(buf: Text, text: Text)
    requires |text| < |buf| && buf[..|text|] == text && buf[|text|] == NUL && Free(text, NUL)
    ensures CStr(buf) == text
  {
    hide First;
    assert forall k :: 0 <= k < |text| ==> buf[k] == text[k];
  }

  /** A terminator behind the text cuts the buffer down to what the text shows. */
  lemma CStrCut(buf: Text, text: Text)
    requires |text| < |buf| && buf[..|text|] == text && buf[|text|] == NUL
    ensures CStr(buf) == CStr(text)
  {
    hide First;
    assert forall k :: 0 <= k < |text| ==> buf[k] == text[k];
    var i, j := First(buf, NUL), First(text, NUL);
    assert j < |text| ==> buf[j] == NUL;
  }

  /** Appends src to the text that the buffer holds so far, as the memcpy calls do. */
  method Append(src: Text, out: array<byte>, off: nat, ghost text: Text) returns (next: nat)
    requires off + |src| <= out.Length && out[..off] == text
    modifies out
    ensures next == off + |src| && out[..next] == text + src
  {
    for i := 0 to |src|
      invariant out[..off] == text
      invariant out[off..off + i] == src[..i]
    {
      out[off + i] := src[i];
    }
    next := off + |src|;
    assert out[..next] == out[..off] + out[off..next];
  }
}
