/** The payload mask of src/osfx_payload_crypto.c. */
module PayloadCrypto {
  import opened Bytes
  import opened Bits

  function XorByte(a: byte, b: byte): byte {
    assert P2(4) == 16 && P2(8) == 16 * P2(4);
    XorBound(a, b, 8);
    Xor(a, b)
  }

  function MaskByte(b: byte, key: Text, off: byte, i: nat): byte
    requires key != []
  {
    XorByte(XorByte(b, key[(i + off) % |key|]), off)
  }

  /** Each byte meets one key byte and the offset; without a key nothing changes. */
  function Mask(payload: Text, key: Text, offset: nat): (out: Text)
    ensures |out| == |payload|
  {
    var off := offset % 32;
    if key == [] then payload
    else seq(|payload|, i requires 0 <= i < |payload| => MaskByte(payload[i], key, off, i))
  }

  lemma MaskByteTwice(b: byte, key: Text, off: byte, i: nat)
    requires key != []
    ensures MaskByte(MaskByte(b, key, off, i), key, off, i) == b
  {
    hide Xor;
    var k := key[(i + off) % |key|];
    XorSwap(Xor(b, k), off, k);
    XorCancel(b, k);
    XorCancel(b, off);
  }

  /** Masking twice with the same key and offset gives the payload back. */
  lemma MaskInvolution(payload: Text, key: Text, offset: nat)
    ensures Mask(Mask(payload, key, offset), key, offset) == payload
  {
    hide MaskByte;
    if key != [] {
      forall i | 0 <= i < |payload| ensures Mask(Mask(payload, key, offset), key, offset)[i] == payload[i] {
        MaskByteTwice(payload[i], key, offset % 32, i);
      }
    }
  }

  /** What the mask does to one byte: masked and clear byte differ by one key byte, taken from
      the offset on and around the key, and by the offset itself. */
  lemma MaskLaw(payload: Text, key: Text, offset: nat, i: nat)
    requires i < |payload|
    ensures Xor(payload[i], Mask(payload, key, offset)[i]) ==
            if key == [] then 0 else Xor(key[(i + offset % 32) % |key|], offset % 32)
  {
    hide Xor;
    var b := payload[i];
    if key == [] {
      XorEqual(b, b);
    } else {
      var k, off := key[(i + offset % 32) % |key|], offset % 32;
      XorAssoc(b, k, off);
      XorComm(b, Xor(k, off));
      XorComm(Mask(payload, key, offset)[i], b);
      XorCancel(Xor(k, off), b);
    }
  }

  /** The key byte that position i of a payload meets. */
  function KeyAt(key: Text, offset: nat, i: nat): byte
    requires key != []
  {
    key[(i + offset % 32) % |key|]
  }

  /** Two keys show the same bytes to a payload of length n. */
  ghost predicate Agree(k1: Text, k2: Text, offset: nat, n: nat)
    requires k1 != [] && k2 != []
  {
    forall i :: 0 <= i < n ==> KeyAt(k1, offset, i) == KeyAt(k2, offset, i)
  }

  lemma SamePad(b: nat, k1: nat, k2: nat, off: nat)
    ensures Xor(Xor(b, k1), off) == Xor(Xor(b, k2), off) <==> k1 == k2
  {
    hide Xor;
    XorCancel(Xor(b, k1), off);
    XorCancel(Xor(b, k2), off);
    XorComm(b, k1);
    XorComm(b, k2);
    XorCancel(k1, b);
    XorCancel(k2, b);
  }

  /** Two keys mask a payload alike exactly when they agree at every position used. */
  lemma MaskedAlikeIff(payload: Text, k1: Text, k2: Text, offset: nat)
    requires k1 != [] && k2 != []
    ensures Mask(payload, k1, offset) == Mask(payload, k2, offset) <==> Agree(k1, k2, offset, |payload|)
  {
    hide KeyAt, MaskByte;
    var m1, m2 := Mask(payload, k1, offset), Mask(payload, k2, offset);
    forall i | 0 <= i < |payload| ensures m1[i] == m2[i] <==> KeyAt(k1, offset, i) == KeyAt(k2, offset, i) {
      MaskedByteIff(payload[i], k1, k2, offset, i);
    }
    assert |m1| == |m2|;
  }

  lemma MaskedByteIff(b: byte, k1: Text, k2: Text, offset: nat, i: nat)
    requires k1 != [] && k2 != []
    ensures MaskByte(b, k1, offset % 32, i) == MaskByte(b, k2, offset % 32, i) <==>
            KeyAt(k1, offset, i) == KeyAt(k2, offset, i)
  {
    hide Xor;
    SamePad(b, KeyAt(k1, offset, i), KeyAt(k2, offset, i), offset % 32);
  }

  /** Unmasking with another key gives the payload back exactly when the keys agree there. */
  lemma UnmaskedIff(payload: Text, k1: Text, k2: Text, offset: nat)
    requires k1 != [] && k2 != []
    ensures Mask(Mask(payload, k1, offset), k2, offset) == payload <==> Agree(k1, k2, offset, |payload|)
  {
    hide Mask, Agree;
    MaskedAlikeIff(payload, k1, k2, offset);
    MaskInvolution(payload, k2, offset);
    MaskInvolution(Mask(payload, k1, offset), k2, offset);
  }

  /** Writes the masked payload at position at of the output buffer. */
  method XorPayload(payload: Text, key: Text, offset: nat, out: array<byte>, at: nat)
    requires at + |payload| <= out.Length
    modifies out
    ensures out[at..at + |payload|] == Mask(payload, key, offset)
    ensures forall k :: 0 <= k < out.Length && !(at <= k < at + |payload|) ==> out[k] == old(out[k])
  {
    hide MaskByte;
    var off := offset % 32;
    if |payload| == 0 {
      return;
    }
    if |key| == 0 {
      for i := 0 to |payload|
        invariant out[at..at + i] == payload[..i]
        invariant forall k :: 0 <= k < out.Length && !(at <= k < at + i) ==> out[k] == old(out[k])
      {
        out[at + i] := payload[i];
      }
      return;
    }
    ghost var masked := Mask(payload, key, offset);
    for i := 0 to |payload|
      invariant forall k :: 0 <= k < i ==> out[at + k] == masked[k]
      invariant forall k :: 0 <= k < out.Length && !(at <= k < at + i) ==> out[k] == old(out[k])
    {
      out[at + i] := MaskByte(payload[i], key, off, i);
    }
  }
}
