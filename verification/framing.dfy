/** The layout of an encrypted payload: iv ‖ tag ‖ ciphertext. The cipher
    itself (AES-256-GCM) and the base64 wrapping are not part of this model;
    only the byte framing that `encrypt` builds and `decrypt` slices is. */
module Framing {
  newtype byte = x: int | 0 <= x < 256

  /** The IV length `encrypt` draws, and the GCM tag length. */
  const IvLength: nat := 12
  const TagLength: nat := 16

  /** `Buffer.concat([iv, tag, encrypted])`. */
  function Frame(iv: seq<byte>, tag: seq<byte>, ct: seq<byte>): (r: seq<byte>)
    ensures |r| == |iv| + |tag| + |ct|
    ensures r[..|iv|] == iv && r[|iv|..|iv| + |tag|] == tag && r[|iv| + |tag|..] == ct
  {
    iv + tag + ct
  }

  /** `buf.subarray(start, end)`: both bounds are clamped to the length. */
  function SubArray(buf: seq<byte>, start: nat, end: nat): (r: seq<byte>)
    ensures |r| <= |buf|
    ensures start <= end <= |buf| ==> r == buf[start..end]
    ensures end <= start || |buf| <= start ==> r == []
  {
    var s := if start < |buf| then start else |buf|;
    var e := if end < |buf| then end else |buf|;
    if s <= e then buf[s..e] else []
  }

  datatype Parts = Parts(iv: seq<byte>, tag: seq<byte>, ct: seq<byte>)

  /** The slicing at the head of `decrypt`: bytes 0..12, 12..28 and 28.. . */
  function Unframe(buf: seq<byte>): (r: Parts)
    ensures |r.iv| <= IvLength && |r.tag| <= TagLength
    ensures |buf| >= IvLength + TagLength ==> |r.iv| == IvLength && |r.tag| == TagLength
    ensures |buf| < IvLength + TagLength ==> r.ct == []
  {
    Parts(SubArray(buf, 0, IvLength),
          SubArray(buf, IvLength, IvLength + TagLength),
          SubArray(buf, IvLength + TagLength, |buf|))
  }

  /** `decrypt` recovers exactly the iv, tag and ciphertext `encrypt` framed. */
  lemma UnframeFrame(iv: seq<byte>, tag: seq<byte>, ct: seq<byte>)
    requires |iv| == IvLength && |tag| == TagLength
    ensures Unframe(Frame(iv, tag, ct)) == Parts(iv, tag, ct)
  {
    var buf := Frame(iv, tag, ct);
    assert buf[0..IvLength] == iv;
  }

  /** The slices always cover the buffer, in order, with nothing lost. */
  lemma FrameUnframe(buf: seq<byte>)
    ensures var p := Unframe(buf); Frame(p.iv, p.tag, p.ct) == buf
  {
    var p := Unframe(buf);
    if |buf| >= IvLength + TagLength {
      assert buf == buf[0..IvLength] + buf[IvLength..IvLength + TagLength] + buf[IvLength + TagLength..];
    } else if |buf| >= IvLength {
      assert buf == buf[0..IvLength] + buf[IvLength..];
    }
  }
}
