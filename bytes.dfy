/**
  Bytes of a file as Python's `bytes` objects present them, and the
  fixed-width unsigned integer codecs that `struct.unpack` / `struct.pack`
  apply to them with the formats `<H`, `>H`, `<I`, `>I`, `<Q`, `>Q`.
 */
module Bytes {

  /** One byte of the file: Python's `bytes` yields each as an int in 0..255. */
  type Byte = b: int | 0 <= b < 256

  function Min(a: int, b: int): int
  {
    if a <= b then a else b
  }

  /** 256 to the power `w`: one more than the largest value `w` bytes hold. */
  function Pow256(w: nat): (r: nat)
    ensures r >= 1
    ensures w > 0 ==> r >= 256
  {
    if w == 0 then 1 else 256 * Pow256(w - 1)
  }

  /**
    Python's slice `s[lo:hi]` for non-negative bounds: both bounds are
    clamped to the length, so a slice reaching past the end is short, and
    one starting at or after the end is empty. A `read(n)` at position `p`
    of a file holding `s` returns `Slice(s, p, p + n)`.
   */
  function Slice(s: seq<Byte>, lo: nat, hi: nat): (r: seq<Byte>)
    ensures |r| == if lo < hi && lo < |s| then Min(hi, |s|) - lo else 0
    ensures forall k :: 0 <= k < |r| ==> r[k] == s[lo + k]
  {
    if lo < hi && lo < |s| then s[lo..Min(hi, |s|)] else []
  }

  /** The bytes `s` after writing `t` over them at offset `at`. */
  function Overwrite(s: seq<Byte>, at: nat, t: seq<Byte>): (r: seq<Byte>)
    requires at + |t| <= |s|
    ensures |r| == |s|
    ensures forall k :: 0 <= k < |s| ==> r[k] == if at <= k < at + |t| then t[k - at] else s[k]
  {
    s[..at] + t + s[at + |t|..]
  }

  /** The unsigned integer whose little-endian encoding is `s`. */
  function DecodeLE(s: seq<Byte>): (v: nat)
    ensures v < Pow256(|s|)
  {
    if s == [] then 0 else s[0] + 256 * DecodeLE(s[1..])
  }

  /** The unsigned integer whose big-endian encoding is `s`. */
  function DecodeBE(s: seq<Byte>): (v: nat)
    ensures v < Pow256(|s|)
  {
    if s == [] then 0 else 256 * DecodeBE(s[..|s| - 1]) + s[|s| - 1]
  }

  /** The `w`-byte little-endian encoding of `v`. */
  function EncodeLE(v: nat, w: nat): (s: seq<Byte>)
    requires v < Pow256(w)
    ensures |s| == w && DecodeLE(s) == v
  {
    if w == 0 then [] else [v % 256] + EncodeLE(v / 256, w - 1)
  }

  /** The `w`-byte big-endian encoding of `v`. */
  function EncodeBE(v: nat, w: nat): (s: seq<Byte>)
    requires v < Pow256(w)
    ensures |s| == w && DecodeBE(s) == v
  {
    if w == 0 then [] else EncodeBE(v / 256, w - 1) + [v % 256]
  }

  /** Re-encoding a decoded little-endian field gives back its bytes. */
  lemma {:induction false} EncodeDecodeLE(s: seq<Byte>)
    ensures EncodeLE(DecodeLE(s), |s|) == s
  {
    if s != [] {
      EncodeDecodeLE(s[1..]);
      var v := DecodeLE(s);
      assert v % 256 == s[0] && v / 256 == DecodeLE(s[1..]);
      assert s == [s[0]] + s[1..];
    }
  }

  /** Re-encoding a decoded big-endian field gives back its bytes. */
  lemma {:induction false} EncodeDecodeBE(s: seq<Byte>)
    ensures EncodeBE(DecodeBE(s), |s|) == s
  {
    if s != [] {
      var init := s[..|s| - 1];
      EncodeDecodeBE(init);
      var v := DecodeBE(s);
      assert v % 256 == s[|s| - 1] && v / 256 == DecodeBE(init);
      assert s == init + [s[|s| - 1]];
    }
  }

  /** `struct.unpack` in the byte order `little` selects. */
  function Decode(s: seq<Byte>, little: bool): (v: nat)
    ensures v < Pow256(|s|)
  {
    if little then DecodeLE(s) else DecodeBE(s)
  }

  /** `struct.pack` of `v` into `w` bytes in the byte order `little` selects. */
  function Encode(v: nat, w: nat, little: bool): (s: seq<Byte>)
    requires v < Pow256(w)
    ensures |s| == w && Decode(s, little) == v
  {
    if little then EncodeLE(v, w) else EncodeBE(v, w)
  }

  /** Decoding loses nothing: a field is the encoding of its decoded value. */
  lemma EncodeDecode(s: seq<Byte>, little: bool)
    ensures Encode(Decode(s, little), |s|, little) == s
  {
    if little { EncodeDecodeLE(s); } else { EncodeDecodeBE(s); }
  }

  /** Two fields of one width decode to the same value only if they are equal. */
  lemma DecodeInjective(a: seq<Byte>, b: seq<Byte>, little: bool)
    requires |a| == |b| && Decode(a, little) == Decode(b, little)
    ensures a == b
  {
    EncodeDecode(a, little);
    EncodeDecode(b, little);
  }

  /** Two byte strings of one length that agree on `[lo, hi)` slice alike there. */
  lemma SliceAgree(a: seq<Byte>, b: seq<Byte>, lo: nat, hi: nat)
    requires |a| == |b|
    requires forall k :: lo <= k < hi && k < |a| ==> a[k] == b[k]
    ensures Slice(a, lo, hi) == Slice(b, lo, hi)
  {
  }
}
