/** LSB1 embedding: message bit m, most significant bit of each byte first,
    replaces bit 0 of colour component m, in row-major blue, green, red order. */
module Lsb1Encoder {
  import opened Bytes
  import opened Bits
  import opened Bitmap
  import opened Lsb1Decoder

  /** The components after LSB1 embedding: the first 8 * |data| components
      carry the message in bit 0, and nothing else changes. */
  function Lsb1Embedded(comps: seq<byte>, data: seq<byte>): (r: seq<byte>)
    requires 8 * |data| <= |comps|
    ensures |r| == |comps|
    ensures forall i :: 0 <= i < |comps| ==> r[i] & 0xFE == comps[i] & 0xFE
    ensures forall i :: 8 * |data| <= i < |comps| ==> r[i] == comps[i]
  {
    seq(|comps|, i requires 0 <= i < |comps| =>
      if i < 8 * |data| then SetLsb(comps[i], MessageBit(data, i)) else comps[i])
  }

  /** The capacity check: `dataSize * 8 > biHeight * biWidth * 3`, the
      product taken in 32-bit unsigned arithmetic. */
  predicate Lsb1TooLarge(width: nat, height: nat, dataSize: nat) {
    dataSize * 8 > Trunc32(height * width * 3)
  }

  /** A message that passes the check fits in the grid. */
  lemma Lsb1Fits(width: nat, height: nat, dataSize: nat)
    requires !Lsb1TooLarge(width, height, dataSize)
    ensures 8 * dataSize <= ComponentCount(width, height)
  {
    assert height * width * 3 == ComponentCount(width, height);
  }

  /** `lsb1_encode` in src/core/embedding/lsb1_encode.c: -1 with the grid
      untouched when the message is too large, otherwise 0 with the message
      embedded. */
  method Lsb1Encode(img: Image, data: seq<byte>) returns (status: int)
    requires img.Valid()
    modifies img.pixels
    ensures status == -1 <==> Lsb1TooLarge(img.width, img.height, |data|)
    ensures status == -1 || status == 0
    ensures status == -1 ==> img.pixels[..] == old(img.pixels[..])
    ensures status == 0 ==> 8 * |data| <= img.pixels.Length && img.pixels[..] == Lsb1Embedded(old(img.pixels[..]), data)
  {
    var totalBits := |data| * 8;
    var maxBits := Trunc32(img.height * img.width * 3);
    if totalBits > maxBits {
      return -1;
    }
    Lsb1Fits(img.width, img.height, |data|);
    var comps := img.pixels;
    var total := ComponentCount(img.width, img.height);
    ghost var original := comps[..];
    var dataIndex: nat := 0;
    var bitIndex: nat := 7;
    var bitCount: nat := 0;
    var idx: nat := 0;
    while idx < total && bitCount < totalBits
      invariant total == comps.Length && totalBits <= total
      invariant bitCount == idx <= totalBits && bitIndex <= 7 && bitCount == 8 * dataIndex + (7 - bitIndex)
      invariant EmbeddedUpTo(comps[..], original, data, idx)
    {
      var bit := (data[dataIndex] >> bitIndex) & 1;
      MessageBitAt(data, dataIndex, bitIndex);
      EmbedOne(comps[..], original, data, idx, (comps[idx] & 0xFE) | bit);
      comps[idx] := (comps[idx] & 0xFE) | bit;
      if bitIndex == 0 {
        bitIndex := 7;
        dataIndex := dataIndex + 1;
      } else {
        bitIndex := bitIndex - 1;
      }
      bitCount := bitCount + 1;
      idx := idx + 1;
    }
    // The "Not all data was embedded" branch cannot be taken.
    assert bitCount == totalBits;
    EmbeddedAll(comps[..], original, data);
    return 0;
  }

  /** The first `idx` components carry message bits 0 .. idx - 1; the rest are untouched. */
  ghost predicate EmbeddedUpTo(s: seq<byte>, comps: seq<byte>, data: seq<byte>, idx: nat)
  {
    && |s| == |comps| && idx <= 8 * |data| <= |comps|
    && (forall i :: 0 <= i < idx ==> s[i] == SetLsb(comps[i], MessageBit(data, i)))
    && (forall i :: idx <= i < |comps| ==> s[i] == comps[i])
  }

  /** Writing bit idx into component idx extends the embedded prefix by one. */
  lemma EmbedOne(s: seq<byte>, comps: seq<byte>, data: seq<byte>, idx: nat, c: byte)
    requires EmbeddedUpTo(s, comps, data, idx) && idx < 8 * |data|
    requires c == (s[idx] & 0xFE) | MessageBit(data, idx)
    ensures EmbeddedUpTo(s[idx := c], comps, data, idx + 1)
  {
    assert c == SetLsb(comps[idx], MessageBit(data, idx));
  }

  /** A grid whose whole message prefix is written is the embedding. */
  lemma EmbeddedAll(s: seq<byte>, comps: seq<byte>, data: seq<byte>)
    requires EmbeddedUpTo(s, comps, data, 8 * |data|)
    ensures s == Lsb1Embedded(comps, data)
  {
  }

  /** Byte t of the stream of an embedded grid is byte t of the message. */
  lemma Lsb1ByteRoundTrip(comps: seq<byte>, data: seq<byte>, t: nat)
    requires 8 * |data| <= |comps| && t < |data|
    ensures t < |Lsb1Stream(Lsb1Embedded(comps, data))| && Lsb1Stream(Lsb1Embedded(comps, data))[t] == data[t]
  {
    var bits := Lsbs(Lsb1Embedded(comps, data));
    forall k | 0 <= k < 8
      ensures bits[8 * t + k] == MsbBit(data[t], k)
    {
      MessageBitOfByte(data, t, k);
    }
    GatherMsbBits(bits, 8 * t, data[t]);
  }

  /** LSB1 extraction reads back what LSB1 embedding wrote: the stream of an
      embedded grid begins with the message. */
  lemma Lsb1RoundTrip(comps: seq<byte>, data: seq<byte>)
    requires 8 * |data| <= |comps|
    ensures |data| <= |Lsb1Stream(Lsb1Embedded(comps, data))|
    ensures Lsb1Stream(Lsb1Embedded(comps, data))[..|data|] == data
  {
    var stream := Lsb1Stream(Lsb1Embedded(comps, data));
    forall t | 0 <= t < |data|
      ensures stream[t] == data[t]
    {
      Lsb1ByteRoundTrip(comps, data, t);
    }
  }
}
