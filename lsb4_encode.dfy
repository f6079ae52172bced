/** LSB4 embedding: message nibble v, high nibble of each byte first,
    replaces bits 0-3 of colour component v, in row-major blue, green, red
    order. */
module Lsb4Encoder {
  import opened Bytes
  import opened Bits
  import opened Bitmap
  import opened Lsb4Decoder

  /** The components after LSB4 embedding: the first 2 * |data| components
      carry the message in bits 0-3, and nothing else changes. */
  function Lsb4Embedded(comps: seq<byte>, data: seq<byte>): (r: seq<byte>)
    requires 2 * |data| <= |comps|
    ensures |r| == |comps|
    ensures forall i :: 0 <= i < |comps| ==> r[i] & 0xF0 == comps[i] & 0xF0
    ensures forall i :: 2 * |data| <= i < |comps| ==> r[i] == comps[i]
  {
    seq(|comps|, i requires 0 <= i < |comps| =>
      if i < 2 * |data| then SetLowNibble(comps[i], MessageNibble(data, i)) else comps[i])
  }

  /** The capacity check: `dataSize * 8 > biHeight * biWidth * 3 * 4`, the
      product taken in 32-bit unsigned arithmetic. */
  predicate Lsb4TooLarge(width: nat, height: nat, dataSize: nat) {
    dataSize * 8 > Trunc32(height * width * 3 * 4)
  }

  /** A message that passes the check fits in the grid. */
  lemma Lsb4Fits(width: nat, height: nat, dataSize: nat)
    requires !Lsb4TooLarge(width, height, dataSize)
    ensures 2 * dataSize <= ComponentCount(width, height)
  {
    assert height * width * 3 * 4 == 4 * ComponentCount(width, height);
  }

  /** The first `idx` components carry message nibbles 0 .. idx - 1; the rest are untouched. */
  ghost predicate EmbeddedUpTo(s: seq<byte>, comps: seq<byte>, data: seq<byte>, idx: nat)
  {
    && |s| == |comps| && idx <= 2 * |data| <= |comps|
    && (forall i :: 0 <= i < idx ==> s[i] == SetLowNibble(comps[i], MessageNibble(data, i)))
    && (forall i :: idx <= i < |comps| ==> s[i] == comps[i])
  }

  /** Nibble `nibbleIndex` of byte `dataIndex`, counted from the least
      significant, is the message nibble the encoder's counters point at. */
  lemma MessageNibbleAt(data: seq<byte>, dataIndex: nat, nibbleIndex: nat)
    requires dataIndex < |data| && nibbleIndex <= 1
    ensures (data[dataIndex] >> (nibbleIndex * 4)) & 0xF == MessageNibble(data, 2 * dataIndex + (1 - nibbleIndex))
  {
    var v := 2 * dataIndex + (1 - nibbleIndex);
    assert v / 2 == dataIndex && v % 2 == 1 - nibbleIndex;
  }

  /** Writing nibble idx into component idx extends the embedded prefix by one. */
  lemma EmbedOne(s: seq<byte>, comps: seq<byte>, data: seq<byte>, idx: nat, c: byte)
    requires EmbeddedUpTo(s, comps, data, idx) && idx < 2 * |data|
    requires c == (s[idx] & 0xF0) | MessageNibble(data, idx)
    ensures EmbeddedUpTo(s[idx := c], comps, data, idx + 1)
  {
    assert c == SetLowNibble(comps[idx], MessageNibble(data, idx));
  }

  /** A grid whose whole message prefix is written is the embedding. */
  lemma EmbeddedAll(s: seq<byte>, comps: seq<byte>, data: seq<byte>)
    requires EmbeddedUpTo(s, comps, data, 2 * |data|)
    ensures s == Lsb4Embedded(comps, data)
  {
  }

  /** `lsb4_encode` in src/core/embedding/lsb4_encode.c (and its copy in
      src/core/embed.c): a message that is too large leaves the grid
      untouched; otherwise the message is embedded. */
  method Lsb4Encode(img: Image, data: seq<byte>)
    requires img.Valid()
    modifies img.pixels
    ensures Lsb4TooLarge(img.width, img.height, |data|) ==> img.pixels[..] == old(img.pixels[..])
    ensures !Lsb4TooLarge(img.width, img.height, |data|) ==>
      2 * |data| <= img.pixels.Length && img.pixels[..] == Lsb4Embedded(old(img.pixels[..]), data)
  {
    var totalNibbles := |data| * 2;
    var maxBits := Trunc32(img.height * img.width * 3 * 4);
    var totalBits := |data| * 8;
    if totalBits > maxBits {
      return;
    }
    Lsb4Fits(img.width, img.height, |data|);
    var comps := img.pixels;
    var total := ComponentCount(img.width, img.height);
    ghost var original := comps[..];
    var dataIndex: nat := 0;
    var nibbleIndex: nat := 1;
    var nibbleCount: nat := 0;
    var idx: nat := 0;
    while idx < total && nibbleCount < totalNibbles
      invariant total == comps.Length && totalNibbles <= total
      invariant nibbleCount == idx <= totalNibbles && nibbleIndex <= 1 && nibbleCount == 2 * dataIndex + (1 - nibbleIndex)
      invariant EmbeddedUpTo(comps[..], original, data, idx)
    {
      var nibble := (data[dataIndex] >> (nibbleIndex * 4)) & 0xF;
      MessageNibbleAt(data, dataIndex, nibbleIndex);
      EmbedOne(comps[..], original, data, idx, (comps[idx] & 0xF0) | nibble);
      comps[idx] := (comps[idx] & 0xF0) | nibble;
      if nibbleIndex == 0 {
        nibbleIndex := 1;
        dataIndex := dataIndex + 1;
      } else {
        nibbleIndex := 0;
      }
      nibbleCount := nibbleCount + 1;
      idx := idx + 1;
    }
    // The "Not all data was embedded" branch cannot be taken.
    assert nibbleCount == totalNibbles;
    EmbeddedAll(comps[..], original, data);
  }

  /** Byte t of the stream of an embedded grid is byte t of the message. */
  lemma Lsb4ByteRoundTrip(comps: seq<byte>, data: seq<byte>, t: nat)
    requires 2 * |data| <= |comps| && t < |data|
    ensures t < |Lsb4Stream(Lsb4Embedded(comps, data))| && Lsb4Stream(Lsb4Embedded(comps, data))[t] == data[t]
  {
    var embedded := Lsb4Embedded(comps, data);
    var hi, lo := MessageNibble(data, 2 * t), MessageNibble(data, 2 * t + 1);
    MessageNibbleAt(data, t, 1);
    MessageNibbleAt(data, t, 0);
    assert LowNibble(embedded[2 * t]) == hi;
    assert LowNibble(embedded[2 * t + 1]) == lo;
    NibblesOfByte(data[t], hi, lo);
  }

  /** LSB4 extraction reads back what LSB4 embedding wrote: the stream of an
      embedded grid begins with the message. */
  lemma Lsb4RoundTrip(comps: seq<byte>, data: seq<byte>)
    requires 2 * |data| <= |comps|
    ensures |data| <= |Lsb4Stream(Lsb4Embedded(comps, data))|
    ensures Lsb4Stream(Lsb4Embedded(comps, data))[..|data|] == data
  {
    var stream := Lsb4Stream(Lsb4Embedded(comps, data));
    forall t | 0 <= t < |data|
      ensures stream[t] == data[t]
    {
      Lsb4ByteRoundTrip(comps, data, t);
    }
  }
}
