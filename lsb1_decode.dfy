/** LSB1 extraction: one hidden bit in bit 0 of every colour component. */
module Lsb1Decoder {
  import opened Bytes
  import opened Bits
  import opened Bitmap
  import opened StopRule

  /** Bit 0 of every component, in order: the hidden bits. */
  function Lsbs(comps: seq<byte>): (bits: seq<byte>)
    ensures |bits| == |comps|
  {
    seq(|comps|, i requires 0 <= i < |comps| => Lsb(comps[i]))
  }

  /** The byte stream LSB1 reads out of a grid: byte t gathers bit 0 of
      components 8t .. 8t+7, the first of them into bit 7. */
  function Lsb1Stream(comps: seq<byte>): (stream: seq<byte>)
    ensures |stream| == |comps| / 8
  {
    Packed(Lsbs(comps))
  }

  /** What the decoder knows between two components: `idx` components are
      in, the last `bitIndex` of them in `currentByte`, the rest in the
      buffer. */
  ghost predicate Decoding(buffer: array<byte>, cs: seq<byte>, maxDataBytes: nat, encrypted: bool,
                           idx: nat, bufIdx: nat, bitIndex: nat, currentByte: byte, size: nat, stop: bool)
    reads buffer
  {
    && idx <= |cs| && idx == 8 * bufIdx + bitIndex && maxDataBytes == |cs| / 8
    && Packing(buffer, Lsbs(cs), maxDataBytes, encrypted, bufIdx, bitIndex, currentByte, size, stop)
  }

  /** `lsb1_decode`: the buffer it fills and the size it reports are those of
      `Scan` on the LSB1 stream of the grid. */
  method Lsb1Decode(img: Image, encrypted: bool) returns (r: Decoded)
    requires img.Valid()
    ensures r == Scan(Lsb1Stream(img.pixels[..]), img.pixels.Length / 8, encrypted)
  {
    var comps := img.pixels;
    var total := ComponentCount(img.width, img.height);
    var maxDataBytes := total / 8;
    ghost var cs := comps[..];
    var buffer := new byte[maxDataBytes];
    var bufIdx: nat := 0;
    var currentByte: byte := 0;
    var bitIndex: nat := 0;
    var stop := false;
    var size: nat := 0;
    var idx: nat := 0;
    while idx < total && !stop
      invariant total == |cs| && buffer.Length == maxDataBytes
      invariant Decoding(buffer, cs, maxDataBytes, encrypted, idx, bufIdx, bitIndex, currentByte, size, stop)
    {
      var tooLarge;
      bufIdx, bitIndex, currentByte, size, stop, tooLarge :=
        TakeBit(comps[idx] & 1, buffer, maxDataBytes, encrypted, bufIdx, bitIndex, currentByte, size, Lsbs(cs));
      if tooLarge {
        return Failed(TooLarge(size));
      }
      idx := idx + 1;
    }
    r := Finish(buffer, bufIdx, size, stop, encrypted, maxDataBytes, Lsb1Stream(cs));
  }
}
