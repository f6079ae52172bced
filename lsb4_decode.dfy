/** LSB4 extraction: one hidden nibble in bits 0-3 of every colour component. */
module Lsb4Decoder {
  import opened Bytes
  import opened Bits
  import opened Bitmap
  import opened StopRule

  /** Bits 0-3 of a component. */
  function LowNibble(c: byte): (n: byte)
    ensures n <= 0xF
  {
    c & 0xF
  }

  /** The decoder's accumulator once it has taken the high nibble of byte t
      out of component 2t. */
  function HighHalf(comps: seq<byte>, t: nat): byte
    requires 2 * t < |comps|
  {
    OrAt(0, LowNibble(comps[2 * t]), 4)
  }

  /** The byte stream LSB4 reads out of a grid: byte t takes bits 0-3 of
      component 2t as its high nibble and those of component 2t+1 as its low
      nibble. */
  function Lsb4Stream(comps: seq<byte>): (stream: seq<byte>)
    ensures |stream| == |comps| / 2
  {
    seq(|comps| / 2, t requires 0 <= t < |comps| / 2 => OrAt(HighHalf(comps, t), LowNibble(comps[2 * t + 1]), 0))
  }

  /** What the decoder knows between two components: `idx` components are
      in; after an odd number of them the high nibble of the next byte waits
      in `currentByte`. */
  ghost predicate Decoding(buffer: array<byte>, cs: seq<byte>, maxDataBytes: nat, encrypted: bool,
                           idx: nat, bufIdx: nat, bitIndex: nat, currentByte: byte, size: nat, stop: bool)
    reads buffer
  {
    && idx <= |cs| && maxDataBytes == |cs| / 2
    && (bitIndex == 0 ==> idx == 2 * bufIdx && currentByte == 0)
    && (bitIndex != 0 ==> bitIndex == 4 && idx == 2 * bufIdx + 1 && currentByte == HighHalf(cs, bufIdx))
    && Filling(buffer, Lsb4Stream(cs), maxDataBytes, encrypted, bufIdx, size, stop)
  }

  /** One pass of the innermost loop of `lsb4_decode`: bits 0-3 of component
      `idx` go into `currentByte` at bit `4 - bitIndex`, and a completed byte
      is stored and checked. */
  method TakeComponent(c: byte, buffer: array<byte>, maxDataBytes: nat, encrypted: bool, idx: nat,
                       bufIdx: nat, bitIndex: nat, currentByte: byte, size: nat, ghost cs: seq<byte>)
    returns (bufIdx': nat, bitIndex': nat, currentByte': byte, size': nat, stop: bool, tooLarge: bool)
    requires idx < |cs| && c == cs[idx] && buffer.Length == maxDataBytes
    requires Decoding(buffer, cs, maxDataBytes, encrypted, idx, bufIdx, bitIndex, currentByte, size, false)
    modifies buffer
    ensures tooLarge ==> Scan(Lsb4Stream(cs), maxDataBytes, encrypted) == Failed(TooLarge(size'))
    ensures !tooLarge ==> Decoding(buffer, cs, maxDataBytes, encrypted, idx + 1, bufIdx', bitIndex', currentByte', size', stop)
  {
    currentByte' := OrAt(currentByte, LowNibble(c), 4 - bitIndex);
    bitIndex' := bitIndex + 4;
    bufIdx', size', stop, tooLarge := bufIdx, size, false, false;
    if bitIndex' == 8 {
      assert currentByte' == Lsb4Stream(cs)[bufIdx];
      size', stop, tooLarge := StoreByte(buffer, bufIdx, currentByte', size, encrypted, maxDataBytes, Lsb4Stream(cs));
      bufIdx' := bufIdx + 1;
      currentByte' := 0;
      bitIndex' := 0;
    }
  }

  /** `lsb4_decode`: the buffer it fills and the size it reports are those of
      `Scan` on the LSB4 stream of the grid. */
  method Lsb4Decode(img: Image, encrypted: bool) returns (r: Decoded)
    requires img.Valid()
    ensures r == Scan(Lsb4Stream(img.pixels[..]), img.pixels.Length / 2, encrypted)
  {
    var comps := img.pixels;
    var total := ComponentCount(img.width, img.height);
    var maxDataBytes := total / 2;
    ghost var cs := comps[..];
    var buffer := new byte[maxDataBytes];
    var bufIdx: nat := 0;
    var currentByte: byte := 0;
    var bitIndex: nat := 0;
    var stop := false;
    var size: nat := 0;
    var idx: nat := 0;
    while idx < total && !stop
      invariant total == |cs| && buffer.Length == maxDataBytes
      invariant Decoding(buffer, cs, maxDataBytes, encrypted, idx, bufIdx, bitIndex, currentByte, size, stop)
    {
      var tooLarge;
      bufIdx, bitIndex, currentByte, size, stop, tooLarge :=
        TakeComponent(comps[idx], buffer, maxDataBytes, encrypted, idx, bufIdx, bitIndex, currentByte, size, cs);
      if tooLarge {
        return Failed(TooLarge(size));
      }
      idx := idx + 1;
    }
    r := Finish(buffer, bufIdx, size, stop, encrypted, maxDataBytes, Lsb4Stream(cs));
  }
}
