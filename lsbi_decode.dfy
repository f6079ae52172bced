/** LSBI extraction: a four-bit inversion map in bit 0 of components 0-3, then
    one hidden bit in bit 0 of every blue and green component, flipped when
    the map flag selected by the component's bits 1-2 is set. */
module LsbiDecoder {
  import opened Bytes
  import opened Bits
  import opened Bitmap
  import opened StopRule

  /** The map after bit 0 of components 0 .. j - 1 is in, the first of them
      in bit 3: `map_bits |= bit << (3 - bits_read)`. */
  function GatherMap(cs: seq<byte>, j: nat): byte
    requires j <= 4 && j <= |cs|
  {
    if j == 0 then 0 else OrAt(GatherMap(cs, j - 1), Lsb(cs[j - 1]), 4 - j)
  }

  /** The inversion map of a grid with at least four components. */
  function MapBits(cs: seq<byte>): byte
    requires 4 <= |cs|
  {
    GatherMap(cs, 4)
  }

  /** Flag p of the map, counted from its most significant bit. */
  function Inverted(mapBits: byte, p: nat): (f: byte)
    requires p < 4
    ensures f <= 1
  {
    (mapBits >> (3 - p)) & 1
  }

  /** The hidden bit a data component carries: its bit 0, flipped when the
      flag for its pattern is set. */
  function DataBit(mapBits: byte, c: byte): (b: byte)
    ensures b <= 1
  {
    Lsb(c) ^ Inverted(mapBits, Pattern(c))
  }

  /** Whether component idx is a red one, which carries no data. */
  predicate IsRed(idx: nat) {
    idx % 3 == 2
  }

  /** How many blue and green components lie in 4 .. n - 1: one hidden bit
      each, two of every three. */
  function BitCount(n: nat): nat
    requires 4 <= n
  {
    n - n / 3 - 3
  }

  /** The component hidden bit m sits in: the blue and green components from
      4 on, in order (4, 6, 7, 9, 10, ...). */
  function DataIndex(m: nat): nat {
    4 + m + (m + 1) / 2
  }

  /** `DataIndex` enumerates exactly the components that carry a bit: each
      blue or green component from 4 on is the next one after those before
      it, and a red one adds none. */
  lemma CountStep(idx: nat)
    requires 4 <= idx
    ensures IsRed(idx) ==> BitCount(idx + 1) == BitCount(idx)
    ensures !IsRed(idx) ==> BitCount(idx + 1) == BitCount(idx) + 1 && DataIndex(BitCount(idx)) == idx
  {
  }

  /** The bits of a grid of n components all sit inside it. */
  lemma DataIndexBound(m: nat, n: nat)
    requires 4 <= n && m < BitCount(n)
    ensures DataIndex(m) < n
  {
  }

  /** All hidden bits of a grid, red components skipped: 2 of every 3
      components from 4 on. */
  function DataBits(cs: seq<byte>, mapBits: byte): (bits: seq<byte>)
    requires 4 <= |cs|
    ensures |bits| == BitCount(|cs|)
  {
    seq(BitCount(|cs|), m requires 0 <= m < BitCount(|cs|) =>
      DataIndexBound(m, |cs|);
      DataBit(mapBits, cs[DataIndex(m)]))
  }

  /** The byte stream LSBI reads: byte t gathers hidden bits 8t .. 8t+7. */
  function LsbiStream(cs: seq<byte>, mapBits: byte): (stream: seq<byte>)
    requires 4 <= |cs|
    ensures |stream| == BitCount(|cs|) / 8
  {
    Packed(DataBits(cs, mapBits))
  }

  /** The capacity `lsbi_decode` allocates: two bits per pixel. */
  function MaxDataBytes(width: nat, height: nat): nat {
    (width * height * 2) / 8
  }

  /** The stream never outgrows the buffer: a grid has 2wh - 3 hidden bits. */
  lemma StreamFits(width: nat, height: nat, cs: seq<byte>, mapBits: byte)
    requires |cs| == ComponentCount(width, height) && 4 <= |cs|
    ensures |LsbiStream(cs, mapBits)| <= MaxDataBytes(width, height)
    ensures |DataBits(cs, mapBits)| == 2 * (width * height) - 3
  {
    var wh := width * height;
    assert |cs| == 3 * wh;
  }

  /** What `lsbi_decode` returns for a grid: NULL without room for the map,
      otherwise the outcome of `Scan` on the hidden stream. */
  function LsbiExtract(cs: seq<byte>, maxDataBytes: nat, encrypted: bool): (r: Decoded)
    ensures r == Failed(NoMap) <==> |cs| < 4
  {
    if |cs| < 4 then Failed(NoMap) else Scan(LsbiStream(cs, MapBits(cs)), maxDataBytes, encrypted)
  }

  /** What the data loop knows between two components: `idx` components are
      in and their hidden bits are the first ones of the grid. */
  ghost predicate Decoding(buffer: array<byte>, cs: seq<byte>, mapBits: byte, maxDataBytes: nat, encrypted: bool,
                           idx: nat, bufIdx: nat, bitIndex: nat, currentByte: byte, size: nat, stop: bool)
    reads buffer
  {
    && 4 <= idx <= |cs| && BitCount(idx) == 8 * bufIdx + bitIndex
    && Packing(buffer, DataBits(cs, mapBits), maxDataBytes, encrypted, bufIdx, bitIndex, currentByte, size, stop)
  }

  /** A blue or green component holds the next hidden bit of the grid. */
  lemma BitAt(cs: seq<byte>, mapBits: byte, idx: nat)
    requires 4 <= idx < |cs| && !IsRed(idx)
    ensures BitCount(idx + 1) == BitCount(idx) + 1 <= BitCount(|cs|)
    ensures DataBits(cs, mapBits)[BitCount(idx)] == DataBit(mapBits, cs[idx])
  {
    CountStep(idx);
    MonotoneCount(idx + 1, |cs|);
  }

  /** Fewer components carry no more bits. */
  lemma MonotoneCount(a: nat, b: nat)
    requires 4 <= a <= b
    ensures BitCount(a) <= BitCount(b)
  {
  }

  /** A red component changes nothing but the position. */
  lemma SkipRed(buffer: array<byte>, cs: seq<byte>, mapBits: byte, maxDataBytes: nat, encrypted: bool,
                idx: nat, bufIdx: nat, bitIndex: nat, currentByte: byte, size: nat)
    requires idx < |cs| && IsRed(idx)
    requires Decoding(buffer, cs, mapBits, maxDataBytes, encrypted, idx, bufIdx, bitIndex, currentByte, size, false)
    ensures Decoding(buffer, cs, mapBits, maxDataBytes, encrypted, idx + 1, bufIdx, bitIndex, currentByte, size, false)
  {
    CountStep(idx);
  }

  /** When the data loop ends without stopping, every complete byte of the
      stream is in the buffer. */
  lemma AllTaken(buffer: array<byte>, cs: seq<byte>, mapBits: byte, maxDataBytes: nat, encrypted: bool,
                 idx: nat, bufIdx: nat, bitIndex: nat, currentByte: byte, size: nat, stop: bool)
    requires Decoding(buffer, cs, mapBits, maxDataBytes, encrypted, idx, bufIdx, bitIndex, currentByte, size, stop)
    requires !stop ==> idx == |cs|
    ensures Filling(buffer, LsbiStream(cs, mapBits), maxDataBytes, encrypted, bufIdx, size, stop)
    ensures !stop ==> bufIdx == |LsbiStream(cs, mapBits)|
  {
  }

  /** One pass of the data loop of `lsbi_decode` over a blue or green
      component: its hidden bit goes into `currentByte`, and a completed
      byte is stored and checked. */
  method TakeComponent(c: byte, buffer: array<byte>, mapBits: byte, maxDataBytes: nat, encrypted: bool, idx: nat,
                       bufIdx: nat, bitIndex: nat, currentByte: byte, size: nat, ghost cs: seq<byte>)
    returns (bufIdx': nat, bitIndex': nat, currentByte': byte, size': nat, stop: bool, tooLarge: bool)
    requires idx < |cs| && c == cs[idx] && !IsRed(idx) && buffer.Length == maxDataBytes
    requires Decoding(buffer, cs, mapBits, maxDataBytes, encrypted, idx, bufIdx, bitIndex, currentByte, size, false)
    modifies buffer
    ensures tooLarge ==> Scan(LsbiStream(cs, mapBits), maxDataBytes, encrypted) == Failed(TooLarge(size'))
    ensures !tooLarge ==> Decoding(buffer, cs, mapBits, maxDataBytes, encrypted, idx + 1, bufIdx', bitIndex', currentByte', size', stop)
  {
    var pattern := Pattern(c);
    var inverted := Inverted(mapBits, pattern);
    var bit := c & 1;
    if inverted != 0 {
      bit := bit ^ 1;
    }
    assert bit == DataBit(mapBits, c);
    BitAt(cs, mapBits, idx);
    bufIdx', bitIndex', currentByte', size', stop, tooLarge :=
      TakeBit(bit, buffer, maxDataBytes, encrypted, bufIdx, bitIndex, currentByte, size, DataBits(cs, mapBits));
  }

  /** The map loop of `lsbi_decode`: bit 0 of the first four components, the
      first in bit 3; fewer than four are read only when the grid has fewer. */
  method ReadMap(img: Image) returns (mapBits: byte, bitsRead: nat)
    requires img.Valid()
    ensures bitsRead == if img.pixels.Length < 4 then img.pixels.Length else 4
    ensures bitsRead == 4 ==> mapBits == MapBits(img.pixels[..])
  {
    var total := ComponentCount(img.width, img.height);
    ghost var cs := img.pixels[..];
    mapBits, bitsRead := 0, 0;
    var idx: nat := 0;
    while bitsRead < 4 && idx < total
      invariant idx == bitsRead <= 4 && idx <= total == |cs|
      invariant mapBits == GatherMap(cs, bitsRead)
    {
      RowMajor(img.width, img.height, idx);
      var i, j, k := Row(img.width, idx), Column(img.width, idx), Colour(img.width, idx);
      if i >= img.height || j >= img.width {
        break;
      }
      var bit := img.pixels[ComponentIndex(img.width, i, j, k)] & 1;
      mapBits := mapBits | (bit << (3 - bitsRead));
      bitsRead := bitsRead + 1;
      idx := idx + 1;
    }
  }

  /** `lsbi_decode`: NULL when there is no room for the map, otherwise the
      buffer it fills and the size it reports are those of `Scan` on the
      hidden stream, with two bits per pixel of capacity. */
  method LsbiDecode(img: Image, encrypted: bool) returns (r: Decoded)
    requires img.Valid()
    ensures r == LsbiExtract(img.pixels[..], MaxDataBytes(img.width, img.height), encrypted)
  {
    var width, height := img.width, img.height;
    var total := ComponentCount(width, height);
    var maxDataBytes := MaxDataBytes(width, height);
    ghost var cs := img.pixels[..];
    var buffer := new byte[maxDataBytes];
    var mapBits, bitsRead := ReadMap(img);
    if bitsRead < 4 {
      return Failed(NoMap);
    }
    StreamFits(width, height, cs, mapBits);
    var idx: nat := 4;
    var bufIdx: nat := 0;
    var currentByte: byte := 0;
    var bitIndex: nat := 0;
    var stop := false;
    var size: nat := 0;
    while idx < total && !stop
      invariant total == |cs| && buffer.Length == maxDataBytes
      invariant Decoding(buffer, cs, mapBits, maxDataBytes, encrypted, idx, bufIdx, bitIndex, currentByte, size, stop)
    {
      if IsRed(idx) {
        SkipRed(buffer, cs, mapBits, maxDataBytes, encrypted, idx, bufIdx, bitIndex, currentByte, size);
        idx := idx + 1;
        continue;
      }
      RowMajor(width, height, idx);
      var i, j, k := Row(width, idx), Column(width, idx), Colour(width, idx);
      if i >= height || j >= width {
        break;
      }
      var tooLarge;
      bufIdx, bitIndex, currentByte, size, stop, tooLarge :=
        TakeComponent(img.pixels[ComponentIndex(width, i, j, k)], buffer, mapBits, maxDataBytes, encrypted, idx,
                      bufIdx, bitIndex, currentByte, size, cs);
      if tooLarge {
        return Failed(TooLarge(size));
      }
      idx := idx + 1;
    }
    AllTaken(buffer, cs, mapBits, maxDataBytes, encrypted, idx, bufIdx, bitIndex, currentByte, size, stop);
    r := Finish(buffer, bufIdx, size, stop, encrypted, maxDataBytes, LsbiStream(cs, mapBits));
  }
}
