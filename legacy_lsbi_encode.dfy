/** The map-based LSBI embedding of `lsbi_encode` in src/core/embed.c: a
    four-bit inversion map in bit 0 of components 0-3, then message bit m in
    bit 0 of the m-th blue or green component from 4 on, flipped when the map
    flag selected by that component's bits 1-2 is set. It is the embedding
    `lsbi_decode` inverts. */
module LegacyLsbiEncoder {
  import opened Bytes
  import opened Bits
  import opened Bitmap
  import opened LsbiDecoder

  /** Component i after embedding with inversion map `mapBits`. */
  function MapComponent(comps: seq<byte>, data: seq<byte>, mapBits: byte, i: nat): byte
    requires i < |comps|
  {
    if i < 4 then SetLsb(comps[i], Inverted(mapBits, i))
    else if !IsRed(i) && BitCount(i) < 8 * |data| then
      SetLsb(comps[i], MessageBit(data, BitCount(i)) ^ Inverted(mapBits, Pattern(comps[i])))
    else comps[i]
  }

  /** The components after embedding `data` under inversion map `mapBits`. */
  function MapEmbedded(comps: seq<byte>, data: seq<byte>, mapBits: byte): (r: seq<byte>)
    ensures |r| == |comps|
  {
    seq(|comps|, i requires 0 <= i < |comps| => MapComponent(comps, data, mapBits, i))
  }

  /** Embedding changes bit 0 only, keeps every pattern, and leaves alone
      the red components from 4 on and the components past the last message bit. */
  lemma MapEmbeddedKeeps(comps: seq<byte>, data: seq<byte>, mapBits: byte, i: nat)
    requires i < |comps|
    ensures MapEmbedded(comps, data, mapBits)[i] & 0xFE == comps[i] & 0xFE
    ensures Pattern(MapEmbedded(comps, data, mapBits)[i]) == Pattern(comps[i])
    ensures 4 <= i && (IsRed(i) || 8 * |data| <= BitCount(i)) ==> MapEmbedded(comps, data, mapBits)[i] == comps[i]
  {
    var r := MapEmbedded(comps, data, mapBits)[i];
    if i < 4 {
      SetLsbKeepsPattern(comps[i], Inverted(mapBits, i));
    } else if !IsRed(i) && BitCount(i) < 8 * |data| {
      SetLsbKeepsPattern(comps[i], MessageBit(data, BitCount(i)) ^ Inverted(mapBits, Pattern(comps[i])));
    }
  }

  /** The capacity check: `dataSize + 4 > (width * height * 2) / 8`. */
  predicate MapTooLarge(width: nat, height: nat, dataSize: nat) {
    dataSize + 4 > MaxDataBytes(width, height)
  }

  /** A message that passes the check leaves room for the map and all its bits. */
  lemma MapFits(width: nat, height: nat, dataSize: nat)
    requires !MapTooLarge(width, height, dataSize)
    ensures 4 <= ComponentCount(width, height) && 8 * dataSize <= BitCount(ComponentCount(width, height))
  {
    var wh := width * height;
    assert ComponentCount(width, height) == 3 * wh;
  }

  /** Components 0 .. idx - 1 are embedded, the rest untouched. */
  ghost predicate EmbeddedUpTo(s: seq<byte>, comps: seq<byte>, data: seq<byte>, mapBits: byte, idx: nat)
  {
    && |s| == |comps| && idx <= |comps|
    && (forall i :: 0 <= i < idx ==> s[i] == MapComponent(comps, data, mapBits, i))
    && (forall i :: idx <= i < |comps| ==> s[i] == comps[i])
  }

  /** Writing bit 0 of component idx extends the embedded prefix by one. */
  lemma EmbedOne(s: seq<byte>, comps: seq<byte>, data: seq<byte>, mapBits: byte, idx: nat, c: byte)
    requires EmbeddedUpTo(s, comps, data, mapBits, idx) && idx < |comps|
    requires c == MapComponent(comps, data, mapBits, idx)
    ensures EmbeddedUpTo(s[idx := c], comps, data, mapBits, idx + 1)
  {
  }

  /** A prefix after which nothing changes is the whole embedding. */
  lemma EmbeddedAll(s: seq<byte>, comps: seq<byte>, data: seq<byte>, mapBits: byte, idx: nat)
    requires EmbeddedUpTo(s, comps, data, mapBits, idx) && 4 <= idx
    requires idx == |comps| || 8 * |data| <= BitCount(idx)
    ensures s == MapEmbedded(comps, data, mapBits)
  {
    forall i | idx <= i < |comps|
      ensures MapComponent(comps, data, mapBits, i) == comps[i]
    {
      MonotoneCount(idx, i);
    }
  }

  /** The map loop of `lsbi_encode`: bit 3 - idx of the map into bit 0 of
      component idx, for idx = 0 .. 3. */
  method EmbedMap(img: Image, mapBits: byte, ghost data: seq<byte>) returns (idx: nat)
    requires img.Valid() && 4 <= img.pixels.Length
    modifies img.pixels
    ensures idx == 4 && EmbeddedUpTo(img.pixels[..], old(img.pixels[..]), data, mapBits, 4)
  {
    var width, height := img.width, img.height;
    var totalComponents := ComponentCount(width, height);
    var comps := img.pixels;
    ghost var original := comps[..];
    var bitsWritten: nat := 0;
    idx := 0;
    while bitsWritten < 4 && idx < totalComponents
      invariant idx == bitsWritten <= 4 <= totalComponents == comps.Length
      invariant EmbeddedUpTo(comps[..], original, data, mapBits, idx)
    {
      RowMajor(width, height, idx);
      var i, j, k := Row(width, idx), Column(width, idx), Colour(width, idx);
      if i >= height || j >= width {
        break;
      }
      var pos := ComponentIndex(width, i, j, k);
      var bit := (mapBits >> (3 - bitsWritten)) & 1;
      EmbedOne(comps[..], original, data, mapBits, idx, (comps[pos] & 0xFE) | bit);
      comps[pos] := (comps[pos] & 0xFE) | bit;
      bitsWritten := bitsWritten + 1;
      idx := idx + 1;
    }
  }

  /** The bit the data loop writes into a component of value `colorValue`:
      message bit 8 * dataIndex + bitIndex, flipped when the flag for the
      component's pattern is set. */
  method HiddenBit(colorValue: byte, mapBits: byte, data: seq<byte>, dataIndex: nat, bitIndex: nat) returns (bit: byte)
    requires dataIndex < |data| && bitIndex < 8
    ensures bit <= 1 && bit == MessageBit(data, 8 * dataIndex + bitIndex) ^ Inverted(mapBits, Pattern(colorValue))
  {
    var pattern := Pattern(colorValue);
    var inverted := Inverted(mapBits, pattern);
    bit := (data[dataIndex] >> (7 - bitIndex)) & 1;
    MessageBitOfByte(data, dataIndex, bitIndex);
    if inverted != 0 {
      bit := bit ^ 1;
    }
  }

  /** One pass of the data loop on a blue or green component: the message
      bit at `bitIndex` of byte `dataIndex`, flipped when the flag for the
      component's pattern is set, into bit 0. */
  method EmbedHiddenBit(comps: array<byte>, data: seq<byte>, mapBits: byte, idx: nat,
                        dataIndex: nat, bitIndex: nat, ghost original: seq<byte>)
    requires 4 <= idx < comps.Length == |original| && !IsRed(idx) && comps[idx] == original[idx]
    requires bitIndex < 8 && BitCount(idx) == 8 * dataIndex + bitIndex < 8 * |data|
    modifies comps
    ensures comps[..] == old(comps[..])[idx := MapComponent(original, data, mapBits, idx)]
  {
    var bit := HiddenBit(comps[idx], mapBits, data, dataIndex, bitIndex);
    comps[idx] := (comps[idx] & 0xFE) | bit;
  }

  /** The counter update after a data component: one bit further on,
      possibly into the next byte; `stop` once the last byte is done. */
  method NextBit(dataSize: nat, dataIndex: nat, bitIndex: nat, ghost count: nat)
    returns (dataIndex': nat, bitIndex': nat, stop: bool)
    requires bitIndex < 8 && count == 8 * dataIndex + bitIndex < 8 * dataSize
    ensures stop <==> count + 1 == 8 * dataSize
    ensures bitIndex' < 8 && count + 1 == 8 * dataIndex' + bitIndex'
  {
    dataIndex', bitIndex', stop := dataIndex, bitIndex + 1, false;
    if bitIndex' == 8 {
      dataIndex' := dataIndex' + 1;
      bitIndex' := 0;
      if dataIndex' >= dataSize {
        stop := true;
      }
    }
  }

  /** `lsbi_encode` in src/core/embed.c: a message that is too large leaves
      the grid untouched; otherwise the map (the constant 0) and the message
      are embedded. The data loop reads `data[dataIndex]` from component 4
      on and stops only after `8 * dataSize` bits, so an empty message that
      passes the check is read at `data[0]` out of bounds; the caller must
      supply at least one byte. */
  method LsbiMapEncode(img: Image, data: seq<byte>)
    requires img.Valid()
    requires |data| >= 1 || MapTooLarge(img.width, img.height, |data|)
    modifies img.pixels
    ensures MapTooLarge(img.width, img.height, |data|) ==> img.pixels[..] == old(img.pixels[..])
    ensures !MapTooLarge(img.width, img.height, |data|) ==>
      && 4 <= img.pixels.Length && 8 * |data| <= BitCount(img.pixels.Length)
      && img.pixels[..] == MapEmbedded(old(img.pixels[..]), data, 0)
  {
    var width, height := img.width, img.height;
    var totalComponents := ComponentCount(width, height);
    var maxDataBytes := MaxDataBytes(width, height);
    if |data| + 4 > maxDataBytes {
      return;
    }
    MapFits(width, height, |data|);
    var comps := img.pixels;
    ghost var original := comps[..];
    var mapBits: byte := 0;
    var idx := EmbedMap(img, mapBits, data);
    var dataIndex: nat := 0;
    var bitIndex: nat := 0;
    var twoBitsCount: nat := 0;
    var stop := false;
    while idx < totalComponents && !stop
      invariant 4 <= idx <= totalComponents == comps.Length
      invariant bitIndex < 8 && twoBitsCount == BitCount(idx) == 8 * dataIndex + bitIndex
      invariant stop <==> twoBitsCount == 8 * |data|
      invariant twoBitsCount <= 8 * |data|
      invariant EmbeddedUpTo(comps[..], original, data, mapBits, idx)
    {
      CountStep(idx);
      if idx % 3 == 2 {
        idx := idx + 1;
        continue;
      }
      RowMajor(width, height, idx);
      var i, j, k := Row(width, idx), Column(width, idx), Colour(width, idx);
      if i >= height || j >= width {
        break;
      }
      EmbedOne(comps[..], original, data, mapBits, idx, MapComponent(original, data, mapBits, idx));
      EmbedHiddenBit(comps, data, mapBits, ComponentIndex(width, i, j, k), dataIndex, bitIndex, original);
      dataIndex, bitIndex, stop := NextBit(|data|, dataIndex, bitIndex, twoBitsCount);
      twoBitsCount := twoBitsCount + 1;
      idx := idx + 1;
    }
    // The "Not all data was embedded" branch cannot be taken.
    MonotoneCount(idx, totalComponents);
    assert twoBitsCount == 8 * |data|;
    EmbeddedAll(comps[..], original, data, mapBits, idx);
  }

  /** The blue or green component hidden bit m is written to. */
  lemma IndexCount(m: nat)
    ensures 4 <= DataIndex(m) && !IsRed(DataIndex(m)) && BitCount(DataIndex(m)) == m
  {
  }

  /** `lsbi_decode` reads back the map an embedding wrote. */
  lemma MapRoundTrip(comps: seq<byte>, data: seq<byte>, mapBits: byte)
    requires 4 <= |comps| && mapBits <= 0xF
    ensures MapBits(MapEmbedded(comps, data, mapBits)) == mapBits
  {
    var e := MapEmbedded(comps, data, mapBits);
    assert Lsb(e[0]) == Inverted(mapBits, 0) && Lsb(e[1]) == Inverted(mapBits, 1);
    assert Lsb(e[2]) == Inverted(mapBits, 2) && Lsb(e[3]) == Inverted(mapBits, 3);
    assert GatherMap(e, 1) == OrAt(0, Lsb(e[0]), 3);
    assert GatherMap(e, 2) == OrAt(GatherMap(e, 1), Lsb(e[1]), 2);
    assert GatherMap(e, 3) == OrAt(GatherMap(e, 2), Lsb(e[2]), 1);
    assert GatherMap(e, 4) == OrAt(GatherMap(e, 3), Lsb(e[3]), 0);
    MapReassemble(mapBits, Lsb(e[0]), Lsb(e[1]), Lsb(e[2]), Lsb(e[3]));
  }

  /** A four-bit map is the OR of its flags, each in its place. */
  lemma MapReassemble(mapBits: byte, f0: byte, f1: byte, f2: byte, f3: byte)
    requires mapBits <= 0xF
    requires f0 == Inverted(mapBits, 0) && f1 == Inverted(mapBits, 1) && f2 == Inverted(mapBits, 2) && f3 == Inverted(mapBits, 3)
    ensures OrAt(OrAt(OrAt(OrAt(0, f0, 3), f1, 2), f2, 1), f3, 0) == mapBits
  {
  }

  /** Hidden bit m read back under the same map is message bit m: bits 1-2
      survive the write, so the decoder picks the same flag and undoes the flip. */
  lemma HiddenBitRoundTrip(comps: seq<byte>, data: seq<byte>, mapBits: byte, m: nat)
    requires 4 <= |comps| && 8 * |data| <= BitCount(|comps|) && m < 8 * |data|
    ensures DataBits(MapEmbedded(comps, data, mapBits), mapBits)[m] == MessageBit(data, m)
  {
    var e := MapEmbedded(comps, data, mapBits);
    var idx := DataIndex(m);
    IndexCount(m);
    DataIndexBound(m, |comps|);
    MapEmbeddedKeeps(comps, data, mapBits, idx);
    var flag := Inverted(mapBits, Pattern(comps[idx]));
    assert e[idx] == SetLsb(comps[idx], MessageBit(data, m) ^ flag);
    assert DataBits(e, mapBits)[m] == Lsb(e[idx]) ^ flag;
  }

  /** Byte t of the stream read back under the same map is byte t of the message. */
  lemma MapByteRoundTrip(comps: seq<byte>, data: seq<byte>, mapBits: byte, t: nat)
    requires 4 <= |comps| && 8 * |data| <= BitCount(|comps|) && t < |data|
    ensures t < |LsbiStream(MapEmbedded(comps, data, mapBits), mapBits)|
    ensures LsbiStream(MapEmbedded(comps, data, mapBits), mapBits)[t] == data[t]
  {
    var bits := DataBits(MapEmbedded(comps, data, mapBits), mapBits);
    forall k | 0 <= k < 8
      ensures bits[8 * t + k] == MsbBit(data[t], k)
    {
      HiddenBitRoundTrip(comps, data, mapBits, 8 * t + k);
      MessageBitOfByte(data, t, k);
    }
    GatherMsbBits(bits, 8 * t, data[t]);
  }

  /** LSBI extraction reads back what map-based LSBI embedding wrote, for
      any map: the map comes back, and the stream it selects begins with the message. */
  lemma MapEmbedRoundTrip(comps: seq<byte>, data: seq<byte>, mapBits: byte)
    requires 4 <= |comps| && 8 * |data| <= BitCount(|comps|) && mapBits <= 0xF
    ensures MapBits(MapEmbedded(comps, data, mapBits)) == mapBits
    ensures |data| <= |LsbiStream(MapEmbedded(comps, data, mapBits), mapBits)|
    ensures LsbiStream(MapEmbedded(comps, data, mapBits), mapBits)[..|data|] == data
  {
    MapRoundTrip(comps, data, mapBits);
    var stream := LsbiStream(MapEmbedded(comps, data, mapBits), mapBits);
    assert |data| <= |stream|;
    forall t | 0 <= t < |data|
      ensures stream[t] == data[t]
    {
      MapByteRoundTrip(comps, data, mapBits, t);
    }
  }
}
