/** The LSBI embedding of src/core/embedding/lsbi_encode.c: message pair v
    (two bits, most significant pair of each byte first) replaces bits 0-1 of
    the v-th component visited, pixels in row-major order and each pixel's
    components in red, green, blue order. No inversion map is written. */
module LsbiPairEncoder {
  import opened Bytes
  import opened Bits
  import opened Bitmap

  /** The component visited at position p: pixel p / 3, colour red, green,
      blue for p % 3 == 0, 1, 2. In the blue, green, red storage order that is
      component 3 * (p / 3) + (2 - p % 3). */
  function VisitIndex(p: nat): nat
  {
    p + 2 - 2 * (p % 3)
  }

  /** Visiting is a permutation of the components of a grid: it stays inside
      the grid and undoes itself. */
  lemma VisitPermutes(p: nat, n: nat)
    requires p < 3 * n
    ensures VisitIndex(p) < 3 * n && VisitIndex(VisitIndex(p)) == p
  {
    var k := p % 3;
    assert p == 3 * (p / 3) + k;
    assert VisitIndex(p) == 3 * (p / 3) + (2 - k);
    assert VisitIndex(p) % 3 == 2 - k;
  }

  /** Bits 0-1 of a component. */
  function LowPair(c: byte): (p: byte)
    ensures p <= 3
  {
    c & 3
  }

  /** The components after embedding: the component visited at position p
      carries message pair p in bits 0-1 for p < 4 * |data|; nothing else changes. */
  function PairEmbedded(comps: seq<byte>, data: seq<byte>): (r: seq<byte>)
    ensures |r| == |comps|
  {
    seq(|comps|, i requires 0 <= i < |comps| =>
      if VisitIndex(i) < 4 * |data| then SetLowPair(comps[i], MessagePair(data, VisitIndex(i))) else comps[i])
  }

  /** Embedding changes bits 0-1 only, and only in the components visited
      at positions below 4 * |data|. */
  lemma PairEmbeddedKeeps(comps: seq<byte>, data: seq<byte>, i: nat)
    requires i < |comps|
    ensures PairEmbedded(comps, data)[i] & 0xFC == comps[i] & 0xFC
    ensures 4 * |data| <= VisitIndex(i) ==> PairEmbedded(comps, data)[i] == comps[i]
  {
  }

  /** The capacity check: `dataSize * 4 > biHeight * biWidth * 3`, the
      product taken in 32-bit unsigned arithmetic. */
  predicate PairTooLarge(width: nat, height: nat, dataSize: nat) {
    dataSize * 4 > Trunc32(height * width * 3)
  }

  /** A message that passes the check fits in the grid. */
  lemma PairFits(width: nat, height: nat, dataSize: nat)
    requires !PairTooLarge(width, height, dataSize)
    ensures 4 * dataSize <= ComponentCount(width, height)
  {
    assert height * width * 3 == ComponentCount(width, height);
  }

  /** Positions 0 .. p - 1 have been visited and written; the rest are untouched. */
  ghost predicate EmbeddedUpTo(s: seq<byte>, comps: seq<byte>, data: seq<byte>, p: nat)
  {
    && |s| == |comps| && p <= 4 * |data|
    && (forall i :: 0 <= i < |comps| && VisitIndex(i) < p ==> s[i] == SetLowPair(comps[i], MessagePair(data, VisitIndex(i))))
    && (forall i :: 0 <= i < |comps| && p <= VisitIndex(i) ==> s[i] == comps[i])
  }

  /** The pair at bit `bitIndex` of byte `dataIndex` is the message pair the
      encoder's counters point at. */
  lemma MessagePairAt(data: seq<byte>, dataIndex: nat, bitIndex: nat, v: nat)
    requires dataIndex < |data| && bitIndex <= 6 && 2 * v == 8 * dataIndex + bitIndex
    ensures v < 4 * |data| && (data[dataIndex] >> (6 - bitIndex)) & 3 == MessagePair(data, v)
  {
    assert v / 4 == dataIndex && 2 * (v % 4) == bitIndex;
  }

  /** Writing pair p into the component visited at p extends the embedded prefix by one. */
  lemma EmbedOne(s: seq<byte>, comps: seq<byte>, data: seq<byte>, p: nat, n: nat, twoBits: byte, c: byte)
    requires |comps| == 3 * n && p < 3 * n && p < 4 * |data|
    requires EmbeddedUpTo(s, comps, data, p)
    requires twoBits == MessagePair(data, p)
    requires VisitIndex(p) < |s| && c == (s[VisitIndex(p)] & 0xFC) | twoBits
    ensures EmbeddedUpTo(s[VisitIndex(p) := c], comps, data, p + 1)
  {
    VisitPermutes(p, n);
    assert c == SetLowPair(comps[VisitIndex(p)], MessagePair(data, p));
    forall i | 0 <= i < |comps| && i != VisitIndex(p)
      ensures VisitIndex(i) != p
    {
      VisitPermutes(i, n);
    }
  }

  /** A grid whose whole message has been written is the embedding. */
  lemma EmbeddedAll(s: seq<byte>, comps: seq<byte>, data: seq<byte>)
    requires EmbeddedUpTo(s, comps, data, 4 * |data|)
    ensures s == PairEmbedded(comps, data)
  {
  }

  /** `lsbi_encode` in src/core/embedding/lsbi_encode.c: a message that is
      too large leaves the grid untouched; otherwise the message is embedded,
      and the method returns right after the last pair of the last byte. */
  method PairEncode(img: Image, data: seq<byte>)
    requires img.Valid()
    modifies img.pixels
    ensures PairTooLarge(img.width, img.height, |data|) ==> img.pixels[..] == old(img.pixels[..])
    ensures !PairTooLarge(img.width, img.height, |data|) ==>
      4 * |data| <= img.pixels.Length && img.pixels[..] == PairEmbedded(old(img.pixels[..]), data)
  {
    var dataIndex: nat := 0;
    var bitIndex: nat := 0;
    var totalTwoBits := |data| * 4;
    var maxTwoBits := Trunc32(img.height * img.width * 3);
    if totalTwoBits > maxTwoBits {
      return;
    }
    PairFits(img.width, img.height, |data|);
    var comps := img.pixels;
    var total := ComponentCount(img.width, img.height);
    ghost var n := img.width * img.height;
    ghost var original := comps[..];
    var twoBitsCount: nat := 0;
    while twoBitsCount < total && twoBitsCount < totalTwoBits
      invariant total == comps.Length == 3 * n && totalTwoBits <= total
      invariant twoBitsCount <= totalTwoBits && bitIndex <= 6
      invariant 2 * twoBitsCount == 8 * dataIndex + bitIndex
      invariant EmbeddedUpTo(comps[..], original, data, twoBitsCount)
    {
      EmbedPair(comps, data, dataIndex, bitIndex, twoBitsCount, original, n);
      var done;
      dataIndex, bitIndex, done := NextPair(|data|, dataIndex, bitIndex, twoBitsCount);
      if done {
        EmbeddedAll(comps[..], original, data);
        return;
      }
      twoBitsCount := twoBitsCount + 1;
    }
    // Reached only with an empty message; the "Not all data was embedded"
    // branch cannot be taken.
    assert twoBitsCount == totalTwoBits;
    EmbeddedAll(comps[..], original, data);
  }

  /** The counter update at the end of the innermost loop of `lsbi_encode`:
      two bits further on, possibly into the next byte; `done` is the early
      return after the last pair of the last byte. */
  method NextPair(dataSize: nat, dataIndex: nat, bitIndex: nat, ghost twoBitsCount: nat)
    returns (dataIndex': nat, bitIndex': nat, done: bool)
    requires twoBitsCount < 4 * dataSize && bitIndex <= 6 && 2 * twoBitsCount == 8 * dataIndex + bitIndex
    ensures done <==> twoBitsCount + 1 == 4 * dataSize
    ensures bitIndex' <= 6 && 2 * (twoBitsCount + 1) == 8 * dataIndex' + bitIndex'
  {
    dataIndex', bitIndex', done := dataIndex, bitIndex + 2, false;
    if bitIndex' == 8 {
      bitIndex' := 0;
      dataIndex' := dataIndex' + 1;
      if dataIndex' >= dataSize {
        done := true;
      }
    }
  }

  /** The body of the innermost loop of `lsbi_encode` up to the counter
      update: the pair at bit `bitIndex` of byte `dataIndex` goes into bits
      0-1 of the component visited at position `twoBitsCount`. */
  method EmbedPair(comps: array<byte>, data: seq<byte>, dataIndex: nat, bitIndex: nat, twoBitsCount: nat,
                   ghost original: seq<byte>, ghost n: nat)
    requires comps.Length == 3 * n && twoBitsCount < 3 * n && twoBitsCount < 4 * |data|
    requires bitIndex <= 6 && 2 * twoBitsCount == 8 * dataIndex + bitIndex
    requires EmbeddedUpTo(comps[..], original, data, twoBitsCount)
    modifies comps
    ensures EmbeddedUpTo(comps[..], original, data, twoBitsCount + 1)
  {
    var c := data[dataIndex];
    var twoBits := (c >> (6 - bitIndex)) & 3;
    MessagePairAt(data, dataIndex, bitIndex, twoBitsCount);
    var target := VisitIndex(twoBitsCount);
    VisitPermutes(twoBitsCount, n);
    EmbedOne(comps[..], original, data, twoBitsCount, n, twoBits, (comps[target] & 0xFC) | twoBits);
    comps[target] := (comps[target] & 0xFC) | twoBits;
  }

  /** A byte from four pairs, most significant first. */
  function Quad(p0: byte, p1: byte, p2: byte, p3: byte): byte
  {
    OrAt(OrAt(OrAt(OrAt(0, p0, 6), p1, 4), p2, 2), p3, 0)
  }

  /** The components of a grid in visiting order. */
  function Visited(comps: seq<byte>): (v: seq<byte>)
    requires |comps| % 3 == 0
    ensures |v| == |comps|
  {
    seq(|comps|, p requires 0 <= p < |comps| => VisitPermutes(p, |comps| / 3); comps[VisitIndex(p)])
  }

  /** Reading the grid back in visiting order: byte t is bits 0-1 of the
      components visited at 4t .. 4t + 3, most significant pair first. */
  function PairStream(comps: seq<byte>, count: nat): (stream: seq<byte>)
    requires 4 * count <= |comps| && |comps| % 3 == 0
    ensures |stream| == count
  {
    var v := Visited(comps);
    seq(count, t requires 0 <= t < count =>
      Quad(LowPair(v[4 * t]), LowPair(v[4 * t + 1]), LowPair(v[4 * t + 2]), LowPair(v[4 * t + 3])))
  }

  /** Byte t of the read-back stream. */
  lemma PairStreamAt(comps: seq<byte>, count: nat, t: nat)
    requires 4 * count <= |comps| && |comps| % 3 == 0 && t < count
    ensures PairStream(comps, count)[t] == Quad(LowPair(Visited(comps)[4 * t]), LowPair(Visited(comps)[4 * t + 1]),
                                                LowPair(Visited(comps)[4 * t + 2]), LowPair(Visited(comps)[4 * t + 3]))
  {
  }

  /** Four pairs of a byte, most significant first, reassemble it. */
  lemma PairsOfByte(d: byte, p0: byte, p1: byte, p2: byte, p3: byte)
    requires p0 == (d >> 6) & 3 && p1 == (d >> 4) & 3 && p2 == (d >> 2) & 3 && p3 == (d >> 0) & 3
    ensures Quad(p0, p1, p2, p3) == d
  {
  }

  /** The four message pairs of byte t reassemble it. */
  lemma MessagePairsOfByte(data: seq<byte>, t: nat)
    requires t < |data|
    ensures Quad(MessagePair(data, 4 * t), MessagePair(data, 4 * t + 1),
                 MessagePair(data, 4 * t + 2), MessagePair(data, 4 * t + 3)) == data[t]
  {
    MessagePairAt(data, t, 0, 4 * t);
    MessagePairAt(data, t, 2, 4 * t + 1);
    MessagePairAt(data, t, 4, 4 * t + 2);
    MessagePairAt(data, t, 6, 4 * t + 3);
    PairsOfByte(data[t], MessagePair(data, 4 * t), MessagePair(data, 4 * t + 1),
                MessagePair(data, 4 * t + 2), MessagePair(data, 4 * t + 3));
  }

  /** The component visited at position v of an embedded grid holds message pair v. */
  lemma PairAt(comps: seq<byte>, data: seq<byte>, v: nat)
    requires 4 * |data| <= |comps| && |comps| % 3 == 0 && v < 4 * |data|
    ensures LowPair(Visited(PairEmbedded(comps, data))[v]) == MessagePair(data, v)
  {
    VisitPermutes(v, |comps| / 3);
  }

  /** Byte t read back from an embedded grid is byte t of the message. */
  lemma PairByteRoundTrip(comps: seq<byte>, data: seq<byte>, t: nat)
    requires 4 * |data| <= |comps| && |comps| % 3 == 0 && t < |data|
    ensures PairStream(PairEmbedded(comps, data), |data|)[t] == data[t]
  {
    PairStreamAt(PairEmbedded(comps, data), |data|, t);
    PairAt(comps, data, 4 * t);
    PairAt(comps, data, 4 * t + 1);
    PairAt(comps, data, 4 * t + 2);
    PairAt(comps, data, 4 * t + 3);
    MessagePairsOfByte(data, t);
  }

  /** Reading the pairs back in visiting order recovers the message. */
  lemma PairRoundTrip(comps: seq<byte>, data: seq<byte>)
    requires 4 * |data| <= |comps| && |comps| % 3 == 0
    ensures PairStream(PairEmbedded(comps, data), |data|) == data
  {
    forall t | 0 <= t < |data|
      ensures PairStream(PairEmbedded(comps, data), |data|)[t] == data[t]
    {
      PairByteRoundTrip(comps, data, t);
    }
  }
}
