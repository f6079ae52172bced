/** The bit fields of a colour component that the codecs read and write, the
    order in which a message's bits are laid out, and the accumulators the
    decoders rebuild bytes with. */
module Bits {
  import opened Bytes

  /** Bit 0 of a component. */
  function Lsb(c: byte): (b: byte)
    ensures b <= 1
  {
    c & 1
  }

  /** `(c & 0xFE) | bit`: replaces bit 0 and keeps bits 1-7. */
  function SetLsb(c: byte, bit: byte): (r: byte)
    requires bit <= 1
    ensures Lsb(r) == bit && r & 0xFE == c & 0xFE
  {
    (c & 0xFE) | bit
  }

  /** `(c & 0xF0) | nibble`: replaces bits 0-3 and keeps bits 4-7. */
  function SetLowNibble(c: byte, nibble: byte): (r: byte)
    requires nibble <= 0xF
    ensures r & 0xF == nibble && r & 0xF0 == c & 0xF0
  {
    (c & 0xF0) | nibble
  }

  /** `(c & 0xFC) | twoBits`: replaces bits 0-1 and keeps bits 2-7. */
  function SetLowPair(c: byte, twoBits: byte): (r: byte)
    requires twoBits <= 3
    ensures r & 3 == twoBits && r & 0xFC == c & 0xFC
  {
    (c & 0xFC) | twoBits
  }

  /** Bits 1-2 of a component: which of the four inversion flags applies to it. */
  function Pattern(c: byte): (p: nat)
    ensures p < 4
  {
    Nat((c >> 1) & 3)
  }

  /** Writing bit 0 leaves the pattern of a component alone. */
  lemma SetLsbKeepsPattern(c: byte, bit: byte)
    requires bit <= 1
    ensures Pattern(SetLsb(c, bit)) == Pattern(c)
  {
    assert (SetLsb(c, bit) >> 1) & 3 == (c >> 1) & 3;
  }

  /** Bit k of d, counting from the most significant (k = 0). */
  function MsbBit(d: byte, k: nat): (b: byte)
    requires k < 8
    ensures b <= 1
  {
    (d >> (7 - k)) & 1
  }

  /** Bit m of a message whose bytes are sent most significant bit first. */
  function MessageBit(data: seq<byte>, m: nat): (b: byte)
    requires m < 8 * |data|
    ensures b <= 1
  {
    MsbBit(data[m / 8], m % 8)
  }

  /** Bit `bitIndex` of byte `dataIndex`, counted from the least significant,
      is the message bit the encoders' counters point at. */
  lemma MessageBitAt(data: seq<byte>, dataIndex: nat, bitIndex: nat)
    requires dataIndex < |data| && bitIndex < 8
    ensures (data[dataIndex] >> bitIndex) & 1 == MessageBit(data, 8 * dataIndex + (7 - bitIndex))
  {
    var m := 8 * dataIndex + (7 - bitIndex);
    assert m / 8 == dataIndex && m % 8 == 7 - bitIndex;
  }

  /** Message bit 8t + k is bit k, from the most significant, of byte t. */
  lemma MessageBitOfByte(data: seq<byte>, t: nat, k: nat)
    requires t < |data| && k < 8
    ensures MessageBit(data, 8 * t + k) == MsbBit(data[t], k)
  {
    var m := 8 * t + k;
    assert m / 8 == t && m % 8 == k;
  }

  /** Nibble v of a message, high nibble of each byte first. */
  function MessageNibble(data: seq<byte>, v: nat): (n: byte)
    requires v < 2 * |data|
    ensures n <= 0xF
  {
    (data[v / 2] >> (4 * (1 - v % 2))) & 0xF
  }

  /** Bit pair v of a message, most significant pair of each byte first. */
  function MessagePair(data: seq<byte>, v: nat): (p: byte)
    requires v < 4 * |data|
    ensures p <= 3
  {
    (data[v / 4] >> (6 - 2 * (v % 4))) & 3
  }

  /** `acc | (bits << pos)`: the decoders' accumulation step. */
  function OrAt(acc: byte, bits: byte, pos: nat): byte
    requires pos < 8
  {
    acc | (bits << pos)
  }

  /** The decoders' accumulator after bits base .. base + j - 1 of a bit
      stream have been OR-ed in, the first of them into bit 7. */
  function GatherBits(bits: seq<byte>, base: nat, j: nat): byte
    requires j <= 8 && base + j <= |bits|
  {
    if j == 0 then 0 else OrAt(GatherBits(bits, base, j - 1), bits[base + j - 1], 8 - j)
  }

  /** One accumulation step: the next bit goes in below the ones before it. */
  lemma GatherStep(bits: seq<byte>, base: nat, j: nat, acc: byte, b: byte)
    requires j < 8 && base + j < |bits| && acc == GatherBits(bits, base, j) && b == bits[base + j]
    ensures OrAt(acc, b, 7 - j) == GatherBits(bits, base, j + 1)
  {
  }

  /** The bytes a decoder assembles from a stream of hidden bits, eight at a
      time, the first bit of each group in bit 7. */
  function Packed(bits: seq<byte>): (stream: seq<byte>)
    ensures |stream| == |bits| / 8
  {
    seq(|bits| / 8, t requires 0 <= t < |bits| / 8 => GatherBits(bits, 8 * t, 8))
  }

  /** Eight accumulation steps over the bits of d rebuild d. */
  lemma Reassemble(d: byte, a1: byte, a2: byte, a3: byte, a4: byte, a5: byte, a6: byte, a7: byte, a8: byte)
    requires a1 == OrAt(0, MsbBit(d, 0), 7) && a2 == OrAt(a1, MsbBit(d, 1), 6)
    requires a3 == OrAt(a2, MsbBit(d, 2), 5) && a4 == OrAt(a3, MsbBit(d, 3), 4)
    requires a5 == OrAt(a4, MsbBit(d, 4), 3) && a6 == OrAt(a5, MsbBit(d, 5), 2)
    requires a7 == OrAt(a6, MsbBit(d, 6), 1) && a8 == OrAt(a7, MsbBit(d, 7), 0)
    ensures a8 == d
  {
  }

  /** Gathering the eight bits of d, most significant first, gives d back. */
  lemma GatherMsbBits(bits: seq<byte>, base: nat, d: byte)
    requires base + 8 <= |bits|
    requires forall k :: 0 <= k < 8 ==> bits[base + k] == MsbBit(d, k)
    ensures GatherBits(bits, base, 8) == d
  {
    assert GatherBits(bits, base, 1) == OrAt(0, MsbBit(d, 0), 7) by {
      assert bits[base + 0] == MsbBit(d, 0);
    }
    Reassemble(d, GatherBits(bits, base, 1), GatherBits(bits, base, 2), GatherBits(bits, base, 3), GatherBits(bits, base, 4),
               GatherBits(bits, base, 5), GatherBits(bits, base, 6), GatherBits(bits, base, 7), GatherBits(bits, base, 8));
  }

  /** The two nibbles of a byte, high first, reassemble it. */
  lemma NibblesOfByte(d: byte, hi: byte, lo: byte)
    requires hi == (d >> 4) & 0xF && lo == (d >> 0) & 0xF
    ensures (hi << 4) | lo == d
  {
  }
}
