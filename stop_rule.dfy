/** How the three decoders decide where the hidden payload ends. All of them
    turn the carrier into a stream of bytes and read it front to back: the
    first four bytes are a big-endian size, checked against the capacity;
    after every later byte they stop once 4 + size bytes are in and, for an
    unencrypted payload, the last byte read is NUL. `AsWritten` is that rule;
    `Corrected` is the rule the payload layout calls for. */
module StopRule {
  import opened Bytes
  import opened Bits

  datatype Rule = AsWritten | Corrected

  /** Why a decoder returns NULL: the size header exceeds the capacity, the
      carrier ran out before the stop rule fired, or (LSBI only) the grid has
      fewer than four components to hold the inversion map. */
  datatype DecodeError = TooLarge(size: nat) | Exhausted | NoMap

  /** The filled part of the decoder's buffer and the size it read, or the reason it returned NULL. */
  datatype Decoded = Extracted(buffer: seq<byte>, size: nat) | Failed(error: DecodeError)

  /** Whether a decoder that has read n bytes of the stream stops there. */
  predicate Stops(rule: Rule, stream: seq<byte>, size: nat, encrypted: bool, n: nat) {
    n <= |stream| &&
    match rule
    case AsWritten => 5 <= n && n >= 4 + size && (encrypted || stream[n - 1] == 0)
    case Corrected => if encrypted then 4 <= n && n == 4 + size else n >= 5 + size && stream[n - 1] == 0
  }

  /** The first stopping point at or after `from`. */
  function FirstStop(rule: Rule, stream: seq<byte>, size: nat, encrypted: bool, from: nat): (r: Option<nat>)
    ensures r.Some? ==> from <= r.value && Stops(rule, stream, size, encrypted, r.value)
    ensures r.Some? ==> forall n :: from <= n < r.value ==> !Stops(rule, stream, size, encrypted, n)
    ensures r.None? ==> forall n :: from <= n ==> !Stops(rule, stream, size, encrypted, n)
    decreases |stream| + 1 - from
  {
    if from > |stream| then None
    else if Stops(rule, stream, size, encrypted, from) then Some(from)
    else FirstStop(rule, stream, size, encrypted, from + 1)
  }

  /** The capacity check after the size header: `4 + size + 1 > max_data_bytes`,
      computed in 32-bit unsigned arithmetic. */
  predicate TooLargeAsWritten(size: nat, maxBytes: nat) {
    Trunc32(4 + size + 1) > maxBytes
  }

  /** What the decoders return for a stream of bytes out of a carrier that
      holds at most `maxBytes` bytes. */
  function Scan(stream: seq<byte>, maxBytes: nat, encrypted: bool): (r: Decoded)
    ensures r.Extracted? ==> 4 <= |stream| && r.size == ReadBE32(stream) && !TooLargeAsWritten(r.size, maxBytes)
    ensures r.Extracted? ==> 5 <= |r.buffer| <= |stream| && 4 + r.size <= |r.buffer| && r.buffer == stream[..|r.buffer|]
    ensures r.Extracted? && !encrypted ==> r.buffer[|r.buffer| - 1] == 0
    ensures r.Extracted? && !encrypted ==> forall i :: 4 <= i < |r.buffer| - 1 && 3 + r.size <= i ==> r.buffer[i] != 0
    ensures r.Extracted? && encrypted ==> |r.buffer| == if r.size == 0 then 5 else 4 + r.size
    ensures r.Failed? && r.error.TooLarge? ==> 4 <= |stream| && r.error.size == ReadBE32(stream)
    ensures r.Failed? && r.error.TooLarge? <==> 4 <= |stream| && TooLargeAsWritten(ReadBE32(stream), maxBytes)
  {
    if |stream| < 4 then Failed(Exhausted)
    else
      var size := ReadBE32(stream);
      if TooLargeAsWritten(size, maxBytes) then Failed(TooLarge(size))
      else match FirstStop(AsWritten, stream, size, encrypted, 5)
        case Some(n) =>
          var first := if size == 0 then 5 else 4 + size;
          assert encrypted ==> Stops(AsWritten, stream, size, encrypted, first);
          NoEarlierStop(stream, size, encrypted, n);
          Extracted(stream[..n], size)
        case None => Failed(Exhausted)
  }

  /** Before the first stop of the rule as written, no byte from the last
      file byte on is NUL. */
  lemma NoEarlierStop(stream: seq<byte>, size: nat, encrypted: bool, n: nat)
    requires n <= |stream| && forall m :: 5 <= m < n ==> !Stops(AsWritten, stream, size, encrypted, m)
    ensures !encrypted ==> forall i :: 4 <= i < n - 1 && 3 + size <= i ==> stream[..n][i] != 0
  {
    forall i | !encrypted && 4 <= i < n - 1 && 3 + size <= i
      ensures stream[..n][i] != 0
    {
      assert !Stops(AsWritten, stream, size, encrypted, i + 1);
    }
  }

  /** Before the first stop of the corrected rule, the extension holds no NUL. */
  lemma NoEarlierNul(stream: seq<byte>, size: nat, encrypted: bool, n: nat)
    requires n <= |stream| && forall m :: 4 <= m < n ==> !Stops(Corrected, stream, size, encrypted, m)
    ensures !encrypted && 5 + size <= n ==> NoNul(stream[..n][4 + size..n - 1])
  {
    if !encrypted && 5 + size <= n {
      var ext := stream[..n][4 + size..n - 1];
      forall i | 0 <= i < |ext|
        ensures ext[i] != 0
      {
        assert ext[i] == stream[4 + size + i];
        assert !Stops(Corrected, stream, size, encrypted, 4 + size + i + 1);
      }
    }
  }

  /** The corrected decoder: the capacity check counts the terminator only
      for an unencrypted payload, without wrap-around, and a plain payload
      ends at the first NUL after the file data. */
  function ScanCorrected(stream: seq<byte>, maxBytes: nat, encrypted: bool): (r: Decoded)
    ensures r.Extracted? ==> 4 <= |stream| && r.size == ReadBE32(stream)
    ensures r.Extracted? ==> |r.buffer| <= |stream| && r.buffer == stream[..|r.buffer|]
    ensures r.Extracted? && encrypted ==> |r.buffer| == 4 + r.size
    ensures r.Extracted? && !encrypted ==> 5 + r.size <= |r.buffer| && r.buffer[|r.buffer| - 1] == 0
    ensures r.Extracted? && !encrypted ==> NoNul(r.buffer[4 + r.size..|r.buffer| - 1])
  {
    if |stream| < 4 then Failed(Exhausted)
    else
      var size := ReadBE32(stream);
      if 4 + size + (if encrypted then 0 else 1) > maxBytes then Failed(TooLarge(size))
      else match FirstStop(Corrected, stream, size, encrypted, 4)
        case Some(n) => 
          NoEarlierNul(stream, size, encrypted, n);
          Extracted(stream[..n], size)
        case None => Failed(Exhausted)
  }

  /** What a decoder knows after storing `read` bytes of the stream without
      stopping or failing. */
  ghost predicate Scanning(stream: seq<byte>, maxBytes: nat, encrypted: bool, read: nat, size: nat) {
    && read <= |stream|
    && (read < 4 ==> size == 0)
    && (read >= 4 ==> size == ReadBE32(stream) && !TooLargeAsWritten(size, maxBytes))
    && forall n :: 5 <= n <= read ==> !Stops(AsWritten, stream, size, encrypted, n)
  }

  /** What a decoder knows when it stops after storing `read` bytes. */
  ghost predicate Stopped(stream: seq<byte>, maxBytes: nat, encrypted: bool, read: nat, size: nat) {
    5 <= read && Scanning(stream, maxBytes, encrypted, read - 1, size) && Stops(AsWritten, stream, size, encrypted, read)
  }

  // The three outcomes of `Scan`, each from what a decoder knows when it
  // returns.

  lemma ScanTooLarge(stream: seq<byte>, maxBytes: nat, encrypted: bool, size: nat)
    requires 4 <= |stream| && size == ReadBE32(stream) && TooLargeAsWritten(size, maxBytes)
    ensures Scan(stream, maxBytes, encrypted) == Failed(TooLarge(size))
  {
  }

  lemma ScanStopped(stream: seq<byte>, maxBytes: nat, encrypted: bool, read: nat, size: nat)
    requires Stopped(stream, maxBytes, encrypted, read, size)
    ensures Scan(stream, maxBytes, encrypted) == Extracted(stream[..read], size)
  {
    var first := FirstStop(AsWritten, stream, size, encrypted, 5);
    assert first.Some? && first.value <= read;
  }

  lemma ScanRunsOut(stream: seq<byte>, maxBytes: nat, encrypted: bool, size: nat)
    requires Scanning(stream, maxBytes, encrypted, |stream|, size)
    ensures Scan(stream, maxBytes, encrypted) == Failed(Exhausted)
  {
    if 4 <= |stream| {
      var first := FirstStop(AsWritten, stream, size, encrypted, 5);
      assert first.None?;
    }
  }

  /** The state of a decoder's buffer: its first `read` bytes are the first
      bytes of the stream, and the stop rule has or has not fired on them. */
  ghost predicate Filling(buffer: array<byte>, stream: seq<byte>, maxBytes: nat, encrypted: bool, read: nat, size: nat, stop: bool)
    reads buffer
  {
    && read <= buffer.Length && read <= |stream|
    && (forall t :: 0 <= t < read ==> buffer[t] == stream[t])
    && (!stop ==> Scanning(stream, maxBytes, encrypted, read, size))
    && (stop ==> Stopped(stream, maxBytes, encrypted, read, size))
  }

  /** What every decoder does with a byte it has completed: it stores it,
      `dataBuffer[dataBufferIndex++] = currentByte`, and then makes its
      check. The fourth byte completes the size header, which is checked
      against the capacity; from then on the decoder stops once 4 + size
      bytes are in and, unless the payload is encrypted, the byte just
      stored is NUL. `size` is the caller's `*dataSize`, 0 until the header
      is read; `read` is the number of bytes stored before this one. */
  method StoreByte(buffer: array<byte>, read: nat, b: byte, size: nat, encrypted: bool, maxBytes: nat, ghost stream: seq<byte>)
    returns (newSize: nat, stop: bool, tooLarge: bool)
    requires Filling(buffer, stream, maxBytes, encrypted, read, size, false)
    requires read < buffer.Length && read < |stream| && b == stream[read]
    modifies buffer
    ensures tooLarge ==> Scan(stream, maxBytes, encrypted) == Failed(TooLarge(newSize))
    ensures !tooLarge ==> Filling(buffer, stream, maxBytes, encrypted, read + 1, newSize, stop)
  {
    buffer[read] := b;
    newSize, stop, tooLarge := AfterByte(buffer, read + 1, size, encrypted, maxBytes, stream);
    if tooLarge {
      ScanTooLarge(stream, maxBytes, encrypted, newSize);
    }
  }

  /** The check after a byte is stored; `read` bytes are in the buffer. */
  method AfterByte(buffer: array<byte>, read: nat, size: nat, encrypted: bool, maxBytes: nat, ghost stream: seq<byte>)
    returns (newSize: nat, stop: bool, tooLarge: bool)
    requires 1 <= read <= buffer.Length && read <= |stream|
    requires forall t :: 0 <= t < read ==> buffer[t] == stream[t]
    requires Scanning(stream, maxBytes, encrypted, read - 1, size)
    ensures tooLarge ==> !stop && read == 4 && newSize == ReadBE32(stream) && TooLargeAsWritten(newSize, maxBytes)
    ensures stop ==> Stopped(stream, maxBytes, encrypted, read, newSize)
    ensures !tooLarge && !stop ==> Scanning(stream, maxBytes, encrypted, read, newSize)
  {
    newSize, stop, tooLarge := size, false, false;
    if read == 4 {
      newSize := ReadBE32(buffer[..4]);
      assert buffer[..4] == stream[..4];
      ReadBE32Prefix(buffer[..4], stream);
      if Trunc32(4 + newSize + 1) > maxBytes {
        tooLarge := true;
      }
    } else if read >= 4 + size {
      if !encrypted && buffer[read - 1] == 0 {
        stop := true;
      } else if encrypted {
        stop := true;
      }
    }
  }

  /** How every decoder ends once its loop is over: NULL when the carrier ran
      out before the stop condition held, otherwise the buffer. */
  method Finish(buffer: array<byte>, read: nat, size: nat, stop: bool, encrypted: bool, maxBytes: nat, ghost stream: seq<byte>)
    returns (r: Decoded)
    requires Filling(buffer, stream, maxBytes, encrypted, read, size, stop)
    requires !stop ==> read == |stream|
    ensures r == Scan(stream, maxBytes, encrypted)
  {
    if !stop {
      assert stream[..read] == stream;
      ScanRunsOut(stream, maxBytes, encrypted, size);
      return Failed(Exhausted);
    }
    assert buffer[..read] == stream[..read];
    ScanStopped(stream, maxBytes, encrypted, read, size);
    return Extracted(buffer[..read], size);
  }

  /** The state of a decoder that assembles bytes out of a stream of hidden
      bits: the completed bytes are in the buffer, and the `bitIndex` bits
      after them wait in `currentByte`. */
  ghost predicate Packing(buffer: array<byte>, bits: seq<byte>, maxBytes: nat, encrypted: bool,
                          bufIdx: nat, bitIndex: nat, currentByte: byte, size: nat, stop: bool)
    reads buffer
  {
    && bitIndex < 8 && 8 * bufIdx + bitIndex <= |bits| && |bits| / 8 <= maxBytes == buffer.Length
    && currentByte == GatherBits(bits, 8 * bufIdx, bitIndex)
    && Filling(buffer, Packed(bits), maxBytes, encrypted, bufIdx, size, stop)
  }

  /** `currentByte |= bit << (7 - bitIndex); bitIndex++`, and when the byte
      is complete it is stored and checked. */
  method TakeBit(bit: byte, buffer: array<byte>, maxBytes: nat, encrypted: bool,
                 bufIdx: nat, bitIndex: nat, currentByte: byte, size: nat, ghost bits: seq<byte>)
    returns (bufIdx': nat, bitIndex': nat, currentByte': byte, size': nat, stop: bool, tooLarge: bool)
    requires Packing(buffer, bits, maxBytes, encrypted, bufIdx, bitIndex, currentByte, size, false)
    requires 8 * bufIdx + bitIndex < |bits| && bit == bits[8 * bufIdx + bitIndex]
    modifies buffer
    ensures tooLarge ==> Scan(Packed(bits), maxBytes, encrypted) == Failed(TooLarge(size'))
    ensures !tooLarge ==> 8 * bufIdx' + bitIndex' == 8 * bufIdx + bitIndex + 1
    ensures !tooLarge ==> Packing(buffer, bits, maxBytes, encrypted, bufIdx', bitIndex', currentByte', size', stop)
  {
    GatherStep(bits, 8 * bufIdx, bitIndex, currentByte, bit);
    currentByte' := OrAt(currentByte, bit, 7 - bitIndex);
    bitIndex' := bitIndex + 1;
    bufIdx', size', stop, tooLarge := bufIdx, size, false, false;
    if bitIndex' == 8 {
      assert currentByte' == Packed(bits)[bufIdx];
      size', stop, tooLarge := StoreByte(buffer, bufIdx, currentByte', size, encrypted, maxBytes, Packed(bits));
      bufIdx' := bufIdx + 1;
      currentByte' := 0;
      bitIndex' := 0;
    }
  }
}
