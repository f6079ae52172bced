/** The whole path of a hidden file: `prepare_embedding_data` builds the
    payload, an encoder hides it in the carrier's components, the matching
    decoder reads it back with the stop rule, and `process_extracted_data`
    recovers the file. With the corrected stop rule, capacity check and
    extraction step every file comes back. As written, a file that ends in
    NUL is cut off before its extension, which is then read from the
    uninitialised rest of the decoder's buffer; an encrypted payload that
    fills the carrier is refused; and a file whose size header and bytes
    hold no NUL is refused as unterminated. */
module Pipeline {
  import opened Bytes
  import opened Cipher
  import opened Outcomes
  import opened StopRule
  import opened PrepareEmbedding
  import opened ProcessExtracted
  import opened Bitmap
  import opened Lsb1Decoder
  import opened Lsb1Encoder
  import opened Lsb4Decoder
  import opened Lsb4Encoder
  import opened LsbiDecoder
  import opened LegacyLsbiEncoder

  /** A stop at k with none before it is the first stop. */
  lemma FirstStopAt(rule: Rule, stream: seq<byte>, size: nat, encrypted: bool, from: nat, k: nat)
    requires from <= k && Stops(rule, stream, size, encrypted, k)
    requires forall n :: from <= n < k ==> !Stops(rule, stream, size, encrypted, n)
    ensures FirstStop(rule, stream, size, encrypted, from) == Some(k)
  {
  }

  /** A stream that starts with the payload `blob` holds the blob's bytes. */
  lemma PrefixAt(stream: seq<byte>, blob: seq<byte>, i: nat)
    requires |blob| <= |stream| && stream[..|blob|] == blob && i < |blob|
    ensures stream[i] == blob[i]
  {
    assert stream[i] == stream[..|blob|][i];
  }

  /** A stream that starts with a payload starts with its size header. */
  lemma PrefixHeader(stream: seq<byte>, blob: seq<byte>)
    requires 4 <= |blob| <= |stream| && stream[..|blob|] == blob
    ensures ReadBE32(stream) == ReadBE32(blob)
  {
    assert stream[..4] == stream[..|blob|][..4];
    ReadBE32Prefix(stream, blob);
  }

  /** The corrected decoder stops right after an unencrypted payload's
      terminator, provided the carrier holds the whole payload. */
  lemma ScanCorrectedPlain(stream: seq<byte>, data: seq<byte>, path: CString, maxBytes: nat)
    requires |data| < U32_LIMIT
    requires |Payload(data, path)| <= maxBytes && |Payload(data, path)| <= |stream|
    requires stream[..|Payload(data, path)|] == Payload(data, path)
    ensures ScanCorrected(stream, maxBytes, false) == Extracted(Payload(data, path), |data|)
  {
    var blob := Payload(data, path);
    var ext := Extension(path);
    var size := |data|;
    PayloadLayout(data, path);
    PrefixHeader(stream, blob);
    forall n | 4 <= n < |blob|
      ensures !Stops(Corrected, stream, size, false, n)
    {
      if 5 + size <= n {
        PrefixAt(stream, blob, n - 1);
        assert blob[n - 1] == blob[4 + size..|blob| - 1][n - 1 - (4 + size)];
      }
    }
    PrefixAt(stream, blob, |blob| - 1);
    FirstStopAt(Corrected, stream, size, false, 4, |blob|);
  }

  /** The corrected decoder stops right after an encrypted payload, provided
      the carrier holds it. */
  lemma ScanCorrectedEncrypted(stream: seq<byte>, ct: seq<byte>, maxBytes: nat)
    requires |ct| < U32_LIMIT && 4 + |ct| <= maxBytes && 4 + |ct| <= |stream|
    requires stream[..4 + |ct|] == Envelope(ct)
    ensures ScanCorrected(stream, maxBytes, true) == Extracted(Envelope(ct), |ct|)
  {
    EnvelopeLayout(ct);
    PrefixHeader(stream, Envelope(ct));
    FirstStopAt(Corrected, stream, |ct|, true, 4, 4 + |ct|);
  }

  /** Whatever carries a prepared payload in full and has room for it, the
      corrected decoder and extraction give the file back. */
  lemma Recovers(stream: seq<byte>, maxBytes: nat, data: seq<byte>, path: CString, outputPath: CString,
                 encrypted: bool, suite: Suite)
    requires |data| < U32_LIMIT && Prepare(Some(data), path, encrypted, suite).Some?
    requires encrypted ==> Inverse(suite) && |suite.encrypt(Payload(data, path)).value| < U32_LIMIT
    requires |Prepare(Some(data), path, encrypted, suite).value| <= maxBytes
    requires |Prepare(Some(data), path, encrypted, suite).value| <= |stream|
    requires stream[..|Prepare(Some(data), path, encrypted, suite).value|] == Prepare(Some(data), path, encrypted, suite).value
    ensures ScanCorrected(stream, maxBytes, encrypted) == Extracted(Prepare(Some(data), path, encrypted, suite).value, ReadBE32(stream))
    ensures Process(Corrected, Prepare(Some(data), path, encrypted, suite).value, outputPath, encrypted, suite)
      == Ok(Written(outputPath + Extension(path), data))
  {
    if encrypted {
      var ct := suite.encrypt(Payload(data, path)).value;
      ScanCorrectedEncrypted(stream, ct, maxBytes);
    } else {
      ScanCorrectedPlain(stream, data, path, maxBytes);
    }
    ProcessRoundTrip(data, path, outputPath, encrypted, suite);
  }

  /** The LSB1 path, corrected: whatever `lsb1_encode` accepts,
      `lsb1_decode` and the extraction give back. */
  lemma Lsb1Pipeline(width: nat, height: nat, comps: seq<byte>, data: seq<byte>, path: CString, outputPath: CString,
                     encrypted: bool, suite: Suite)
    requires |comps| == ComponentCount(width, height)
    requires |data| < U32_LIMIT && Prepare(Some(data), path, encrypted, suite).Some?
    requires encrypted ==> Inverse(suite) && |suite.encrypt(Payload(data, path)).value| < U32_LIMIT
    requires !Lsb1TooLarge(width, height, |Prepare(Some(data), path, encrypted, suite).value|)
    ensures 8 * |Prepare(Some(data), path, encrypted, suite).value| <= |comps|
    ensures var decoded := ScanCorrected(Lsb1Stream(Lsb1Embedded(comps, Prepare(Some(data), path, encrypted, suite).value)), |comps| / 8, encrypted);
      && decoded.Extracted?
      && Process(Corrected, decoded.buffer, outputPath, encrypted, suite) == Ok(Written(outputPath + Extension(path), data))
  {
    var blob := Prepare(Some(data), path, encrypted, suite).value;
    Lsb1Fits(width, height, |blob|);
    Lsb1RoundTrip(comps, blob);
    Recovers(Lsb1Stream(Lsb1Embedded(comps, blob)), |comps| / 8, data, path, outputPath, encrypted, suite);
  }

  /** The LSB4 path, corrected: whatever `lsb4_encode` accepts,
      `lsb4_decode` and the extraction give back. */
  lemma Lsb4Pipeline(width: nat, height: nat, comps: seq<byte>, data: seq<byte>, path: CString, outputPath: CString,
                     encrypted: bool, suite: Suite)
    requires |comps| == ComponentCount(width, height)
    requires |data| < U32_LIMIT && Prepare(Some(data), path, encrypted, suite).Some?
    requires encrypted ==> Inverse(suite) && |suite.encrypt(Payload(data, path)).value| < U32_LIMIT
    requires !Lsb4TooLarge(width, height, |Prepare(Some(data), path, encrypted, suite).value|)
    ensures 2 * |Prepare(Some(data), path, encrypted, suite).value| <= |comps|
    ensures var decoded := ScanCorrected(Lsb4Stream(Lsb4Embedded(comps, Prepare(Some(data), path, encrypted, suite).value)), |comps| / 2, encrypted);
      && decoded.Extracted?
      && Process(Corrected, decoded.buffer, outputPath, encrypted, suite) == Ok(Written(outputPath + Extension(path), data))
  {
    var blob := Prepare(Some(data), path, encrypted, suite).value;
    Lsb4Fits(width, height, |blob|);
    Lsb4RoundTrip(comps, blob);
    Recovers(Lsb4Stream(Lsb4Embedded(comps, blob)), |comps| / 2, data, path, outputPath, encrypted, suite);
  }

  /** The LSBI path, corrected: whatever the map-based `lsbi_encode`
      accepts (it leaves every pattern uninverted), `lsbi_decode` and the
      extraction give back. */
  lemma LsbiPipeline(width: nat, height: nat, comps: seq<byte>, data: seq<byte>, path: CString, outputPath: CString,
                     encrypted: bool, suite: Suite)
    requires |comps| == ComponentCount(width, height)
    requires |data| < U32_LIMIT && Prepare(Some(data), path, encrypted, suite).Some?
    requires encrypted ==> Inverse(suite) && |suite.encrypt(Payload(data, path)).value| < U32_LIMIT
    requires !MapTooLarge(width, height, |Prepare(Some(data), path, encrypted, suite).value|)
    ensures 4 <= |comps| && MapBits(MapEmbedded(comps, Prepare(Some(data), path, encrypted, suite).value, 0)) == 0
    ensures var decoded := ScanCorrected(LsbiStream(MapEmbedded(comps, Prepare(Some(data), path, encrypted, suite).value, 0), 0),
                                         MaxDataBytes(width, height), encrypted);
      && decoded.Extracted?
      && Process(Corrected, decoded.buffer, outputPath, encrypted, suite) == Ok(Written(outputPath + Extension(path), data))
  {
    var blob := Prepare(Some(data), path, encrypted, suite).value;
    MapFits(width, height, |blob|);
    MapEmbedRoundTrip(comps, blob, 0);
    Recovers(LsbiStream(MapEmbedded(comps, blob, 0), 0), MaxDataBytes(width, height), data, path, outputPath, encrypted, suite);
  }

  /** A file whose last byte is NUL: the stop rule as written fires on that
      byte, so the decoder hands over the payload without its extension. */
  lemma ScanStopsInData(stream: seq<byte>, data: seq<byte>, path: CString, maxBytes: nat)
    requires 1 <= |data| < U32_LIMIT && data[|data| - 1] == 0
    requires |Payload(data, path)| <= maxBytes && |Payload(data, path)| <= |stream|
    requires stream[..|Payload(data, path)|] == Payload(data, path)
    ensures Scan(stream, maxBytes, false) == Extracted(Payload(data, path)[..4 + |data|], |data|)
  {
    var blob := Payload(data, path);
    var size := |data|;
    PayloadLayout(data, path);
    PrefixHeader(stream, blob);
    assert blob[3 + size] == blob[4..4 + size][size - 1];
    PrefixAt(stream, blob, 3 + size);
    FirstStopAt(AsWritten, stream, size, false, 5, 4 + size);
    assert stream[..4 + size] == stream[..|blob|][..4 + size];
  }

  /** Inside a terminated payload whose last file byte (if any) is not NUL,
      the stop rule as written does not fire. */
  lemma NoStopInside(stream: seq<byte>, blob: seq<byte>, size: nat, ext: CString)
    requires 4 + size < |blob| <= |stream| && stream[..|blob|] == blob
    requires blob[4 + size..|blob| - 1] == ext
    requires size == 0 || blob[3 + size] != 0
    ensures forall n :: 5 <= n < |blob| ==> !Stops(AsWritten, stream, size, false, n)
  {
    forall n | 5 <= n < |blob|
      ensures !Stops(AsWritten, stream, size, false, n)
    {
      if 4 + size <= n {
        PrefixAt(stream, blob, n - 1);
        if n > 4 + size {
          assert blob[n - 1] == ext[n - 1 - (4 + size)];
        }
      }
    }
  }

  /** A file whose last byte is not NUL (or an empty file): the stop rule as
      written fires on the extension's terminator. */
  lemma ScanStopsAtTerminator(stream: seq<byte>, data: seq<byte>, path: CString, maxBytes: nat)
    requires |data| < U32_LIMIT && (|data| == 0 || data[|data| - 1] != 0)
    requires |Payload(data, path)| <= maxBytes && |Payload(data, path)| <= |stream|
    requires stream[..|Payload(data, path)|] == Payload(data, path)
    ensures Scan(stream, maxBytes, false) == Extracted(Payload(data, path), |data|)
  {
    var blob := Payload(data, path);
    var size := |data|;
    PayloadLayout(data, path);
    PrefixHeader(stream, blob);
    if size > 0 {
      assert blob[3 + size] == blob[4..4 + size][size - 1];
    }
    NoStopInside(stream, blob, size, Extension(path));
    PrefixAt(stream, blob, |blob| - 1);
    FirstStopAt(AsWritten, stream, size, false, 5, |blob|);
  }

  /** The unencrypted path as written, for a file that ends in NUL and any
      carrier that holds the whole payload: the decoder cuts the payload off
      before its extension, and the extraction then reads the extension
      from past the filled part of the buffer (uninitialised memory). */
  lemma TruncatedFileOverRead(stream: seq<byte>, maxBytes: nat, data: seq<byte>, path: CString, outputPath: CString, suite: Suite)
    requires 1 <= |data| < U32_LIMIT && data[|data| - 1] == 0
    requires |Payload(data, path)| <= maxBytes && |Payload(data, path)| <= |stream|
    requires stream[..|Payload(data, path)|] == Payload(data, path)
    ensures Scan(stream, maxBytes, false).Extracted?
    ensures Process(AsWritten, Scan(stream, maxBytes, false).buffer, outputPath, false, suite) == Err(OverRead)
  {
    var blob := Payload(data, path);
    ScanStopsInData(stream, data, path, maxBytes);
    var cut := blob[..4 + |data|];
    PayloadLayout(data, path);
    assert cut[..4] == blob[..4];
    ReadBE32Prefix(cut, blob);
    assert cut[|cut| - 1] == data[|data| - 1];
    UnpackTruncated(cut, outputPath);
  }

  /** The unencrypted path as written, for a file that does not end in NUL
      and any carrier that holds the whole payload: the file comes back
      exactly when its size header or bytes hold a NUL. */
  lemma TerminatedAsWritten(stream: seq<byte>, maxBytes: nat, data: seq<byte>, path: CString, outputPath: CString, suite: Suite)
    requires |data| < U32_LIMIT && |path| < U32_LIMIT && (|data| == 0 || data[|data| - 1] != 0)
    requires |Payload(data, path)| <= maxBytes && |Payload(data, path)| <= |stream|
    requires stream[..|Payload(data, path)|] == Payload(data, path)
    ensures Scan(stream, maxBytes, false) == Extracted(Payload(data, path), |data|)
    ensures !NoNul(Payload(data, path)[..4 + |data|]) ==>
      Process(AsWritten, Payload(data, path), outputPath, false, suite) == Ok(Written(outputPath + Extension(path), data))
    ensures NoNul(Payload(data, path)[..4 + |data|]) ==>
      Process(AsWritten, Payload(data, path), outputPath, false, suite) == Err(ExtensionNotTerminated)
  {
    ScanStopsAtTerminator(stream, data, path, maxBytes);
    ProcessAsWritten(data, path, outputPath, false, suite);
  }

  /** For a one-byte NUL file the unencrypted path as written reads the
      extension from uninitialised memory; the corrected one reads the file
      back, in any carrier with room for it. */
  lemma NulFileOverRead(stream: seq<byte>, maxBytes: nat, path: CString, outputPath: CString, suite: Suite)
    requires |Payload([0], path)| <= maxBytes && |Payload([0], path)| <= |stream|
    requires stream[..|Payload([0], path)|] == Payload([0], path)
    ensures Scan(stream, maxBytes, false).Extracted?
    ensures Process(AsWritten, Scan(stream, maxBytes, false).buffer, outputPath, false, suite) == Err(OverRead)
    ensures ScanCorrected(stream, maxBytes, false) == Extracted(Payload([0], path), 1)
    ensures Process(Corrected, Payload([0], path), outputPath, false, suite) == Ok(Written(outputPath + Extension(path), [0]))
  {
    var data: seq<byte> := [0];
    assert |data| == 1 && data[0] == 0;
    TruncatedFileOverRead(stream, maxBytes, data, path, outputPath, suite);
    ScanCorrectedPlain(stream, data, path, maxBytes);
    ProcessRoundTrip(data, path, outputPath, false, suite);
  }

  /** An encrypted payload as written: the capacity check counts a
      terminator that an encrypted payload does not have, and otherwise the
      decoder stops right after the ciphertext. */
  lemma EncryptedAsWritten(stream: seq<byte>, ct: seq<byte>, maxBytes: nat)
    requires 1 <= |ct| && 5 + |ct| < U32_LIMIT && 4 + |ct| <= |stream|
    requires stream[..4 + |ct|] == Envelope(ct)
    ensures maxBytes < 5 + |ct| ==> Scan(stream, maxBytes, true) == Failed(TooLarge(|ct|))
    ensures 5 + |ct| <= maxBytes ==> Scan(stream, maxBytes, true) == Extracted(Envelope(ct), |ct|)
  {
    EnvelopeLayout(ct);
    PrefixHeader(stream, Envelope(ct));
    if 5 + |ct| <= maxBytes {
      FirstStopAt(AsWritten, stream, |ct|, true, 5, 4 + |ct|);
    }
  }

  /** An encrypted payload that exactly fills the carrier: the decoder as
      written refuses it, the corrected one reads it. */
  lemma FullCarrierRefused(stream: seq<byte>, ct: seq<byte>)
    requires 1 <= |ct| && 5 + |ct| < U32_LIMIT && 4 + |ct| <= |stream|
    requires stream[..4 + |ct|] == Envelope(ct)
    ensures Scan(stream, 4 + |ct|, true) == Failed(TooLarge(|ct|))
    ensures ScanCorrected(stream, 4 + |ct|, true) == Extracted(Envelope(ct), |ct|)
  {
    EncryptedAsWritten(stream, ct, 4 + |ct|);
    ScanCorrectedEncrypted(stream, ct, 4 + |ct|);
  }

  /** `lsb1_encode` hides an encrypted payload that needs every component
      of the grid, and `lsb1_decode` as written then refuses it as too
      large, while the corrected decoder reads it back. */
  lemma Lsb1FullCarrier(width: nat, height: nat, comps: seq<byte>, ct: seq<byte>)
    requires 1 <= |ct| && |comps| == ComponentCount(width, height) == 8 * (4 + |ct|) < U32_LIMIT
    ensures !Lsb1TooLarge(width, height, |Envelope(ct)|) && 8 * |Envelope(ct)| <= |comps|
    ensures Scan(Lsb1Stream(Lsb1Embedded(comps, Envelope(ct))), |comps| / 8, true) == Failed(TooLarge(|ct|))
    ensures ScanCorrected(Lsb1Stream(Lsb1Embedded(comps, Envelope(ct))), |comps| / 8, true) == Extracted(Envelope(ct), |ct|)
  {
    EnvelopeLayout(ct);
    assert ComponentCount(width, height) == height * width * 3;
    assert Trunc32(height * width * 3) == |comps|;
    assert |comps| / 8 == 4 + |ct|;
    Lsb1RoundTrip(comps, Envelope(ct));
    FullCarrierRefused(Lsb1Stream(Lsb1Embedded(comps, Envelope(ct))), ct);
  }
}
