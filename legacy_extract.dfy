/** `extract_embedded_data` of src/core/extract.c, the older extractor: it
    never decrypts (the password and cipher only reach a `printf`), checks
    that the extension starts with '.', and then makes the same `strlen`
    check as src/core/extraction/process_extracted_data.c. Its decoders,
    `lsb1_decode` and `lsb4_decode`, are the modular ones with `encrypted`
    fixed to false: they stop only on the NUL rule. */
module LegacyExtraction {
  import opened Bytes
  import opened Outcomes
  import opened StopRule
  import opened PrepareEmbedding
  import opened ProcessExtracted

  /** `extract_embedded_data`, with the terminator check chosen by `rule`.
      Reading the byte after the file bytes needs it to be in the buffer. */
  function ExtractEmbeddedData(rule: Rule, buffer: seq<byte>, outputPath: CString): (r: Result<Written>)
    ensures |buffer| < 4 || |buffer| <= 4 + ReadBE32(buffer) ==> r == Err(OverRead)
    ensures 4 <= |buffer| && 4 + ReadBE32(buffer) < |buffer| && buffer[4 + ReadBE32(buffer)] != DOT ==>
      r == Err(InvalidExtension)
    ensures r.Ok? ==> 4 <= |buffer| && 4 + ReadBE32(buffer) < |buffer| && buffer[4 + ReadBE32(buffer)] == DOT
    ensures r.Ok? ==> 4 <= |buffer| && r == UnpackCorrected(buffer, outputPath)
  {
    if |buffer| < 4 then Err(OverRead)
    else
      var size := ReadBE32(buffer);
      if |buffer| <= 4 + size then Err(OverRead)
      else if buffer[4 + size] != DOT then Err(InvalidExtension)
      else UnpackBy(rule, buffer, outputPath)
  }

  /** The corrected older extractor reads back every unencrypted payload. */
  lemma ExtractRoundTrip(data: seq<byte>, path: CString, outputPath: CString)
    requires |data| < U32_LIMIT
    ensures ExtractEmbeddedData(Corrected, Payload(data, path), outputPath) == Ok(Written(outputPath + Extension(path), data))
  {
    PayloadLayout(data, path);
    UnpackPayload(data, path, outputPath);
    var blob := Payload(data, path);
    assert blob[4 + |data|] == blob[4 + |data|..|blob| - 1][0];
  }

  /** The older extractor as written: the '.' check passes on every payload,
      and the `strlen` check then accepts it exactly when its size header or
      file bytes hold a NUL. */
  lemma ExtractAsWritten(data: seq<byte>, path: CString, outputPath: CString)
    requires |data| < U32_LIMIT && |path| < U32_LIMIT
    ensures !NoNul(Payload(data, path)[..4 + |data|]) ==>
      ExtractEmbeddedData(AsWritten, Payload(data, path), outputPath) == Ok(Written(outputPath + Extension(path), data))
    ensures NoNul(Payload(data, path)[..4 + |data|]) ==>
      ExtractEmbeddedData(AsWritten, Payload(data, path), outputPath) == Err(ExtensionNotTerminated)
  {
    ExtractRoundTrip(data, path, outputPath);
    if NoNul(Payload(data, path)[..4 + |data|]) {
      UnpackPayloadRefused(data, path, outputPath);
    } else {
      UnpackPayloadAccepted(data, path, outputPath);
    }
  }
}
