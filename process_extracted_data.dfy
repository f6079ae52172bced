/** What the modular extractor does with the bytes a decoder returns, from
    src/core/extraction/process_extracted_data.c: read the big-endian size,
    decrypt when a password is given, find the extension after the file
    bytes and write the file bytes to the output path with that extension
    appended. The file system is not modelled: the outcome is the file that
    would be written. */
module ProcessExtracted {
  import opened Bytes
  import opened Cipher
  import opened Outcomes
  import opened StopRule
  import opened PrepareEmbedding

  /** `strlen(s)`; running off the end of s is an over-read. */
  function StrLen(s: seq<byte>): (r: Result<nat>)
    ensures r.Ok? ==> r.value < |s| && s[r.value] == 0 && NoNul(s[..r.value])
    ensures r.Err? ==> r == Err(OverRead) && NoNul(s)
  {
    match FirstNul(s, 0)
    case Some(k) =>
      assert s[..k] == s[0..k];
      Ok(k)
    case None =>
      assert s == s[0..];
      Err(OverRead)
  }

  /** `strnlen(s + from, max)`: the bytes from `from` on up to the first NUL,
      but no more than `max`; needing a byte beyond the end of s is an
      over-read. */
  function StrnLen(s: seq<byte>, from: nat, max: nat): (r: Result<nat>)
    ensures r.Ok? ==> r.value <= max && forall i :: from <= i < from + r.value ==> i < |s| && s[i] != 0
    ensures r.Ok? && r.value < max ==> from + r.value < |s| && s[from + r.value] == 0
    ensures r.Err? ==> r == Err(OverRead) && |s| < from + max && forall i :: from <= i < |s| ==> s[i] != 0
    decreases max
  {
    if max == 0 then Ok(0)
    else if from >= |s| then Err(OverRead)
    else if s[from] == 0 then Ok(0)
    else
      var rest := StrnLen(s, from + 1, max - 1);
      if rest.Err? then rest else Ok(rest.value + 1)
  }

  /** The last steps of `process_extracted_data`, on the buffer that holds
      the plain payload, as written: the longest extension allowed is
      `strlen(buffer) - (4 + size)` in `size_t` arithmetic, and an extension
      that long counts as unterminated. Whenever this accepts, it agrees with
      the corrected version. */
  function Unpack(final: seq<byte>, outputPath: CString): (r: Result<Written>)
    requires 4 <= |final|
    ensures r.Ok? ==> r == UnpackCorrected(final, outputPath)
  {
    var size := ReadBE32(final);
    match StrLen(final)
    case Err(e) => Err(e)
    case Ok(len) =>
      var maxExt := SizeSub(len, 4 + size);
      match StrnLen(final, 4 + size, maxExt)
      case Err(e) => Err(e)
      case Ok(extLen) =>
        if extLen == maxExt then Err(ExtensionNotTerminated)
        else
          FirstNulAt(final, 4 + size, 4 + size + extLen);
          Ok(Written(outputPath + final[4 + size..4 + size + extLen], final[4..4 + size]))
  }

  /** The corrected last steps: the extension runs from the end of the file
      bytes to the next NUL, and a buffer without one is rejected. What is
      accepted is a buffer that begins with a complete payload. */
  function UnpackCorrected(final: seq<byte>, outputPath: CString): (r: Result<Written>)
    requires 4 <= |final|
    ensures r.Ok? ==> |outputPath| <= |r.value.path| && r.value.path[..|outputPath|] == outputPath
    ensures r.Ok? ==>
      var ext := r.value.path[|outputPath|..];
      var n := 4 + |r.value.contents| + |ext| + 1;
      && NoNul(ext) && |r.value.contents| < U32_LIMIT && n <= |final|
      && final[..n] == BE32(|r.value.contents|) + r.value.contents + ext + [0]
  {
    var size := ReadBE32(final);
    if |final| < 4 + size then Err(ExtensionNotTerminated)
    else match FirstNul(final, 4 + size)
      case None => Err(ExtensionNotTerminated)
      case Some(end) =>
        var contents, ext := final[4..4 + size], final[4 + size..end];
        BE32OfReadBE32(final);
        assert final[..end + 1] == final[..end] + [final[end]];
        assert final[..end] == final[..4] + contents + ext;
        assert (outputPath + ext)[|outputPath|..] == ext;
        Ok(Written(outputPath + ext, contents))
  }

  /** Either version of the last steps. */
  function UnpackBy(rule: Rule, final: seq<byte>, outputPath: CString): (r: Result<Written>)
    requires 4 <= |final|
    ensures r.Ok? ==> r == UnpackCorrected(final, outputPath)
  {
    match rule
    case AsWritten => Unpack(final, outputPath)
    case Corrected => UnpackCorrected(final, outputPath)
  }

  /** `process_extracted_data` on the `buffer` a decoder returned, with the
      extraction step chosen by `rule`. When `encrypted` (a password was given), the `size` bytes
      after the header are decrypted and the plaintext is unpacked instead. */
  function Process(rule: Rule, buffer: seq<byte>, outputPath: CString, encrypted: bool, suite: Suite): (r: Result<Written>)
    ensures |buffer| < 4 ==> r == Err(OverRead)
    ensures encrypted && 4 <= |buffer| && |buffer| < 4 + ReadBE32(buffer) ==> r == Err(OverRead)
    ensures encrypted && 4 <= |buffer| && 4 + ReadBE32(buffer) <= |buffer| ==>
      (suite.decrypt(buffer[4..4 + ReadBE32(buffer)]).None? ==> r == Err(DecryptFailed))
    ensures r.Ok? && !encrypted ==> 4 <= |buffer| && r == UnpackCorrected(buffer, outputPath)
    ensures r.Ok? && encrypted ==>
      && 4 <= |buffer| && 4 + ReadBE32(buffer) <= |buffer|
      && (var plain := suite.decrypt(buffer[4..4 + ReadBE32(buffer)]);
          plain.Some? && 4 <= |plain.value| && r == UnpackCorrected(plain.value, outputPath))
  {
    if |buffer| < 4 then Err(OverRead)
    else if !encrypted then UnpackBy(rule, buffer, outputPath)
    else
      var size := ReadBE32(buffer);
      if |buffer| < 4 + size then Err(OverRead)
      else match suite.decrypt(buffer[4..4 + size])
        case None => Err(DecryptFailed)
        case Some(plain) => if |plain| < 4 then Err(OverRead) else UnpackBy(rule, plain, outputPath)
  }

  /** The corrected last steps read back every payload the embedder builds. */
  lemma UnpackPayload(data: seq<byte>, path: CString, outputPath: CString)
    requires |data| < U32_LIMIT
    ensures UnpackCorrected(Payload(data, path), outputPath) == Ok(Written(outputPath + Extension(path), data))
  {
    PayloadLayout(data, path);
    PayloadTerminator(data, path);
  }

  /** `strnlen` that meets a NUL before its bound stops there. */
  lemma StrnLenToNul(s: seq<byte>, from: nat, end: nat, max: nat)
    requires FirstNul(s, from) == Some(end) && end - from < max
    ensures StrnLen(s, from, max) == Ok(end - from)
  {
    forall j | from <= j < end
      ensures s[j] != 0
    {
      assert s[j] == s[from..end][j - from];
    }
  }

  /** `strnlen` over `max` bytes none of which is NUL returns `max`. */
  lemma StrnLenToBound(s: seq<byte>, from: nat, to: nat)
    requires from <= to <= |s| && NoNul(s[from..to])
    ensures StrnLen(s, from, to - from) == Ok(to - from)
  {
    forall j | from <= j < to
      ensures s[j] != 0
    {
      assert s[j] == s[from..to][j - from];
    }
  }

  /** `strlen` of a buffer with no NUL before `start` stops at the first
      NUL from `start` on. */
  lemma StrLenPast(s: seq<byte>, start: nat, end: nat)
    requires start <= |s| && NoNul(s[..start]) && FirstNul(s, start) == Some(end)
    ensures StrLen(s) == Ok(end)
  {
    forall i | 0 <= i < end
      ensures s[i] != 0
    {
      if i < start {
        assert s[i] == s[..start][i];
      } else {
        assert s[i] == s[start..end][i - start];
      }
    }
    FirstNulAt(s, 0, end);
  }

  /** The check as written refuses a buffer whose size header and file
      bytes hold no NUL: `strlen` then runs on to the end of the extension,
      and the bound it gives `strnlen` is the extension's own length. */
  lemma UnpackAsWrittenRefuses(final: seq<byte>, outputPath: CString, start: nat, end: nat)
    requires 4 <= |final| < SIZE_T_LIMIT && start == 4 + ReadBE32(final)
    requires FirstNul(final, start) == Some(end) && NoNul(final[..start])
    ensures Unpack(final, outputPath) == Err(ExtensionNotTerminated)
  {
    StrLenPast(final, start, end);
    StrnLenToBound(final, start, end);
  }

  /** `strlen` of a buffer with a NUL before `start` stops before `start`. */
  lemma StrLenShort(s: seq<byte>, start: nat)
    requires start <= |s| && !NoNul(s[..start])
    ensures StrLen(s).Ok? && StrLen(s).value < start
  {
    var j :| 0 <= j < start && s[..start][j] == 0;
    assert s[j] == 0;
  }

  /** The check as written accepts a buffer with a NUL in its size header
      or file bytes whose extension is terminated: `strlen` stops short of
      the extension, and the bound wraps around to nearly SIZE_MAX. */
  lemma UnpackAsWrittenAccepts(final: seq<byte>, outputPath: CString, start: nat, end: nat)
    requires 4 <= |final| < SIZE_T_LIMIT && start == 4 + ReadBE32(final)
    requires FirstNul(final, start) == Some(end) && !NoNul(final[..start])
    ensures Unpack(final, outputPath) == UnpackCorrected(final, outputPath)
  {
    StrLenShort(final, start);
    StrnLenToNul(final, start, end, SizeSub(StrLen(final).value, start));
  }

  /** The last steps as written refuse a payload whose size header and
      file bytes hold no NUL: `strlen` runs on to the terminator, and the
      allowed length becomes the extension's own. */
  lemma UnpackPayloadRefused(data: seq<byte>, path: CString, outputPath: CString)
    requires |data| < U32_LIMIT && |path| < U32_LIMIT
    requires NoNul(Payload(data, path)[..4 + |data|])
    ensures Unpack(Payload(data, path), outputPath) == Err(ExtensionNotTerminated)
  {
    var blob := Payload(data, path);
    PayloadLayout(data, path);
    PayloadTerminator(data, path);
    UnpackAsWrittenRefuses(blob, outputPath, 4 + |data|, |blob| - 1);
  }

  /** The last steps as written read back a payload with a NUL in its size
      header or file bytes. */
  lemma UnpackPayloadAccepted(data: seq<byte>, path: CString, outputPath: CString)
    requires |data| < U32_LIMIT && |path| < U32_LIMIT
    requires !NoNul(Payload(data, path)[..4 + |data|])
    ensures Unpack(Payload(data, path), outputPath) == Ok(Written(outputPath + Extension(path), data))
  {
    var blob := Payload(data, path);
    PayloadLayout(data, path);
    PayloadTerminator(data, path);
    UnpackPayload(data, path, outputPath);
    UnpackAsWrittenAccepts(blob, outputPath, 4 + |data|, |blob| - 1);
  }

  /** For files under 16 MiB the first byte of the size header is NUL, so
      the last steps as written read back what the embedder built. */
  lemma UnpackSmallPayload(data: seq<byte>, path: CString, outputPath: CString)
    requires |data| < 0x100_0000 && |path| < U32_LIMIT
    ensures Unpack(Payload(data, path), outputPath) == Ok(Written(outputPath + Extension(path), data))
  {
    BE32LeadingZero(|data|);
    assert Payload(data, path)[..4 + |data|][0] == 0;
    UnpackPayloadAccepted(data, path, outputPath);
  }

  /** The size header of a 0x01010101-byte file holds no NUL. */
  lemma HeaderWithoutNul()
    ensures BE32(0x01010101) == [1, 1, 1, 1]
  {
    Pow256Widths();
    assert BigEndian(0x01, 1) == [] + [ToByte(1)];
    assert BigEndian(0x0101, 2) == BigEndian(0x01, 1) + [ToByte(1)];
    assert BigEndian(0x010101, 3) == BigEndian(0x0101, 2) + [ToByte(1)];
    assert BigEndian(0x01010101, 4) == BigEndian(0x010101, 3) + [ToByte(1)];
  }

  /** A file of 0x01010101 bytes none of which is NUL is refused by the last
      steps as written, and read back by the corrected ones. */
  lemma LargeFileRefused(data: seq<byte>, path: CString, outputPath: CString)
    requires |data| == 0x01010101 && NoNul(data) && |path| < U32_LIMIT
    ensures Unpack(Payload(data, path), outputPath) == Err(ExtensionNotTerminated)
    ensures UnpackCorrected(Payload(data, path), outputPath) == Ok(Written(outputPath + Extension(path), data))
  {
    HeaderWithoutNul();
    var blob := Payload(data, path);
    assert blob[..4 + |data|] == [1, 1, 1, 1] + data;
    UnpackPayloadRefused(data, path, outputPath);
    UnpackPayload(data, path, outputPath);
  }

  /** The unencrypted blob, or the plaintext inside the outer frame, is
      what the last steps see. */
  lemma ProcessUnpacks(rule: Rule, data: seq<byte>, path: CString, outputPath: CString, encrypted: bool, suite: Suite)
    requires Prepare(Some(data), path, encrypted, suite).Some?
    requires encrypted ==> Inverse(suite) && |suite.encrypt(Payload(data, path)).value| < U32_LIMIT
    ensures Process(rule, Prepare(Some(data), path, encrypted, suite).value, outputPath, encrypted, suite)
      == UnpackBy(rule, Payload(data, path), outputPath)
  {
    if encrypted {
      var ct := suite.encrypt(Payload(data, path)).value;
      EnvelopeLayout(ct);
      assert Envelope(ct)[4..4 + |ct|] == ct;
    }
  }

  /** The corrected extraction reads back every file the embedder prepares,
      with or without a password, provided decryption undoes encryption. */
  lemma ProcessRoundTrip(data: seq<byte>, path: CString, outputPath: CString, encrypted: bool, suite: Suite)
    requires |data| < U32_LIMIT && Prepare(Some(data), path, encrypted, suite).Some?
    requires encrypted ==> Inverse(suite) && |suite.encrypt(Payload(data, path)).value| < U32_LIMIT
    ensures Process(Corrected, Prepare(Some(data), path, encrypted, suite).value, outputPath, encrypted, suite)
      == Ok(Written(outputPath + Extension(path), data))
  {
    ProcessUnpacks(Corrected, data, path, outputPath, encrypted, suite);
    UnpackPayload(data, path, outputPath);
  }

  /** The extraction as written reads back a prepared file exactly when the
      size header or the file bytes hold a NUL, and refuses it otherwise. */
  lemma ProcessAsWritten(data: seq<byte>, path: CString, outputPath: CString, encrypted: bool, suite: Suite)
    requires |data| < U32_LIMIT && |path| < U32_LIMIT && Prepare(Some(data), path, encrypted, suite).Some?
    requires encrypted ==> Inverse(suite) && |suite.encrypt(Payload(data, path)).value| < U32_LIMIT
    ensures !NoNul(Payload(data, path)[..4 + |data|]) ==>
      Process(AsWritten, Prepare(Some(data), path, encrypted, suite).value, outputPath, encrypted, suite)
        == Ok(Written(outputPath + Extension(path), data))
    ensures NoNul(Payload(data, path)[..4 + |data|]) ==>
      Process(AsWritten, Prepare(Some(data), path, encrypted, suite).value, outputPath, encrypted, suite)
        == Err(ExtensionNotTerminated)
  {
    ProcessUnpacks(AsWritten, data, path, outputPath, encrypted, suite);
    if NoNul(Payload(data, path)[..4 + |data|]) {
      UnpackPayloadRefused(data, path, outputPath);
    } else {
      UnpackPayloadAccepted(data, path, outputPath);
    }
  }

  /** A buffer cut off right after the file bytes, whose last byte is NUL,
      sends `strnlen` past its end: `strlen` stops before the extension would
      start, so the bound wraps around, and no byte is left to read. */
  lemma UnpackTruncated(buffer: seq<byte>, outputPath: CString)
    requires 4 <= |buffer| < SIZE_T_LIMIT && |buffer| == 4 + ReadBE32(buffer) && buffer[|buffer| - 1] == 0
    ensures Unpack(buffer, outputPath) == Err(OverRead)
  {
    var len := StrLen(buffer);
    assert len.Ok? && len.value <= |buffer| - 1;
    var maxExt := SizeSub(len.value, |buffer|);
    assert maxExt > 0;
    var extLen := StrnLen(buffer, |buffer|, maxExt);
    assert extLen.Err?;
  }
}
