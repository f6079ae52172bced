/** The framing of src/core/embedding.c: sizes are `uint32_t` values copied
    in host byte order (little-endian here), and an unencrypted payload
    carries two headers, the outer one giving the length of everything after
    it. Its extractor checks every length against the bytes it holds. */
module DoubleHeaderFraming {
  import opened Bytes
  import opened Cipher
  import opened Outcomes
  import opened NativeFrame

  /** The inner blob: `(uint32_t) fileSize` in host order, the file bytes,
      the extension and a NUL. */
  function Inner(data: seq<byte>, path: CString): (blob: seq<byte>)
    ensures |blob| == 4 + |data| + |Extension(path)| + 1
  {
    LE32(Trunc32(|data|)) + data + Extension(path) + [0]
  }

  /** `prepare_embedding_data`: `None` when the file cannot be opened or the
      cipher fails; the outer header holds the ciphertext length when
      encrypting and the inner blob's length otherwise, both truncated to 32
      bits. */
  function Frame(file: Option<seq<byte>>, path: CString, encrypted: bool, suite: Suite): (r: Option<seq<byte>>)
    ensures file.None? ==> r.None?
    ensures file.Some? && !encrypted ==>
      r == Some(LE32(Trunc32(|Inner(file.value, path)|)) + Inner(file.value, path))
    ensures file.Some? && encrypted ==> (r.None? <==> suite.encrypt(Inner(file.value, path)).None?)
    ensures file.Some? && encrypted && r.Some? ==>
      var ct := suite.encrypt(Inner(file.value, path)).value;
      r.value == LE32(Trunc32(|ct|)) + ct
  {
    match file
    case None => None
    case Some(data) =>
      var inner := Inner(data, path);
      if encrypted then
        match suite.encrypt(inner)
        case None => None
        case Some(ct) => Some(LE32(Trunc32(|ct|)) + ct)
      else Some(LE32(Trunc32(|inner|)) + inner)
  }

  /** `sizeof(outputFileWithExtension)` */
  const PATH_BUFFER: nat := 512

  /** `snprintf(buf, size, "%s", s)` as stored: at most size - 1 characters. */
  function Snprintf(s: CString, size: nat): (r: CString)
    requires size >= 1
    ensures |r| < size && |r| <= |s| && r == s[..|r|]
    ensures |s| < size ==> r == s
  {
    if |s| < size then s else s[..size - 1]
  }

  /** `extract_embedded_data` on a buffer of `|buffer|` bytes. What it
      accepts is an outer header whose body (decrypted when encrypting) is
      an inner header giving the message size, the message, and an
      extension that starts with '.' and ends in a NUL; the file written is
      the message, under the output path with the extension appended, cut
      to the path buffer. */
  function Unframe(buffer: seq<byte>, outputPath: CString, encrypted: bool, suite: Suite): (r: Result<Written>)
    ensures |buffer| < 4 ==> r == Err(InvalidSize)
    ensures 4 <= |buffer| && ReadLE32(buffer) > |buffer| - 4 ==> r == Err(InvalidSize)
    ensures r.Ok? ==> |r.value.path| < PATH_BUFFER && 4 <= |buffer| && 4 + ReadLE32(buffer) <= |buffer|
    ensures r.Ok? && !encrypted ==> 4 + |r.value.contents| + 2 <= ReadLE32(buffer)
    ensures r.Ok? ==>
      && 4 <= |buffer| && 4 + ReadLE32(buffer) <= |buffer|
      && (var body := buffer[4..4 + ReadLE32(buffer)];
          var plain := if encrypted then suite.decrypt(body) else Some(body);
          && plain.Some? && 4 <= |plain.value| && ReadLE32(plain.value) == |r.value.contents|
          && exists ext: CString :: Framed(plain.value, 4, r.value.contents, ext)
                                   && r.value.path == Snprintf(outputPath + ext, PATH_BUFFER))
  {
    if |buffer| < 4 then Err(InvalidSize)
    else
      var outer := ReadLE32(buffer);
      if outer > |buffer| - 4 then Err(InvalidSize)
      else
        var embedded := buffer[4..4 + outer];
        var plain := if encrypted then suite.decrypt(embedded) else Some(embedded);
        match plain
        case None => Err(DecryptFailed)
        case Some(p) =>
          if |p| < 4 then Err(InvalidSize)
          else match SplitFrame(p, 4, ReadLE32(p))
            case Err(e) => Err(e)
            case Ok(parts) =>
              Ok(Written(Snprintf(outputPath + parts.ext, PATH_BUFFER), parts.contents))
  }

  /** The inner blob splits back into the file bytes and the extension. */
  lemma InnerSplits(data: seq<byte>, path: CString)
    requires |data| < U32_LIMIT
    ensures ReadLE32(Inner(data, path)) == |data|
    ensures SplitFrame(Inner(data, path), 4, |data|) == Ok(Parts(data, Extension(path)))
  {
    ReadLE32OfLE32(|data|, data + Extension(path) + [0]);
    assert Inner(data, path) == LE32(|data|) + (data + Extension(path) + [0]);
    SplitFrameOf(LE32(|data|), data, Extension(path), []);
    assert LE32(|data|) + data + Extension(path) + [0] + [] == Inner(data, path);
  }

  /** A frame whose outer header gives the length of its body: extraction
      unpacks what the body decrypts (or copies) to. */
  lemma UnframeOf(body: seq<byte>, plain: seq<byte>, parts: Parts, outputPath: CString, encrypted: bool, suite: Suite)
    requires |body| < U32_LIMIT && 4 <= |plain|
    requires (if encrypted then suite.decrypt(body) else Some(body)) == Some(plain)
    requires SplitFrame(plain, 4, ReadLE32(plain)) == Ok(parts)
    ensures Unframe(LE32(|body|) + body, outputPath, encrypted, suite)
      == Ok(Written(Snprintf(outputPath + parts.ext, PATH_BUFFER), parts.contents))
  {
    OuterHeader(body);
  }

  /** The outer header of a frame reads back as the body's length, and the
      body follows it. */
  lemma OuterHeader(body: seq<byte>)
    requires |body| < U32_LIMIT
    ensures ReadLE32(LE32(|body|) + body) == |body|
    ensures (LE32(|body|) + body)[4..4 + |body|] == body
  {
    ReadLE32OfLE32(|body|, body);
    var header := LE32(|body|);
    assert (header + body)[|header|..] == body;
  }

  /** Extraction reads back every file `prepare_embedding_data` frames, with
      or without encryption, provided the lengths fit their 32-bit headers
      and decryption undoes encryption; the output path is the given one with
      the extension appended, cut to the path buffer. */
  lemma RoundTrip(data: seq<byte>, path: CString, outputPath: CString, encrypted: bool, suite: Suite)
    requires |Inner(data, path)| < U32_LIMIT && Frame(Some(data), path, encrypted, suite).Some?
    requires encrypted ==> Inverse(suite) && |suite.encrypt(Inner(data, path)).value| < U32_LIMIT
    ensures Unframe(Frame(Some(data), path, encrypted, suite).value, outputPath, encrypted, suite)
      == Ok(Written(Snprintf(outputPath + Extension(path), PATH_BUFFER), data))
  {
    var inner := Inner(data, path);
    var body := if encrypted then suite.encrypt(inner).value else inner;
    InnerSplits(data, path);
    UnframeOf(body, inner, Parts(data, Extension(path)), outputPath, encrypted, suite);
  }
}
