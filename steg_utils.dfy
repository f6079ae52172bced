/** The framing of src/utils/steg_utils.c: the file size is a `size_t`
    copied in host byte order (8 little-endian bytes on a 64-bit host),
    there is no encryption, and the extractor writes to the output path as
    given, without the recovered extension. */
module SizeTFraming {
  import opened Bytes
  import opened Outcomes
  import opened NativeFrame

  /** `sizeof(size_t)` on a 64-bit host. */
  const SIZE_T_BYTES: nat := 8

  /** `prepare_embedding_data`: the size, the file bytes, the extension and
      a NUL, 8 + size + extension length + 1 bytes in all; `None` when the
      file cannot be opened. A file's size always fits a `size_t`. */
  function Frame(file: Option<seq<byte>>, path: CString): (r: Option<seq<byte>>)
    requires file.Some? ==> |file.value| < SIZE_T_LIMIT
    ensures file.None? <==> r.None?
    ensures r.Some? ==> |r.value| == SIZE_T_BYTES + |file.value| + |Extension(path)| + 1
    ensures r.Some? ==> r.value[SIZE_T_BYTES..] == file.value + Extension(path) + [0]
  {
    match file
    case None => None
    case Some(data) => Some(LE64(|data|) + data + Extension(path) + [0])
  }

  /** `extract_embedded_data`: the file it writes, or why it prints an
      error and returns. */
  function Unframe(buffer: seq<byte>, outputPath: CString): (r: Result<Written>)
    ensures |buffer| < SIZE_T_BYTES ==> r == Err(InvalidSize)
    ensures SIZE_T_BYTES <= |buffer| && ReadLE64(buffer) > |buffer| - SIZE_T_BYTES ==> r == Err(InvalidSize)
    ensures SIZE_T_BYTES <= |buffer| && ReadLE64(buffer) == |buffer| - SIZE_T_BYTES ==> r == Err(MissingExtension)
    ensures r.Ok? ==> r.value.path == outputPath
    ensures r.Ok? ==>
      && SIZE_T_BYTES <= |buffer| && |r.value.contents| == ReadLE64(buffer) <= |buffer| - SIZE_T_BYTES
      && buffer[SIZE_T_BYTES..SIZE_T_BYTES + |r.value.contents|] == r.value.contents
    ensures r.Ok? ==> exists ext: CString :: Framed(buffer, SIZE_T_BYTES, r.value.contents, ext)
  {
    if |buffer| < SIZE_T_BYTES then Err(InvalidSize)
    else match SplitFrame(buffer, SIZE_T_BYTES, ReadLE64(buffer))
      case Err(e) => Err(e)
      case Ok(parts) =>
        assert buffer[SIZE_T_BYTES..SIZE_T_BYTES + |parts.contents|] == parts.contents;
        assert Framed(buffer, SIZE_T_BYTES, parts.contents, parts.ext);
        Ok(Written(outputPath, parts.contents))
  }

  /** Extraction reads back every file that preparation frames. */
  lemma RoundTrip(data: seq<byte>, path: CString, outputPath: CString)
    requires |data| < SIZE_T_LIMIT
    ensures Unframe(Frame(Some(data), path).value, outputPath) == Ok(Written(outputPath, data))
  {
    var framed := Frame(Some(data), path).value;
    ReadLE64OfLE64(|data|, data + Extension(path) + [0]);
    assert framed == LE64(|data|) + (data + Extension(path) + [0]);
    SplitFrameOf(LE64(|data|), data, Extension(path), []);
    assert LE64(|data|) + data + Extension(path) + [0] + [] == framed;
  }
}
