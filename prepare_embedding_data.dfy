/** The payload the modular embedder hides, from
    src/core/embedding/prepare_embedding_data.c: the file size as a
    big-endian 32-bit number, the file bytes, the extension of the file name
    and a NUL; when encryption is on, that blob encrypted and prefixed by the
    ciphertext length, big-endian again. The same function is found in
    src/core/embed.c, where encryption is on when an algorithm other than
    ENC_NONE is chosen, rather than when a password is given. */
module PrepareEmbedding {
  import opened Bytes
  import opened Cipher

  /** The unencrypted blob, `htonl((uint32_t) file_size)` first. */
  function Payload(data: seq<byte>, path: CString): (blob: seq<byte>)
    ensures |blob| == 4 + |data| + |Extension(path)| + 1
  {
    BE32(Trunc32(|data|)) + data + Extension(path) + [0]
  }

  /** Where each part of the blob sits: the size header, the file bytes, the
      extension and the terminator. */
  lemma PayloadLayout(data: seq<byte>, path: CString)
    ensures ReadBE32(Payload(data, path)) == Trunc32(|data|)
    ensures Payload(data, path)[4..4 + |data|] == data
    ensures Payload(data, path)[4 + |data|..|Payload(data, path)| - 1] == Extension(path)
  {
    var ext := Extension(path);
    var tail := data + ext + [0];
    ReadBE32OfBE32(Trunc32(|data|), tail);
    assert Payload(data, path) == BE32(Trunc32(|data|)) + tail;
    assert tail[..|data|] == data;
    assert tail[|data|..|tail| - 1] == ext;
  }

  /** The terminator is the first NUL after the file bytes, since an
      extension holds none. */
  lemma PayloadTerminator(data: seq<byte>, path: CString)
    ensures FirstNul(Payload(data, path), 4 + |data|) == Some(|Payload(data, path)| - 1)
  {
    var blob := Payload(data, path);
    PayloadLayout(data, path);
    FirstNulAt(blob, 4 + |data|, |blob| - 1);
  }

  /** The outer frame of an encrypted payload: `htonl((uint32_t) encrypted_size)`
      and the ciphertext. */
  function Envelope(ct: seq<byte>): (blob: seq<byte>)
    ensures |blob| == 4 + |ct|
  {
    BE32(Trunc32(|ct|)) + ct
  }

  /** The outer frame reads back: its header is the ciphertext length, and
      the ciphertext follows it. */
  lemma EnvelopeLayout(ct: seq<byte>)
    requires |ct| < U32_LIMIT
    ensures ReadBE32(Envelope(ct)) == |ct| && Envelope(ct)[4..] == ct
  {
    ReadBE32OfBE32(|ct|, ct);
  }

  /** `prepare_embedding_data`: `file` is the content of the message file,
      `None` when it cannot be opened, and `encrypted` says whether
      encryption is on (a password in src/core/embedding, an algorithm other
      than ENC_NONE in src/core/embed.c). NULL is `None`. */
  function Prepare(file: Option<seq<byte>>, path: CString, encrypted: bool, suite: Suite): (r: Option<seq<byte>>)
    ensures file.None? ==> r.None?
    ensures file.Some? && !encrypted ==> r == Some(Payload(file.value, path))
    ensures file.Some? && encrypted ==> (r.None? <==> suite.encrypt(Payload(file.value, path)).None?)
    ensures file.Some? && encrypted && r.Some? ==> r.value == Envelope(suite.encrypt(Payload(file.value, path)).value)
  {
    match file
    case None => None
    case Some(data) =>
      var blob := Payload(data, path);
      if encrypted then
        match suite.encrypt(blob)
        case None => None
        case Some(ct) => Some(Envelope(ct))
      else Some(blob)
  }

  /** The size `prepare_embedding_data` reports: 4 + file size + extension
      length + 1 in the clear, 4 + ciphertext length when encrypted. */
  lemma PreparedSize(data: seq<byte>, path: CString, encrypted: bool, suite: Suite)
    requires Prepare(Some(data), path, encrypted, suite).Some?
    ensures !encrypted ==> |Prepare(Some(data), path, encrypted, suite).value| == 4 + |data| + |Extension(path)| + 1
    ensures encrypted ==> |Prepare(Some(data), path, encrypted, suite).value| == 4 + |suite.encrypt(Payload(data, path)).value|
  {
  }
}
