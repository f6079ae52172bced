/** The parse shared by src/core/embedding.c and src/utils/steg_utils.c once
    the message size is read from a native header: the message bytes must
    fit the buffer, at least one byte must follow them, and the NUL-terminated
    string there is the extension, which must be non-empty and start with
    '.'. */
module NativeFrame {
  import opened Bytes
  import opened Outcomes

  /** The message bytes and the extension, without its terminator. */
  datatype Parts = Parts(contents: seq<byte>, ext: CString)

  /** `plain` holds, after a header of `headerLen` bytes, the message
      `contents` and the extension `ext`, which starts with '.', then a NUL. */
  predicate Framed(plain: seq<byte>, headerLen: nat, contents: seq<byte>, ext: CString) {
    && |ext| >= 1 && ext[0] == DOT
    && headerLen + |contents| + |ext| + 1 <= |plain|
    && plain[headerLen..headerLen + |contents| + |ext| + 1] == contents + ext + [0]
  }

  /** Splits `plain` after a header of `headerLen` bytes that gave `msgSize`.
      What is accepted is a message of that size followed by a terminated
      extension that starts with '.'. */
  function SplitFrame(plain: seq<byte>, headerLen: nat, msgSize: nat): (r: Result<Parts>)
    requires headerLen <= |plain|
    ensures msgSize > |plain| - headerLen ==> r == Err(InvalidSize)
    ensures msgSize <= |plain| - headerLen && headerLen + msgSize == |plain| ==> r == Err(MissingExtension)
    ensures r.Ok? ==>
      var n := headerLen + msgSize + |r.value.ext| + 1;
      && |r.value.contents| == msgSize && n <= |plain|
      && plain[headerLen..n] == r.value.contents + r.value.ext + [0]
      && |r.value.ext| >= 1 && r.value.ext[0] == DOT
  {
    if msgSize > |plain| - headerLen then Err(InvalidSize)
    else
      var offset := headerLen + msgSize;
      if offset >= |plain| then Err(MissingExtension)
      else match FirstNul(plain, offset)
        case None => Err(OverRead)
        case Some(end) =>
          var ext: CString := plain[offset..end];
          if |ext| == 0 || ext[0] != DOT then Err(InvalidExtension)
          else
            assert plain[headerLen..end + 1] == plain[headerLen..offset] + ext + [0];
            Ok(Parts(plain[headerLen..offset], ext))
  }

  /** A message and an extension that starts with '.', framed behind any
      header, split back into the two. */
  lemma SplitFrameOf(header: seq<byte>, data: seq<byte>, ext: CString, rest: seq<byte>)
    requires |ext| >= 1 && ext[0] == DOT
    ensures SplitFrame(header + data + ext + [0] + rest, |header|, |data|) == Ok(Parts(data, ext))
  {
    var plain := header + data + ext + [0] + rest;
    var offset := |header| + |data|;
    var end := offset + |ext|;
    assert plain[offset..end] == ext;
    assert plain[|header|..offset] == data;
    FirstNulAt(plain, offset, end);
  }
}
