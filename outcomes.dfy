/** What an extraction ends with: the file it writes, or the reason it gives up. */
module Outcomes {
  import opened Bytes

  datatype Failure =
    | OverRead               // the C code would read beyond the bytes it holds
    | DecryptFailed          // the cipher reported an error
    | ExtensionNotTerminated // the terminator check on the extension failed
    | InvalidExtension       // the extension is empty or does not start with '.'
    | InvalidSize            // a length header does not fit the bytes it describes
    | MissingExtension       // the payload ends where the extension should start

  datatype Result<T> = Ok(value: T) | Err(failure: Failure)

  /** The file an extraction creates: its path and its contents. */
  datatype Written = Written(path: seq<byte>, contents: seq<byte>)
}
