/** The block-cipher layer as the steganography code sees it. The OpenSSL
    calls behind it are not modelled: a `Suite` stands for `encrypt_data` and
    `decrypt_data` with one password, algorithm and chaining mode fixed, and
    `None` is their NULL failure result. */
module Cipher {
  import opened Bytes

  datatype Suite = Suite(encrypt: seq<byte> -> Option<seq<byte>>, decrypt: seq<byte> -> Option<seq<byte>>)

  /** Decryption undoes every successful encryption under the same settings. */
  ghost predicate Inverse(suite: Suite) {
    forall plain :: suite.encrypt(plain).Some? ==> suite.decrypt(suite.encrypt(plain).value) == Some(plain)
  }
}
