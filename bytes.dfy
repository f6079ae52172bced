/** Byte-level vocabulary shared by the whole model: bytes, optional values,
    the fixed-width integers the C code truncates to, the two byte orders its
    length headers use, and NUL-terminated strings. */
module Bytes {

  type byte = bv8

  datatype Option<T> = None | Some(value: T)

  /** One more than UINT32_MAX. */
  const U32_LIMIT: nat := 0x1_0000_0000
  /** One more than SIZE_MAX on a 64-bit host. */
  const SIZE_T_LIMIT: nat := 0x1_0000_0000_0000_0000

  function Nat(b: byte): (n: nat)
    ensures n < 256
  {
    b as nat
  }

  lemma IntByteInt(x: nat)
    requires x < 256
    ensures Nat(x as bv8) == x
  {
  }

  lemma NatInjective(x: byte, y: byte)
    requires Nat(x) == Nat(y)
    ensures x == y
  {
  }

  function ToByte(x: nat): (b: byte)
    requires x < 256
    ensures Nat(b) == x
  {
    IntByteInt(x);
    x as bv8
  }

  /** `(uint32_t) n`: the value modulo 2^32. */
  function Trunc32(n: nat): (r: nat)
    ensures r < U32_LIMIT && r <= n
    ensures n < U32_LIMIT ==> r == n
  {
    n % U32_LIMIT
  }

  /** `a - b` on `size_t` operands: below zero it wraps around to SIZE_MAX + 1 + a - b. */
  function SizeSub(a: nat, b: nat): (r: nat)
    ensures r < SIZE_T_LIMIT
    ensures b <= a < b + SIZE_T_LIMIT ==> r == a - b
    ensures a < b <= a + SIZE_T_LIMIT ==> r == SIZE_T_LIMIT + a - b
  {
    (a - b) % SIZE_T_LIMIT
  }

  function Pow256(k: nat): (p: nat)
    ensures p >= 1
  {
    if k == 0 then 1 else 256 * Pow256(k - 1)
  }

  lemma Pow256Widths()
    ensures Pow256(4) == U32_LIMIT && Pow256(8) == SIZE_T_LIMIT
  {
  }

  // ---------------------------------------------------------------------
  // Byte orders

  /** The k bytes of n, most significant first (network order). */
  function BigEndian(n: nat, k: nat): (s: seq<byte>)
    requires n < Pow256(k)
    ensures |s| == k
  {
    if k == 0 then [] else BigEndian(n / 256, k - 1) + [ToByte(n % 256)]
  }

  /** The number whose big-endian bytes are s. */
  function BigEndianValue(s: seq<byte>): (n: nat)
    ensures n < Pow256(|s|)
  {
    if s == [] then 0 else BigEndianValue(s[..|s| - 1]) * 256 + Nat(s[|s| - 1])
  }

  /** The k bytes of n, least significant first (the host order of x86-64 and ARM64). */
  function LittleEndian(n: nat, k: nat): (s: seq<byte>)
    requires n < Pow256(k)
    ensures |s| == k
  {
    if k == 0 then [] else [ToByte(n % 256)] + LittleEndian(n / 256, k - 1)
  }

  /** The number whose little-endian bytes are s. */
  function LittleEndianValue(s: seq<byte>): (n: nat)
    ensures n < Pow256(|s|)
  {
    if s == [] then 0 else Nat(s[0]) + 256 * LittleEndianValue(s[1..])
  }

  lemma ShiftInDigit(v: nat, d: nat)
    requires d < 256
    ensures (v * 256 + d) / 256 == v && (v * 256 + d) % 256 == d
  {
  }

  lemma BigEndianValueSnoc(s: seq<byte>, b: byte)
    ensures BigEndianValue(s + [b]) == BigEndianValue(s) * 256 + Nat(b)
  {
    assert (s + [b])[..|s|] == s;
  }

  lemma LittleEndianValueCons(b: byte, s: seq<byte>)
    ensures LittleEndianValue([b] + s) == Nat(b) + 256 * LittleEndianValue(s)
  {
    assert ([b] + s)[1..] == s;
  }

  lemma {:induction false} BigEndianRoundTrip(n: nat, k: nat)
    requires n < Pow256(k)
    ensures BigEndianValue(BigEndian(n, k)) == n
  {
    if k > 0 {
      var q, d := n / 256, ToByte(n % 256);
      assert BigEndian(n, k) == BigEndian(q, k - 1) + [d];
      BigEndianValueSnoc(BigEndian(q, k - 1), d);
      BigEndianRoundTrip(q, k - 1);
      assert q * 256 + n % 256 == n;
    }
  }

  lemma ToByteOfNat(b: byte)
    ensures ToByte(Nat(b)) == b
  {
    NatInjective(ToByte(Nat(b)), b);
  }

  lemma BigEndianSnoc(v: nat, b: byte, k: nat)
    requires v < Pow256(k)
    ensures BigEndian(v * 256 + Nat(b), k + 1) == BigEndian(v, k) + [b]
  {
    var n := v * 256 + Nat(b);
    ShiftInDigit(v, Nat(b));
    assert n / 256 == v && n % 256 == Nat(b);
    assert BigEndian(n, k + 1) == BigEndian(n / 256, k) + [ToByte(n % 256)];
    ToByteOfNat(b);
  }

  lemma {:induction false} BigEndianCanonical(s: seq<byte>)
    ensures BigEndian(BigEndianValue(s), |s|) == s
  {
    if s != [] {
      var init, last := s[..|s| - 1], s[|s| - 1];
      var v := BigEndianValue(init);
      assert BigEndianValue(s) == v * 256 + Nat(last);
      BigEndianCanonical(init);
      BigEndianSnoc(v, last, |init|);
      assert s == init + [last];
    }
  }

  lemma {:induction false} LittleEndianRoundTrip(n: nat, k: nat)
    requires n < Pow256(k)
    ensures LittleEndianValue(LittleEndian(n, k)) == n
  {
    if k > 0 {
      var d := ToByte(n % 256);
      LittleEndianValueCons(d, LittleEndian(n / 256, k - 1));
      LittleEndianRoundTrip(n / 256, k - 1);
    }
  }

  lemma LittleEndianCons(b: byte, v: nat, k: nat)
    requires v < Pow256(k)
    ensures LittleEndian(Nat(b) + 256 * v, k + 1) == [b] + LittleEndian(v, k)
  {
    var n := Nat(b) + 256 * v;
    assert n == v * 256 + Nat(b);
    ShiftInDigit(v, Nat(b));
    assert n / 256 == v && n % 256 == Nat(b);
    assert LittleEndian(n, k + 1) == [ToByte(n % 256)] + LittleEndian(n / 256, k);
    ToByteOfNat(b);
  }

  lemma {:induction false} LittleEndianCanonical(s: seq<byte>)
    ensures LittleEndian(LittleEndianValue(s), |s|) == s
  {
    if s != [] {
      var first, rest := s[0], s[1..];
      var v := LittleEndianValue(rest);
      assert LittleEndianValue(s) == Nat(first) + 256 * v;
      LittleEndianCanonical(rest);
      LittleEndianCons(first, v, |rest|);
      assert s == [first] + rest;
    }
  }

  /** `htonl(n)` as stored in memory. */
  function BE32(n: nat): (s: seq<byte>)
    requires n < U32_LIMIT
    ensures |s| == 4
  {
    Pow256Widths();
    BigEndian(n, 4)
  }

  /** `ntohl` of the first four bytes of s. */
  function ReadBE32(s: seq<byte>): (n: nat)
    requires |s| >= 4
    ensures n < U32_LIMIT
  {
    Pow256Widths();
    BigEndianValue(s[..4])
  }

  /** A `uint32_t` stored natively. */
  function LE32(n: nat): (s: seq<byte>)
    requires n < U32_LIMIT
    ensures |s| == 4
  {
    Pow256Widths();
    LittleEndian(n, 4)
  }

  function ReadLE32(s: seq<byte>): (n: nat)
    requires |s| >= 4
    ensures n < U32_LIMIT
  {
    Pow256Widths();
    LittleEndianValue(s[..4])
  }

  /** A `size_t` stored natively. */
  function LE64(n: nat): (s: seq<byte>)
    requires n < SIZE_T_LIMIT
    ensures |s| == 8
  {
    Pow256Widths();
    LittleEndian(n, 8)
  }

  function ReadLE64(s: seq<byte>): (n: nat)
    requires |s| >= 8
    ensures n < SIZE_T_LIMIT
  {
    Pow256Widths();
    LittleEndianValue(s[..8])
  }

  lemma ReadBE32OfBE32(n: nat, rest: seq<byte>)
    requires n < U32_LIMIT
    ensures ReadBE32(BE32(n) + rest) == n
  {
    Pow256Widths();
    assert (BE32(n) + rest)[..4] == BigEndian(n, 4);
    BigEndianRoundTrip(n, 4);
  }

  /** `ntohl` only looks at the first four bytes. */
  lemma ReadBE32Prefix(s: seq<byte>, t: seq<byte>)
    requires |s| >= 4 && |t| >= 4 && s[..4] == t[..4]
    ensures ReadBE32(s) == ReadBE32(t)
  {
  }

  lemma BE32OfReadBE32(s: seq<byte>)
    requires |s| >= 4
    ensures BE32(ReadBE32(s)) == s[..4]
  {
    BigEndianCanonical(s[..4]);
  }

  lemma ReadLE32OfLE32(n: nat, rest: seq<byte>)
    requires n < U32_LIMIT
    ensures ReadLE32(LE32(n) + rest) == n
  {
    Pow256Widths();
    assert (LE32(n) + rest)[..4] == LittleEndian(n, 4);
    LittleEndianRoundTrip(n, 4);
  }

  lemma ReadLE64OfLE64(n: nat, rest: seq<byte>)
    requires n < SIZE_T_LIMIT
    ensures ReadLE64(LE64(n) + rest) == n
  {
    Pow256Widths();
    assert (LE64(n) + rest)[..8] == LittleEndian(n, 8);
    LittleEndianRoundTrip(n, 8);
  }

  lemma BigEndianValue4(s: seq<byte>)
    requires |s| == 4
    ensures BigEndianValue(s) == ((Nat(s[0]) * 256 + Nat(s[1])) * 256 + Nat(s[2])) * 256 + Nat(s[3])
  {
    assert s == s[..3] + [s[3]];
    BigEndianValueSnoc(s[..3], s[3]);
    assert s[..3] == s[..2] + [s[2]];
    BigEndianValueSnoc(s[..2], s[2]);
    assert s[..2] == s[..1] + [s[1]];
    BigEndianValueSnoc(s[..1], s[1]);
    assert s[..1] == [] + [s[0]];
    BigEndianValueSnoc([], s[0]);
  }

  /** A header's first byte is zero exactly when the value is below 2^24. */
  lemma BE32LeadingZero(n: nat)
    requires n < U32_LIMIT
    ensures BE32(n)[0] == 0 <==> n < 0x100_0000
  {
    Pow256Widths();
    var s := BE32(n);
    BigEndianRoundTrip(n, 4);
    BigEndianValue4(s);
    if s[0] == 0 {
      assert Nat(s[0]) == 0;
    } else {
      assert Nat(s[0]) >= 1;
    }
  }

  // ---------------------------------------------------------------------
  // C strings

  predicate NoNul(s: seq<byte>) {
    forall i :: 0 <= i < |s| ==> s[i] != 0
  }

  /** The characters of a NUL-terminated string, without its terminator. */
  type CString = s: seq<byte> | NoNul(s)

  const DOT: byte := 0x2E
  /** ".txt" */
  const DEFAULT_EXTENSION: CString := [0x2E, 0x74, 0x78, 0x74]

  /** `strrchr(s, c)`: the position of the last c in s. */
  function LastIndexOf(s: seq<byte>, c: byte): (r: Option<nat>)
    ensures r.Some? ==> r.value < |s| && s[r.value] == c && c !in s[r.value + 1..]
    ensures r.None? <==> c !in s
  {
    if s == [] then None
    else if s[|s| - 1] == c then Some(|s| - 1)
    else
      assert s == s[..|s| - 1] + [s[|s| - 1]];
      LastIndexOf(s[..|s| - 1], c)
  }

  /** The position of the first NUL at or after `from`: where `strlen` stops. */
  function FirstNul(s: seq<byte>, from: nat): (r: Option<nat>)
    ensures r.Some? ==> from <= r.value < |s| && s[r.value] == 0 && NoNul(s[from..r.value])
    ensures r.None? ==> from >= |s| || NoNul(s[from..])
    decreases |s| - from
  {
    if from >= |s| then None
    else if s[from] == 0 then Some(from)
    else
      var r := FirstNul(s, from + 1);
      assert r.Some? ==> s[from..r.value] == [s[from]] + s[from + 1..r.value];
      assert r.None? ==> s[from..] == [s[from]] + s[from + 1..];
      r
  }

  /** A NUL preceded by none from `from` on is the first one. */
  lemma FirstNulAt(s: seq<byte>, from: nat, k: nat)
    requires from <= k < |s| && s[k] == 0 && NoNul(s[from..k])
    ensures FirstNul(s, from) == Some(k)
  {
    forall j | from <= j < k
      ensures s[j] != 0
    {
      assert s[j] == s[from..k][j - from];
    }
    assert s[k] == s[from..][k - from];
  }

  /** The extension the embedder records for a file name: everything from the
      last '.' on, or ".txt" when the name has no '.' at all. */
  function Extension(path: CString): (ext: CString)
    ensures |ext| >= 1 && ext[0] == DOT
    ensures DOT !in path ==> ext == DEFAULT_EXTENSION
    ensures DOT in path ==> |ext| <= |path| && ext == path[|path| - |ext|..] && DOT !in ext[1..]
  {
    match LastIndexOf(path, DOT)
    case Some(i) => path[i..]
    case None => DEFAULT_EXTENSION
  }
}
