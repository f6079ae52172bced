/** The pixel grid of a 24-bit bitmap: `height` rows of `width` pixels, each
    pixel stored blue, green, red. The model keeps the components in one array
    in row-major order, so the colour k of pixel (i, j) is component
    3 * (i * width + j) + k. */
module Bitmap {
  import opened Bytes

  const BLUE: nat := 0
  const GREEN: nat := 1
  const RED: nat := 2

  /** The number of colour components of a width x height grid. */
  function ComponentCount(width: nat, height: nat): nat {
    width * height * 3
  }

  class Image {
    const width: nat
    const height: nat
    const pixels: array<byte>

    /** One component per colour of every pixel; the header fields are 32-bit. */
    ghost predicate Valid() {
      pixels.Length == ComponentCount(width, height) && width < U32_LIMIT && height < U32_LIMIT
    }

    constructor (w: nat, h: nat, components: seq<byte>)
      requires |components| == ComponentCount(w, h) && w < U32_LIMIT && h < U32_LIMIT
      ensures Valid() && width == w && height == h
      ensures fresh(pixels) && pixels[..] == components
    {
      width := w;
      height := h;
      pixels := new byte[|components|](k requires 0 <= k < |components| => components[k]);
    }
  }

  /** Where colour k of pixel (i, j) lives in the component array. */
  function ComponentIndex(width: nat, i: nat, j: nat, k: nat): nat {
    3 * (i * width + j) + k
  }

  lemma ProductPositive(width: nat, height: nat)
    requires ComponentCount(width, height) > 0
    ensures width > 0 && height > 0 && ComponentCount(width, height) == (width * 3) * height
  {
  }

  lemma DivMod(x: nat, d: nat)
    requires d > 0
    ensures 0 <= x / d && x == d * (x / d) + x % d && x % d < d
  {
  }

  lemma RowBound(w3: nat, i: nat, height: nat, idx: nat)
    requires w3 > 0 && w3 * i <= idx < w3 * height
    ensures i < height
  {
    if i >= height {
      MulMonotone(w3, height, i);
      assert false;
    }
  }

  lemma MulMonotone(a: nat, b: nat, c: nat)
    requires b <= c
    ensures a * b <= a * c
  {
  }

  lemma ExpandRow(width: nat, i: nat, j: nat, k: nat)
    ensures 3 * (i * width + j) + k == (width * 3) * i + (3 * j + k)
  {
  }

  /** `idx / (width * 3)`: the row the LSBI codecs compute for component idx. */
  function Row(width: nat, idx: nat): nat
    requires width > 0
  {
    DivMod(idx, width * 3);
    idx / (width * 3)
  }

  /** `(idx % (width * 3)) / 3`: the column within that row. */
  function Column(width: nat, idx: nat): nat
    requires width > 0
  {
    (idx % (width * 3)) / 3
  }

  /** `(idx % (width * 3)) % 3`: the colour within that pixel. */
  function Colour(width: nat, idx: nat): nat
    requires width > 0
  {
    (idx % (width * 3)) % 3
  }

  /** The row, column and colour the LSBI codecs compute from a component
      index address that very component, inside the grid, and the colour is
      `idx % 3`. */
  lemma RowMajor(width: nat, height: nat, idx: nat)
    requires idx < ComponentCount(width, height)
    ensures width > 0
    ensures Row(width, idx) < height && Column(width, idx) < width && Colour(width, idx) == idx % 3
    ensures ComponentIndex(width, Row(width, idx), Column(width, idx), Colour(width, idx)) == idx
  {
    ProductPositive(width, height);
    var w3 := width * 3;
    var i, rem := Row(width, idx), idx % w3;
    DivMod(idx, w3);
    RowBound(w3, i, height, idx);
    var j, k := rem / 3, rem % 3;
    DivMod(rem, 3);
    ExpandRow(width, i, j, k);
    ThirdOf(idx, i * width + j, k);
  }

  lemma ThirdOf(x: nat, q: nat, k: nat)
    requires x == 3 * q + k && k < 3
    ensures x % 3 == k
  {
  }

}
