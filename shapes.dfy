/** A shape's material raster (engine/shape/Shape.hpp): a row-major image of
    material bytes, 0 meaning empty space, addressed by x + y * width. */
module Shapes {
  import opened Ids
  import opened Vectors

  type U8 = x: int | 0 <= x < 256

  /** c_MaterialEmptySpace */
  const MaterialEmptySpace: U8 := 0

  /** A Shape. Its signed distance field (m_sdf) is derived from `image` by
      Sdf.ShapeSdf.Create and is not stored here. */
  datatype Shape = Shape(width: nat, height: nat, image: seq<U8>, centerOffset: Vec2, id: Id)

  /** The image holds one byte per pixel (m_image.resize(compMul(m_size))). */
  predicate WellFormed(s: Shape) {
    |s.image| == s.width * s.height
  }

  /** Row-major flat index of pixel (x, y) in a raster `width` pixels wide. */
  function Flat(x: int, y: int, width: int): int {
    x + y * width
  }

  /** An in-bounds pixel has an in-bounds flat index. */
  lemma FlatInBounds(x: int, y: int, width: int, height: int)
    requires 0 <= x < width && 0 <= y < height
    ensures 0 <= Flat(x, y, width) < width * height
  {
    assert y * width <= (height - 1) * width by {
      MulMonotone(y, height - 1, width);
    }
    assert (height - 1) * width == height * width - width;
  }

  /** Distinct in-bounds pixels have distinct flat indices: the pixel is
      recovered from its index as (index % width, index / width). */
  lemma FlatCoordinates(x: int, y: int, width: int)
    requires 0 <= x < width && 0 <= y
    ensures Flat(x, y, width) % width == x
    ensures Flat(x, y, width) / width == y
  {
    var i := Flat(x, y, width);
    var q, r := i / width, i % width;
    assert i == q * width + r && 0 <= r < width;
    if q < y {
      MulMonotone(q + 1, y, width);
      assert false;
    } else if q > y {
      MulMonotone(y + 1, q, width);
      assert false;
    }
  }

  lemma FlatInjective(x1: int, y1: int, x2: int, y2: int, width: int)
    requires 0 <= x1 < width && 0 <= y1 && 0 <= x2 < width && 0 <= y2
    requires Flat(x1, y1, width) == Flat(x2, y2, width)
    ensures x1 == x2 && y1 == y2
  {
    FlatCoordinates(x1, y1, width);
    FlatCoordinates(x2, y2, width);
  }

  /** The index just past row y is the start of row y + 1; past the last row
      it is the raster's size. */
  lemma FlatNextRow(y: int, width: int, height: int)
    ensures Flat(width, y, width) == Flat(0, y + 1, width)
    ensures Flat(0, height, width) == width * height
  {
  }

  lemma MulMonotone(a: int, b: int, c: nat)
    requires a <= b
    ensures a * c <= b * c
  {
    assert b * c - a * c == (b - a) * c;
  }

  /** Shape::GetPixelAt: the material byte of pixel (x, y). */
  function GetPixelAt(s: Shape, x: nat, y: nat): U8
    requires WellFormed(s) && x < s.width && y < s.height
  {
    FlatInBounds(x, y, s.width, s.height);
    s.image[Flat(x, y, s.width)]
  }

  /** Every byte of the raster is the pixel its index decodes to: index i is
      pixel (i % width, i / width), so GetPixelAt reads the whole image, each
      byte at exactly one pixel. */
  lemma PixelAtIndex(s: Shape, i: int)
    requires WellFormed(s) && 0 <= i < |s.image|
    ensures s.width > 0 && 0 <= i % s.width < s.width && 0 <= i / s.width < s.height
    ensures GetPixelAt(s, i % s.width, i / s.width) == s.image[i]
  {
    var x, y := i % s.width, i / s.width;
    assert i == Flat(x, y, s.width);
    if y >= s.height {
      MulMonotone(s.height, y, s.width);
      assert false;
    }
  }

  /** Shape::SetId */
  function SetId(s: Shape, id: Id): (r: Shape)
    ensures r.id == id
    ensures r.width == s.width && r.height == s.height && r.image == s.image
    ensures r.centerOffset == s.centerOffset
  {
    s.(id := id)
  }
}
